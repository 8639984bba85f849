/** Appending replicated entries to the committed log with Raft's
    log-matching rule (section 5.3 of "In Search of an Understandable
    Consensus Algorithm", Ongaro and Ousterhout): an existing entry that
    conflicts with an incoming one (same index, different term) is deleted
    together with everything after it, and incoming entries not already held
    are appended. */
module CommittedAppend {
  import opened Wrappers
  import opened LogEntry
  import opened CommittedEntryManager

  /** What `Append` demands of its caller: the incoming entries are
      contiguous and leave no gap after the last held index. */
  predicate CanAppend<P>(log: seq<Entry<P>>, incoming: seq<Entry<P>>)
  {
    && Valid(log)
    && Contiguous(incoming)
    && (|incoming| > 0 ==> incoming[0].index <= LastIndex(log) + 1)
  }

  /** How many incoming entries are stale (at or below the dummy index).
      Since `incoming` is contiguous the stale ones form a prefix. */
  function StaleCount<P>(incoming: seq<Entry<P>>, dummy: nat): (s: nat)
    requires Contiguous(incoming)
    ensures s <= |incoming|
    ensures 0 < s ==> incoming[s - 1].index <= dummy
    ensures s < |incoming| ==> incoming[s].index > dummy
    ensures 0 < s < |incoming| ==> incoming[s].index == dummy + 1
  {
    if |incoming| == 0 || incoming[0].index > dummy then 0
    else if dummy + 1 - incoming[0].index < |incoming| then dummy + 1 - incoming[0].index
    else |incoming|
  }

  /** The stale incoming entries are exactly the first `StaleCount` ones. */
  lemma StalePrefix<P>(incoming: seq<Entry<P>>, dummy: nat, j: int)
    requires Contiguous(incoming)
    requires 0 <= j < |incoming|
    ensures incoming[j].index <= dummy <==> j < StaleCount(incoming, dummy)
  {
  }

  /** Number of consecutive positions, from `p` in `log` and from `q` in
      `incoming`, whose entries carry equal terms: the scan for the first
      conflict. */
  function MatchLength<P>(log: seq<Entry<P>>, p: nat, incoming: seq<Entry<P>>, q: nat): (n: nat)
    requires p <= |log| && q <= |incoming|
    ensures p + n <= |log| && q + n <= |incoming|
    ensures p + n < |log| && q + n < |incoming| ==> log[p + n].term != incoming[q + n].term
    decreases |log| - p
  {
    if p == |log| || q == |incoming| || log[p].term != incoming[q].term then 0
    else 1 + MatchLength(log, p + 1, incoming, q + 1)
  }

  /** Every position the scan passed over carries equal terms. */
  lemma {:induction false} MatchLengthAgrees<P>(log: seq<Entry<P>>, p: nat, incoming: seq<Entry<P>>, q: nat, t: nat)
    requires p <= |log| && q <= |incoming|
    requires t < MatchLength(log, p, incoming, q)
    ensures p + t < |log| && q + t < |incoming|
    ensures log[p + t].term == incoming[q + t].term
    decreases t
  {
    if t > 0 {
      MatchLengthAgrees(log, p + 1, incoming, q + 1, t - 1);
    }
  }

  /** Keeping the first `cut` held entries and continuing with the incoming
      entries from position `q` on, when the indices line up, gives a valid
      log with the same dummy. */
  lemma SpliceValid<P>(log: seq<Entry<P>>, cut: nat, incoming: seq<Entry<P>>, q: nat)
    requires Valid(log) && Contiguous(incoming)
    requires 1 <= cut <= |log| && q < |incoming|
    requires incoming[q].index == log[0].index + cut
    ensures Valid(log[..cut] + incoming[q..])
    ensures (log[..cut] + incoming[q..])[0] == log[0]
  {
    var r := log[..cut] + incoming[q..];
    forall p | 0 <= p < |r|
      ensures r[p].index == r[0].index + p
    {
      if p >= cut {
        assert r[p] == incoming[q + p - cut];
      }
    }
  }

  /** Merge `incoming` into the committed log:
      1. entries at or below the dummy index are ignored;
      2. the survivors are aligned with the held entries by index and compared
         by term;
      3. at the first conflict the held suffix is cut off and the rest of the
         incoming entries are put in its place; without a conflict only the
         incoming entries past the last index are added. */
  function Append<P>(log: seq<Entry<P>>, incoming: seq<Entry<P>>): (r: seq<Entry<P>>)
    requires CanAppend(log, incoming)
    ensures Valid(r)
    ensures r[0] == log[0]
  {
    var s := StaleCount(incoming, DummyIndex(log));
    if s == |incoming| then log
    else
      var offset := incoming[s].index - DummyIndex(log);
      var k := MatchLength(log, offset, incoming, s);
      if s + k == |incoming| then log
      else
        SpliceValid(log, offset + k, incoming, s + k);
        log[..offset + k] + incoming[s + k..]
  }

  /** Incoming entry `e` names an index the log holds, with another term. */
  predicate Disagrees<P>(log: seq<Entry<P>>, e: Entry<P>)
    requires Valid(log)
  {
    Term(log, e.index).Some? && Term(log, e.index).value != e.term
  }

  /** Some surviving incoming entry conflicts with a held one. */
  predicate Conflicts<P>(log: seq<Entry<P>>, incoming: seq<Entry<P>>)
    requires Valid(log)
  {
    exists j :: 0 <= j < |incoming| && incoming[j].index > DummyIndex(log) && Disagrees(log, incoming[j])
  }

  /** Every surviving incoming entry is already held with the same term. */
  predicate Covers<P>(log: seq<Entry<P>>, incoming: seq<Entry<P>>)
    requires Valid(log)
  {
    forall j :: 0 <= j < |incoming| && incoming[j].index > DummyIndex(log) ==>
      Term(log, incoming[j].index) == Some(incoming[j].term)
  }

  /** `Append` splices (rather than returning the log as it was). */
  predicate Spliced<P>(log: seq<Entry<P>>, incoming: seq<Entry<P>>)
    requires CanAppend(log, incoming)
  {
    var s := StaleCount(incoming, DummyIndex(log));
    s < |incoming| && s + MatchLength(log, incoming[s].index - DummyIndex(log), incoming, s) < |incoming|
  }

  /** The length of `Append`'s result, and what sits at each of its
      positions: a held entry before the cut, an incoming entry after it. */
  lemma AppendAt<P>(log: seq<Entry<P>>, incoming: seq<Entry<P>>, x: int)
    requires CanAppend(log, incoming)
    requires StaleCount(incoming, DummyIndex(log)) < |incoming|
    ensures var s := StaleCount(incoming, DummyIndex(log));
            var offset := incoming[s].index - DummyIndex(log);
            var k := MatchLength(log, offset, incoming, s);
            var r := Append(log, incoming);
            && |r| == (if s + k == |incoming| then |log| else offset + (|incoming| - s))
            && (0 <= x < |r| ==>
                  r[x] == if s + k == |incoming| || x < offset + k then log[x] else incoming[x - offset + s])
  {
    if Spliced(log, incoming) {
      SplicedAt(log, incoming, x);
    } else {
      KeptIs(log, incoming);
    }
  }

  /** `AppendAt` when `Append` splices. */
  lemma SplicedAt<P>(log: seq<Entry<P>>, incoming: seq<Entry<P>>, x: int)
    requires CanAppend(log, incoming)
    requires Spliced(log, incoming)
    ensures var s := StaleCount(incoming, DummyIndex(log));
            var offset := incoming[s].index - DummyIndex(log);
            var k := MatchLength(log, offset, incoming, s);
            var r := Append(log, incoming);
            && |r| == offset + (|incoming| - s)
            && (0 <= x < |r| ==> r[x] == if x < offset + k then log[x] else incoming[x - offset + s])
  {
    var s := StaleCount(incoming, DummyIndex(log));
    var offset := incoming[s].index - DummyIndex(log);
    var k := MatchLength(log, offset, incoming, s);
    SplicedIs(log, incoming);
    SpliceAt(log, offset + k, incoming, s + k, x);
  }

  /** What `Append` returns when it splices. */
  lemma SplicedIs<P>(log: seq<Entry<P>>, incoming: seq<Entry<P>>)
    requires CanAppend(log, incoming)
    requires Spliced(log, incoming)
    ensures var s := StaleCount(incoming, DummyIndex(log));
            var offset := incoming[s].index - DummyIndex(log);
            var k := MatchLength(log, offset, incoming, s);
            Append(log, incoming) == log[..offset + k] + incoming[s + k..]
  {
  }

  /** What `Append` returns when it does not splice. */
  lemma KeptIs<P>(log: seq<Entry<P>>, incoming: seq<Entry<P>>)
    requires CanAppend(log, incoming)
    requires !Spliced(log, incoming)
    ensures Append(log, incoming) == log
  {
  }

  /** Positions of a spliced sequence. */
  lemma SpliceAt<T>(a: seq<T>, cut: nat, b: seq<T>, q: nat, x: int)
    requires cut <= |a| && q <= |b|
    ensures |a[..cut] + b[q..]| == cut + (|b| - q)
    ensures 0 <= x < cut + (|b| - q) ==> (a[..cut] + b[q..])[x] == if x < cut then a[x] else b[x - cut + q]
  {
  }

  /** Incoming position `j`, when it survives, lines up with held position
      `offset + (j - s)`. */
  lemma Alignment<P>(log: seq<Entry<P>>, incoming: seq<Entry<P>>, j: int)
    requires CanAppend(log, incoming)
    requires 0 <= j < |incoming| && incoming[j].index > DummyIndex(log)
    ensures var s := StaleCount(incoming, DummyIndex(log));
            s <= j && incoming[j].index == DummyIndex(log) + (incoming[s].index - DummyIndex(log)) + (j - s)
  {
  }

  /** A surviving incoming entry that disagrees with the log names a held
      position. */
  lemma DisagreementAligned<P>(log: seq<Entry<P>>, incoming: seq<Entry<P>>, j: int)
    requires CanAppend(log, incoming)
    requires 0 <= j < |incoming| && incoming[j].index > DummyIndex(log) && Disagrees(log, incoming[j])
    ensures var s := StaleCount(incoming, DummyIndex(log));
            var offset := incoming[s].index - DummyIndex(log);
            && s <= j && offset + (j - s) < |log|
            && log[offset + (j - s)].term != incoming[s + (j - s)].term
  {
    Alignment(log, incoming, j);
  }

  /** The scan stops at or before the first position whose terms differ. */
  lemma MatchLengthStops<P>(log: seq<Entry<P>>, p: nat, incoming: seq<Entry<P>>, q: nat, m: nat)
    requires p + m < |log| && q + m < |incoming|
    requires log[p + m].term != incoming[q + m].term
    ensures MatchLength(log, p, incoming, q) <= m
  {
    if MatchLength(log, p, incoming, q) > m {
      MatchLengthAgrees(log, p, incoming, q, m);
    }
  }

  /** A surviving incoming entry that disagrees with the log stops the scan
      inside `Append` at or before its own position. */
  lemma DisagreementStopsScan<P>(log: seq<Entry<P>>, incoming: seq<Entry<P>>, j: int)
    requires CanAppend(log, incoming)
    requires 0 <= j < |incoming| && incoming[j].index > DummyIndex(log) && Disagrees(log, incoming[j])
    ensures var s := StaleCount(incoming, DummyIndex(log));
            var offset := incoming[s].index - DummyIndex(log);
            var k := MatchLength(log, offset, incoming, s);
            s + k <= j && offset + k < |log|
  {
    DisagreementAligned(log, incoming, j);
    var s := StaleCount(incoming, DummyIndex(log));
    var offset := incoming[s].index - DummyIndex(log);
    MatchLengthStops(log, offset, incoming, s, j - s);
  }

  /** A conflict makes the scan inside `Append` stop early. */
  lemma ConflictIsEarlyStop<P>(log: seq<Entry<P>>, incoming: seq<Entry<P>>)
    requires CanAppend(log, incoming)
    requires StaleCount(incoming, DummyIndex(log)) < |incoming|
    requires Conflicts(log, incoming)
    ensures var s := StaleCount(incoming, DummyIndex(log));
            var offset := incoming[s].index - DummyIndex(log);
            var k := MatchLength(log, offset, incoming, s);
            s + k < |incoming| && offset + k < |log|
  {
    var j :| 0 <= j < |incoming| && incoming[j].index > DummyIndex(log) && Disagrees(log, incoming[j]);
    DisagreementStopsScan(log, incoming, j);
  }

  /** Where the scan stops before the end of both the held and the incoming
      entries, the incoming entry there disagrees with the log. */
  lemma EarlyStopDisagrees<P>(log: seq<Entry<P>>, incoming: seq<Entry<P>>)
    requires CanAppend(log, incoming)
    requires StaleCount(incoming, DummyIndex(log)) < |incoming|
    ensures var s := StaleCount(incoming, DummyIndex(log));
            var offset := incoming[s].index - DummyIndex(log);
            var k := MatchLength(log, offset, incoming, s);
            s + k < |incoming| && offset + k < |log| ==>
              incoming[s + k].index > DummyIndex(log) && Disagrees(log, incoming[s + k])
  {
    var s := StaleCount(incoming, DummyIndex(log));
    var offset := incoming[s].index - DummyIndex(log);
    var k := MatchLength(log, offset, incoming, s);
    if s + k < |incoming| && offset + k < |log| {
      StopPointAligned(log, incoming, k);
      assert Term(log, incoming[s + k].index) == Some(log[offset + k].term);
    }
  }

  /** Position `s + k` of the incoming entries lines up with held position
      `offset + k`. */
  lemma StopPointAligned<P>(log: seq<Entry<P>>, incoming: seq<Entry<P>>, k: nat)
    requires CanAppend(log, incoming)
    requires StaleCount(incoming, DummyIndex(log)) + k < |incoming|
    ensures var s := StaleCount(incoming, DummyIndex(log));
            var offset := incoming[s].index - DummyIndex(log);
            && incoming[s + k].index == DummyIndex(log) + offset + k
            && incoming[s + k].index > DummyIndex(log)
            && (offset + k < |log| ==> Term(log, incoming[s + k].index) == Some(log[offset + k].term))
  {
  }

  /** An early stop of the scan inside `Append` is a conflict. */
  lemma EarlyStopIsConflict<P>(log: seq<Entry<P>>, incoming: seq<Entry<P>>)
    requires CanAppend(log, incoming)
    requires StaleCount(incoming, DummyIndex(log)) < |incoming|
    ensures var s := StaleCount(incoming, DummyIndex(log));
            var offset := incoming[s].index - DummyIndex(log);
            var k := MatchLength(log, offset, incoming, s);
            s + k < |incoming| && offset + k < |log| ==> Conflicts(log, incoming)
  {
    EarlyStopDisagrees(log, incoming);
  }

  /** The result position of surviving incoming entry `j` holds either that
      entry or the held entry it agreed with. */
  lemma StoredAt<P>(log: seq<Entry<P>>, incoming: seq<Entry<P>>, j: int)
    requires CanAppend(log, incoming)
    requires 0 <= j < |incoming| && incoming[j].index > DummyIndex(log)
    ensures var x := incoming[j].index - DummyIndex(log);
            var r := Append(log, incoming);
            && x < |r| && r[x].term == incoming[j].term
            && (r[x] == incoming[j] || (x < |log| && r[x] == log[x]))
  {
    Alignment(log, incoming, j);
    var d := DummyIndex(log);
    var s := StaleCount(incoming, d);
    var offset := incoming[s].index - d;
    if j - s < MatchLength(log, offset, incoming, s) {
      StoredBeforeCut(log, incoming, j);
    } else {
      StoredAfterCut(log, incoming, j);
    }
  }

  /** A surviving incoming entry the scan passed over finds the held entry
      with its term at its aligned position. */
  lemma StoredBeforeCut<P>(log: seq<Entry<P>>, incoming: seq<Entry<P>>, j: int)
    requires CanAppend(log, incoming)
    requires StaleCount(incoming, DummyIndex(log)) <= j < |incoming|
    requires var s := StaleCount(incoming, DummyIndex(log));
             j - s < MatchLength(log, incoming[s].index - DummyIndex(log), incoming, s)
    ensures var s := StaleCount(incoming, DummyIndex(log));
            var x := incoming[s].index - DummyIndex(log) + (j - s);
            var r := Append(log, incoming);
            && x < |log| && x < |r| && r[x] == log[x] && log[x].term == incoming[j].term
  {
    var d := DummyIndex(log);
    var s := StaleCount(incoming, d);
    var offset := incoming[s].index - d;
    MatchLengthAgrees(log, offset, incoming, s, j - s);
    AppendAt(log, incoming, offset + (j - s));
  }

  /** A surviving incoming entry at or after the point where the scan stopped
      is itself stored at its aligned position. */
  lemma StoredAfterCut<P>(log: seq<Entry<P>>, incoming: seq<Entry<P>>, j: int)
    requires CanAppend(log, incoming)
    requires StaleCount(incoming, DummyIndex(log)) <= j < |incoming|
    requires var s := StaleCount(incoming, DummyIndex(log));
             j - s >= MatchLength(log, incoming[s].index - DummyIndex(log), incoming, s)
    ensures var s := StaleCount(incoming, DummyIndex(log));
            var x := incoming[s].index - DummyIndex(log) + (j - s);
            var r := Append(log, incoming);
            x < |r| && r[x] == incoming[j]
  {
    var d := DummyIndex(log);
    var s := StaleCount(incoming, d);
    assert Spliced(log, incoming);
    SplicedAt(log, incoming, incoming[s].index - d + (j - s));
  }

  /** After appending, the log agrees with every surviving incoming entry:
      it holds its index with its term, either as the incoming entry itself
      or as the entry already held there. */
  lemma AppendStoresIncoming<P>(log: seq<Entry<P>>, incoming: seq<Entry<P>>, j: int)
    requires CanAppend(log, incoming)
    requires 0 <= j < |incoming| && incoming[j].index > DummyIndex(log)
    ensures var r := Append(log, incoming);
            && Term(r, incoming[j].index) == Some(incoming[j].term)
            && (Lookup(r, incoming[j].index) == Some(incoming[j])
                || Lookup(r, incoming[j].index) == Lookup(log, incoming[j].index))
  {
    var r := Append(log, incoming);
    StoredAt(log, incoming, j);
    LookupContiguous(r, incoming[j].index);
    LookupContiguous(log, incoming[j].index);
  }

  /** The first index at which `Append`'s result departs from the held log:
      the index of the first conflict, or one past the last index when the
      log is kept whole. */
  function CutIndex<P>(log: seq<Entry<P>>, incoming: seq<Entry<P>>): (c: nat)
    requires CanAppend(log, incoming)
    ensures DummyIndex(log) < c <= LastIndex(log) + 1
  {
    var s := StaleCount(incoming, DummyIndex(log));
    if s == |incoming| then LastIndex(log) + 1
    else
      var offset := incoming[s].index - DummyIndex(log);
      var k := MatchLength(log, offset, incoming, s);
      if s + k == |incoming| then LastIndex(log) + 1
      else DummyIndex(log) + offset + k
  }

  /** When `Append` keeps the log whole, no incoming entry lies past the last
      index. */
  lemma KeptAt<P>(log: seq<Entry<P>>, incoming: seq<Entry<P>>, i: int)
    requires CanAppend(log, incoming)
    requires !Spliced(log, incoming)
    ensures Append(log, incoming) == log
    ensures CutIndex(log, incoming) == LastIndex(log) + 1
    ensures i > LastIndex(log) ==> At(incoming, i) == None && At(log, i) == None
  {
    var d := DummyIndex(log);
    var s := StaleCount(incoming, d);
    if 0 < s < |incoming| {
      var offset := incoming[s].index - d;
      var k := MatchLength(log, offset, incoming, s);
      assert s + k == |incoming|;
      assert incoming[|incoming| - 1].index == d + offset + k - 1;
    }
  }

  /** Below the cut the spliced log holds what the old log held. */
  lemma SplicedBelow<P>(log: seq<Entry<P>>, incoming: seq<Entry<P>>, i: int)
    requires CanAppend(log, incoming)
    requires Spliced(log, incoming)
    requires i < CutIndex(log, incoming)
    ensures At(Append(log, incoming), i) == At(log, i)
  {
    SplicedAt(log, incoming, i - DummyIndex(log));
  }

  /** From the cut on the spliced log holds what the incoming entries hold. */
  lemma SplicedFrom<P>(log: seq<Entry<P>>, incoming: seq<Entry<P>>, i: int)
    requires CanAppend(log, incoming)
    requires Spliced(log, incoming)
    requires i >= CutIndex(log, incoming)
    ensures At(Append(log, incoming), i) == At(incoming, i)
  {
    var s := StaleCount(incoming, DummyIndex(log));
    assert incoming[0].index + s == incoming[s].index;
    SplicedAt(log, incoming, i - DummyIndex(log));
  }

  /** `Append` in terms of lookups: below the cut index the old log's entries,
      from it on the incoming ones. */
  lemma AppendLookupCut<P>(log: seq<Entry<P>>, incoming: seq<Entry<P>>, i: int)
    requires CanAppend(log, incoming)
    ensures Lookup(Append(log, incoming), i)
      == if i < CutIndex(log, incoming) then Lookup(log, i) else Lookup(incoming, i)
  {
    LookupContiguous(Append(log, incoming), i);
    LookupContiguous(log, i);
    LookupContiguous(incoming, i);
    if Spliced(log, incoming) {
      if i < CutIndex(log, incoming) {
        SplicedBelow(log, incoming, i);
      } else {
        SplicedFrom(log, incoming, i);
      }
    } else {
      KeptAt(log, incoming, i);
    }
  }

  /** Incoming position `j` is the first surviving entry that conflicts with
      the log. */
  predicate FirstConflict<P>(log: seq<Entry<P>>, incoming: seq<Entry<P>>, j: int)
    requires Valid(log)
  {
    && 0 <= j < |incoming| && incoming[j].index > DummyIndex(log) && Disagrees(log, incoming[j])
    && forall t :: 0 <= t < j && incoming[t].index > DummyIndex(log) ==> !Disagrees(log, incoming[t])
  }

  /** A surviving incoming entry the scan passed over does not conflict. */
  lemma ScannedAgrees<P>(log: seq<Entry<P>>, incoming: seq<Entry<P>>, t: int)
    requires CanAppend(log, incoming)
    requires StaleCount(incoming, DummyIndex(log)) <= t < |incoming|
    requires var s := StaleCount(incoming, DummyIndex(log));
             t - s < MatchLength(log, incoming[s].index - DummyIndex(log), incoming, s)
    ensures !Disagrees(log, incoming[t])
  {
    var d := DummyIndex(log);
    var s := StaleCount(incoming, d);
    var offset := incoming[s].index - d;
    MatchLengthAgrees(log, offset, incoming, s, t - s);
    assert incoming[t].index == d + (offset + (t - s));
    TermAt(log, offset + (t - s));
  }

  /** The cut index is the index of the first conflict. */
  lemma CutAtFirstConflict<P>(log: seq<Entry<P>>, incoming: seq<Entry<P>>, j: int)
    requires CanAppend(log, incoming)
    requires FirstConflict(log, incoming, j)
    ensures CutIndex(log, incoming) == incoming[j].index
  {
    DisagreementStopsScan(log, incoming, j);
    EarlyStopDisagrees(log, incoming);
    Alignment(log, incoming, j);
  }

  /** Without a conflict the cut index is one past the last index. */
  lemma CutWithoutConflict<P>(log: seq<Entry<P>>, incoming: seq<Entry<P>>)
    requires CanAppend(log, incoming)
    requires !Conflicts(log, incoming)
    ensures CutIndex(log, incoming) == LastIndex(log) + 1
  {
    if StaleCount(incoming, DummyIndex(log)) < |incoming| {
      EarlyStopIsConflict(log, incoming);
    }
  }

  /** Whenever some surviving incoming entry conflicts, there is a first
      one. */
  lemma FirstConflictExists<P>(log: seq<Entry<P>>, incoming: seq<Entry<P>>)
    requires CanAppend(log, incoming)
    requires Conflicts(log, incoming)
    ensures exists j :: FirstConflict(log, incoming, j)
  {
    var d := DummyIndex(log);
    var s := StaleCount(incoming, d);
    assert s < |incoming|;
    ConflictIsEarlyStop(log, incoming);
    EarlyStopDisagrees(log, incoming);
    var k := MatchLength(log, incoming[s].index - d, incoming, s);
    forall t | 0 <= t < s + k && incoming[t].index > d
      ensures !Disagrees(log, incoming[t])
    {
      StalePrefix(incoming, d, t);
      ScannedAgrees(log, incoming, t);
    }
    assert FirstConflict(log, incoming, s + k);
  }

  /** Merging entries that do not conflict keeps every held entry and adds
      the incoming entries past the last index. */
  lemma AppendWithoutConflict<P>(log: seq<Entry<P>>, incoming: seq<Entry<P>>, i: int)
    requires CanAppend(log, incoming)
    requires !Conflicts(log, incoming)
    ensures Lookup(Append(log, incoming), i)
      == if i <= LastIndex(log) then Lookup(log, i) else Lookup(incoming, i)
  {
    CutWithoutConflict(log, incoming);
    AppendLookupCut(log, incoming, i);
  }

  /** Merging entries whose first conflict is at incoming position `j` keeps
      the held entries below its index and replaces everything from there on
      by the incoming entries. */
  lemma AppendWithConflict<P>(log: seq<Entry<P>>, incoming: seq<Entry<P>>, j: int, i: int)
    requires CanAppend(log, incoming)
    requires FirstConflict(log, incoming, j)
    ensures Lookup(Append(log, incoming), i)
      == if i < incoming[j].index then Lookup(log, i) else Lookup(incoming, i)
  {
    CutAtFirstConflict(log, incoming, j);
    AppendLookupCut(log, incoming, i);
  }

  /** Without a conflict nothing held is rewritten: the old log is a prefix of
      the new one. */
  lemma AppendWithoutConflictExtends<P>(log: seq<Entry<P>>, incoming: seq<Entry<P>>)
    requires CanAppend(log, incoming)
    requires !Conflicts(log, incoming)
    ensures var r := Append(log, incoming); |log| <= |r| && r[..|log|] == log
  {
    var d := DummyIndex(log);
    var s := StaleCount(incoming, d);
    if s < |incoming| {
      EarlyStopIsConflict(log, incoming);
    }
  }

  /** The scan runs to the end of the incoming entries when they all fit
      inside the held ones and agree with them term by term. */
  lemma {:induction false} MatchLengthFull<P>(log: seq<Entry<P>>, p: nat, incoming: seq<Entry<P>>, q: nat)
    requires p <= |log| && q <= |incoming|
    requires |incoming| - q <= |log| - p
    requires forall t :: q <= t < |incoming| ==> log[t - q + p].term == incoming[t].term
    ensures MatchLength(log, p, incoming, q) == |incoming| - q
    decreases |incoming| - q
  {
    if q < |incoming| {
      assert log[q - q + p].term == incoming[q].term;
      MatchLengthFull(log, p + 1, incoming, q + 1);
    }
  }

  /** Appending entries the log already holds with the same terms changes
      nothing; in particular appending only stale entries is a no-op. */
  lemma AppendCovered<P>(log: seq<Entry<P>>, incoming: seq<Entry<P>>)
    requires CanAppend(log, incoming)
    requires Covers(log, incoming)
    ensures Append(log, incoming) == log
  {
    var d := DummyIndex(log);
    var s := StaleCount(incoming, d);
    if s < |incoming| {
      var offset := incoming[s].index - d;
      forall t | s <= t < |incoming|
        ensures t - s + offset < |log| && log[t - s + offset].term == incoming[t].term
      {
        CoveredAligned(log, incoming, t);
      }
      CoveredAligned(log, incoming, |incoming| - 1);
      MatchLengthFull(log, offset, incoming, s);
      FullMatchKeeps(log, incoming);
    }
  }

  /** When the scan inside `Append` reaches the end of the incoming entries
      the log is returned unchanged. */
  lemma FullMatchKeeps<P>(log: seq<Entry<P>>, incoming: seq<Entry<P>>)
    requires CanAppend(log, incoming)
    requires StaleCount(incoming, DummyIndex(log)) < |incoming|
    requires var s := StaleCount(incoming, DummyIndex(log));
             MatchLength(log, incoming[s].index - DummyIndex(log), incoming, s) == |incoming| - s
    ensures Append(log, incoming) == log
  {
  }

  /** Under `Covers`, surviving incoming entry `t` agrees in term with the
      held entry at its aligned position. */
  lemma CoveredAligned<P>(log: seq<Entry<P>>, incoming: seq<Entry<P>>, t: int)
    requires CanAppend(log, incoming)
    requires Covers(log, incoming)
    requires StaleCount(incoming, DummyIndex(log)) <= t < |incoming|
    ensures var s := StaleCount(incoming, DummyIndex(log));
            var offset := incoming[s].index - DummyIndex(log);
            t - s + offset < |log| && log[t - s + offset].term == incoming[t].term
  {
    StalePrefix(incoming, DummyIndex(log), t);
    Alignment(log, incoming, t);
  }

  /** Appending only entries at or below the dummy index is a no-op. */
  lemma AppendStaleOnly<P>(log: seq<Entry<P>>, incoming: seq<Entry<P>>)
    requires CanAppend(log, incoming)
    requires forall j :: 0 <= j < |incoming| ==> incoming[j].index <= DummyIndex(log)
    ensures Append(log, incoming) == log
  {
    AppendCovered(log, incoming);
  }

  /** Re-appending the same entries changes nothing. */
  lemma AppendIdempotent<P>(log: seq<Entry<P>>, incoming: seq<Entry<P>>)
    requires CanAppend(log, incoming)
    ensures CanAppend(Append(log, incoming), incoming)
    ensures Append(Append(log, incoming), incoming) == Append(log, incoming)
  {
    var r := Append(log, incoming);
    if |incoming| > 0 && incoming[0].index > DummyIndex(log) {
      AppendStoresIncoming(log, incoming, 0);
    }
    forall j | 0 <= j < |incoming| && incoming[j].index > DummyIndex(r)
      ensures Term(r, incoming[j].index) == Some(incoming[j].term)
    {
      AppendStoresIncoming(log, incoming, j);
    }
    AppendCovered(r, incoming);
  }
}
