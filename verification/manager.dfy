/** The committed-entry manager of the cluster's Raft log: the committed part
    of the replicated log as one contiguous sequence whose position 0 is a
    dummy entry recording the index and term of the last compacted or
    snapshotted entry.

    The manager's state is the sequence itself (what `getAllEntries` returns);
    every mutation is a function from the old sequence to the new one. */
module CommittedEntryManager {
  import opened Wrappers
  import opened LogEntry

  /** The two errors the manager reports. */
  datatype LogError =
    | EntryCompacted    // a read at or below the dummy boundary
    | EntryUnavailable  // a compaction past the last held index

  /** The index and term of the last entry a snapshot captures. */
  datatype SnapshotMeta = SnapshotMeta(lastIndex: nat, lastTerm: nat)

  /** The sequence after a mutation that may fail, and whether it failed. */
  datatype Step<P> = Step(entries: seq<Entry<P>>, status: Outcome<LogError>)

  /** Index of the dummy entry: the lowest index the log still holds. */
  function DummyIndex<P>(log: seq<Entry<P>>): nat
    requires Valid(log)
  {
    log[0].index
  }

  /** Index of the oldest real (non-dummy) committed entry, whether or not the
      log currently holds one. */
  function FirstIndex<P>(log: seq<Entry<P>>): nat
    requires Valid(log)
  {
    log[0].index + 1
  }

  /** Index of the newest entry; equals the dummy index when only the dummy
      is held. */
  function LastIndex<P>(log: seq<Entry<P>>): (r: nat)
    requires Valid(log)
    ensures r == DummyIndex(log) + |log| - 1
  {
    log[|log| - 1].index
  }

  /** What the three accessors mean: the dummy index holds the dummy, the
      first index holds the oldest real entry (or is one past the last index
      when there is none), the last index holds the newest entry, and the log
      holds exactly the indices from the dummy index to the last index. */
  lemma Accessors<P>(log: seq<Entry<P>>, i: int)
    requires Valid(log)
    ensures Lookup(log, DummyIndex(log)) == Some(log[0])
    ensures FirstIndex(log) == DummyIndex(log) + 1
    ensures |log| > 1 ==> Lookup(log, FirstIndex(log)) == Some(log[1])
    ensures |log| == 1 ==> FirstIndex(log) == LastIndex(log) + 1
    ensures Lookup(log, LastIndex(log)) == Some(log[|log| - 1])
    ensures Lookup(log, i).Some? <==> DummyIndex(log) <= i <= LastIndex(log)
  {
    LookupContiguous(log, DummyIndex(log));
    LookupContiguous(log, FirstIndex(log));
    LookupContiguous(log, LastIndex(log));
    LookupContiguous(log, i);
  }

  /** The term stored at index `i`, or None (the source's -1) when `i` is
      below the dummy index or above the last index. The dummy's own term is
      returned for `i == DummyIndex(log)`. */
  function Term<P>(log: seq<Entry<P>>, i: int): (r: Option<nat>)
    requires Valid(log)
    ensures r.Some? <==> DummyIndex(log) <= i <= LastIndex(log)
    ensures i == DummyIndex(log) ==> r == Some(log[0].term)
  {
    if log[0].index <= i <= log[|log| - 1].index then Some(log[i - log[0].index].term) else None
  }

  /** The term at the index held at position `x`. */
  lemma TermAt<P>(log: seq<Entry<P>>, x: int)
    requires Valid(log)
    requires 0 <= x < |log|
    ensures Term(log, DummyIndex(log) + x) == Some(log[x].term)
  {
  }

  /** `Term` answers with the term of the entry found by searching for `i`. */
  lemma TermIsLookup<P>(log: seq<Entry<P>>, i: int)
    requires Valid(log)
    ensures Term(log, i).Some? <==> Lookup(log, i).Some?
    ensures Term(log, i).Some? ==> Term(log, i).value == Lookup(log, i).value.term
  {
    LookupContiguous(log, i);
  }

  /** The real entries with index in [low, high), the upper bound silently
      capped at LastIndex + 1. Fails with EntryCompacted whenever `low` is at
      or below the dummy index, whatever `high` is. */
  function Entries<P>(log: seq<Entry<P>>, low: int, high: int): (r: Result<seq<Entry<P>>, LogError>)
    requires Valid(log)
    ensures r.Failure? <==> low <= DummyIndex(log)
    ensures r.Failure? ==> r.error == EntryCompacted
    // sound: the j-th result is the held entry at index low + j, below high
    ensures r.Success? ==> forall j :: 0 <= j < |r.value| ==>
              low + j < high && Lookup(log, low + j) == Some(r.value[j])
    // complete: every held entry with index in [low, high) is returned
    ensures r.Success? ==> forall i: int :: low <= i < high && Lookup(log, i).Some? ==>
              i < low + |r.value|
    // the dummy is never returned
    ensures r.Success? ==> forall e :: e in r.value ==> e in log[1..]
  {
    LookupIndexed(log);
    var dummy := log[0].index;
    if low <= dummy then Failure(EntryCompacted)
    else
      var last := log[|log| - 1].index;
      var high' := if high > last + 1 then last + 1 else high;
      if low >= high' then Success([])
      else
        var r := log[low - dummy..high' - dummy];
        assert forall e :: e in r ==> e in log[1..] by {
          forall e | e in r ensures e in log[1..] {
            var j :| 0 <= j < |r| && r[j] == e;
            assert log[1..][low - dummy - 1 + j] == e;
          }
        }
        Success(r)
  }

  /** Discard every entry below `compactIndex`; the entry at `compactIndex`
      becomes the new dummy with its term kept. A request at or below the
      dummy index is a no-op; one past the last index fails with
      EntryUnavailable and leaves the sequence as it was. */
  function CompactEntries<P>(log: seq<Entry<P>>, compactIndex: int): (r: Step<P>)
    requires Valid(log)
    ensures r.status.Fail? <==> compactIndex > LastIndex(log)
    ensures r.status.Fail? ==> r.status.error == EntryUnavailable && r.entries == log
    ensures Valid(r.entries)
    ensures compactIndex <= DummyIndex(log) ==> r.entries == log
    ensures r.status.Pass? ==>
              DummyIndex(r.entries) == (if compactIndex <= DummyIndex(log) then DummyIndex(log) else compactIndex)
    // what remains is exactly the old log from compactIndex on
    ensures r.status.Pass? ==> forall i: int :: Lookup(r.entries, i) == if i < compactIndex then None else Lookup(log, i)
  {
    LookupIndexed(log);
    var dummy := log[0].index;
    if compactIndex <= dummy then Step(log, Pass)
    else if compactIndex > log[|log| - 1].index then Step(log, Fail(EntryUnavailable))
    else
      var rest := log[compactIndex - dummy..];
      ContiguousSuffix(log, compactIndex - dummy);
      LookupIndexed(rest);
      Step(rest, Pass)
  }

  /** Install snapshot metadata. A snapshot not newer than the dummy is
      ignored; a newer one, even beyond the last index, replaces the whole
      sequence by a single payload-free dummy carrying its index and term. */
  function ApplyingSnapshot<P>(log: seq<Entry<P>>, meta: SnapshotMeta): (r: seq<Entry<P>>)
    requires Valid(log)
    ensures Valid(r)
    ensures meta.lastIndex <= DummyIndex(log) ==> r == log
    ensures DummyIndex(r) == if meta.lastIndex <= DummyIndex(log) then DummyIndex(log) else meta.lastIndex
    ensures meta.lastIndex > DummyIndex(log) ==>
              LastIndex(r) == meta.lastIndex && Term(r, meta.lastIndex) == Some(meta.lastTerm)
              && Lookup(r, meta.lastIndex) == Some(EmptyContent(meta.lastIndex, meta.lastTerm))
  {
    if meta.lastIndex <= log[0].index then log
    else [EmptyContent(meta.lastIndex, meta.lastTerm)]
  }

  /** A manager built from an initial list, whose first element is the dummy,
      and an optional snapshot, which is applied at once. */
  function Create<P>(initial: seq<Entry<P>>, snapshot: Option<SnapshotMeta>): (r: seq<Entry<P>>)
    requires Valid(initial)
    ensures Valid(r)
    ensures snapshot.None? || snapshot.value.lastIndex <= initial[0].index ==> r == initial
    ensures snapshot.Some? && snapshot.value.lastIndex > initial[0].index ==>
              r == [EmptyContent(snapshot.value.lastIndex, snapshot.value.lastTerm)]
    ensures DummyIndex(r)
      == if snapshot.Some? && snapshot.value.lastIndex > initial[0].index then snapshot.value.lastIndex
         else initial[0].index
  {
    match snapshot
    case None => initial
    case Some(meta) => ApplyingSnapshot(initial, meta)
  }
}
