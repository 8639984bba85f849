/** The concrete cases the committed-entry manager is expected to get right:
    the logs of three to five entries that its unit tests build, each
    operation applied to them, and the exact answer expected. Entries carry
    the unit payload, so two entries are equal when index and term are. */
module ManagerScenarios {
  import opened Wrappers
  import opened LogEntry
  import opened CommittedEntryManager
  import opened CommittedAppend

  function E(index: nat, term: nat): Entry<()>
  {
    Entry(index, term, ())
  }

  /** Entries 3..5, each with a term equal to its index. */
  function ThreeToFive(): (r: seq<Entry<()>>)
    ensures Valid(r)
  {
    [E(3, 3), E(4, 4), E(5, 5)]
  }

  lemma SnapshotScenarios()
    ensures DummyIndex(ApplyingSnapshot(Create(ThreeToFive(), Some(SnapshotMeta(3, 3))), SnapshotMeta(3, 3))) == 3
    ensures DummyIndex(ApplyingSnapshot(Create(ThreeToFive(), Some(SnapshotMeta(3, 3))), SnapshotMeta(4, 4))) == 4
    ensures DummyIndex(ApplyingSnapshot(Create(ThreeToFive(), Some(SnapshotMeta(3, 3))), SnapshotMeta(5, 5))) == 5
    ensures DummyIndex(ApplyingSnapshot(Create(ThreeToFive(), Some(SnapshotMeta(3, 3))), SnapshotMeta(7, 7))) == 7
  {
  }

  lemma AccessorScenarios()
    ensures DummyIndex([E(1, 1)]) == 1 && FirstIndex([E(1, 1)]) == 2 && LastIndex([E(1, 1)]) == 1
    ensures DummyIndex(ThreeToFive()) == 3 && FirstIndex(ThreeToFive()) == 4 && LastIndex(ThreeToFive()) == 5
  {
  }

  lemma TermScenarios()
    ensures Term(ThreeToFive(), 2) == None
    ensures Term(ThreeToFive(), 3) == Some(3)
    ensures Term(ThreeToFive(), 4) == Some(4)
    ensures Term(ThreeToFive(), 5) == Some(5)
    ensures Term(ThreeToFive(), 6) == None
  {
  }

  /** Entries 3..6, each with a term equal to its index. */
  function ThreeToSix(): (r: seq<Entry<()>>)
    ensures Valid(r)
  {
    [E(3, 3), E(4, 4), E(5, 5), E(6, 6)]
  }

  lemma EntriesScenarios()
    ensures Entries(ThreeToSix(), 4, 5) == Success([E(4, 4)])
    ensures Entries(ThreeToSix(), 4, 6) == Success([E(4, 4), E(5, 5)])
    ensures Entries(ThreeToSix(), 4, 7) == Success([E(4, 4), E(5, 5), E(6, 6)])
    ensures Entries(ThreeToSix(), 4, 8) == Success([E(4, 4), E(5, 5), E(6, 6)])
    ensures Entries(ThreeToSix(), 2, 6) == Failure(EntryCompacted)
    ensures Entries(ThreeToSix(), 3, 4) == Failure(EntryCompacted)
  {
    var log := ThreeToSix();
    assert log[1..2] == [E(4, 4)];
    assert log[1..3] == [E(4, 4), E(5, 5)];
    assert log[1..4] == [E(4, 4), E(5, 5), E(6, 6)];
  }

  lemma CompactScenarios()
    ensures CompactEntries(ThreeToFive(), 2) == Step(ThreeToFive(), Pass)
    ensures CompactEntries(ThreeToFive(), 3) == Step(ThreeToFive(), Pass)
    ensures CompactEntries(ThreeToFive(), 4) == Step([E(4, 4), E(5, 5)], Pass)
    ensures CompactEntries(ThreeToFive(), 5) == Step([E(5, 5)], Pass)
    ensures CompactEntries(ThreeToFive(), 6) == Step(ThreeToFive(), Fail(EntryUnavailable))
    ensures CompactEntries(ThreeToFive(), 10) == Step(ThreeToFive(), Fail(EntryUnavailable))
  {
  }

  /** Only stale entries: nothing changes. */
  lemma AppendStaleScenario()
    ensures Append(ThreeToFive(), [E(1, 1), E(2, 2)]) == ThreeToFive()
  {
  }

  /** The same entries again: nothing changes. */
  lemma AppendSameScenario()
    ensures Append(ThreeToFive(), ThreeToFive()) == ThreeToFive()
  {
    assert MatchLength(ThreeToFive(), 1, ThreeToFive(), 1) == 2;
  }

  /** A conflict at index 4 replaces entries 4 and 5. */
  lemma AppendReplaceScenario()
    ensures Append(ThreeToFive(), [E(3, 3), E(4, 6), E(5, 6)]) == [E(3, 3), E(4, 6), E(5, 6)]
  {
    var incoming := [E(3, 3), E(4, 6), E(5, 6)];
    assert MatchLength(ThreeToFive(), 1, incoming, 1) == 0;
    assert ThreeToFive()[..1] + incoming[1..] == incoming;
  }

  /** A matching log one entry longer: the new entry is added. */
  lemma AppendExtendScenario()
    ensures Append(ThreeToFive(), [E(3, 3), E(4, 4), E(5, 5), E(6, 5)]) == [E(3, 3), E(4, 4), E(5, 5), E(6, 5)]
  {
    var incoming := [E(3, 3), E(4, 4), E(5, 5), E(6, 5)];
    assert MatchLength(ThreeToFive(), 3, incoming, 3) == 0;
    assert MatchLength(ThreeToFive(), 1, incoming, 1) == 2;
    assert ThreeToFive()[..3] + incoming[3..] == incoming;
  }

  /** Stale entries dropped, then a conflict at index 4. */
  lemma AppendTruncateBothScenario()
    ensures Append(ThreeToFive(), [E(2, 3), E(3, 3), E(4, 5)]) == [E(3, 3), E(4, 5)]
  {
    var incoming := [E(2, 3), E(3, 3), E(4, 5)];
    assert MatchLength(ThreeToFive(), 1, incoming, 2) == 0;
    assert ThreeToFive()[..1] + incoming[2..] == [E(3, 3), E(4, 5)];
  }

  /** A single conflicting entry at index 4. */
  lemma AppendTruncateScenario()
    ensures Append(ThreeToFive(), [E(4, 5)]) == [E(3, 3), E(4, 5)]
  {
    var incoming := [E(4, 5)];
    assert MatchLength(ThreeToFive(), 1, incoming, 0) == 0;
    assert ThreeToFive()[..1] + incoming[0..] == [E(3, 3), E(4, 5)];
  }

  /** A single entry right after the last index is appended. */
  lemma AppendDirectScenario()
    ensures Append(ThreeToFive(), [E(6, 5)]) == [E(3, 3), E(4, 4), E(5, 5), E(6, 5)]
  {
    var incoming := [E(6, 5)];
    assert MatchLength(ThreeToFive(), 3, incoming, 0) == 0;
    assert ThreeToFive()[..3] + incoming[0..] == [E(3, 3), E(4, 4), E(5, 5), E(6, 5)];
  }
}
