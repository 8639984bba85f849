# Committed-entry manager of the cluster Raft log

This project models the committed-entry manager of Apache IoTDB's cluster
module. The manager keeps the committed part of a replicated Raft log as one
contiguous, non-empty sequence of `(index, term, payload)` entries.

- Position 0 holds a dummy entry. It records the index and term of the last
  compacted or snapshotted entry.
- Indices increase by exactly one from the dummy on.
- Every operation is a pure function from the old sequence to the new one.
- The payload is an opaque type parameter.

The modules are:

- `Wrappers` (`wrappers.dfy`): `Option`, `Result` and `Outcome`.
- `LogEntry` (`entry.dfy`): entries, the invariant `Valid`, and the reference
  meaning of "the log holds index `i`". That meaning is `Lookup`, a
  front-to-back search that does not depend on contiguity. `LookupContiguous`
  proves that `Lookup` agrees with offset arithmetic (`At`) on contiguous
  sequences.
- `CommittedEntryManager` (`manager.dfy`): `getDummyIndex`, `getFirstIndex`,
  `getLastIndex`, `getTerm`, `getEntries`, `compactEntries`,
  `applyingSnapshot`, and the constructor.
- `CommittedAppend` (`append.dfy`): `append`, which applies the log-matching
  rule of section 5.3 of "In Search of an Understandable Consensus Algorithm"
  (Ongaro and Ousterhout). The rule works like this:
  - stale incoming entries, at or below the dummy index, are ignored;
  - the first surviving entry whose term differs from the held entry at the
    same index cuts the log there;
  - the rest of the incoming entries replace what follows the cut.
- `ManagerScenarios` (`scenarios.dfy`): the concrete cases of the unit tests,
  each stated as a lemma about the model.

The implementation class `CommittedEntryManager.java` is not part of this
model. Its unit tests, `CommittedEntryManagerTest.java`, pin down the
accessors, `getTerm`, `getEntries`, `compactEntries` and `applyingSnapshot`
case by case. For `append` the tests leave one case open, and there the model
follows the log-matching rule of Raft (see "## Left out").

`append` is specified independently of how it is computed, through three
lemmas:

- With no conflicting surviving entry, the new log holds every old entry, and
  above the last index the incoming ones (`AppendWithoutConflict`).
- When the first conflict is at incoming position `j`, the new log holds the
  old entries below that index and the incoming ones from it on
  (`AppendWithConflict`).
- Whenever a conflict exists, a first one exists (`FirstConflictExists`).

## Model

| member | source | states |
|---|---|---|
| CommittedEntryManager.LastIndex | cluster/src/test/java/org/apache/iotdb/cluster/log/CommittedEntryManagerTest.java:116-141 | the last index is the dummy index plus the number of real entries, so a log holding only the dummy has last index = dummy index |
| CommittedEntryManager.Accessors | cluster/src/test/java/org/apache/iotdb/cluster/log/CommittedEntryManagerTest.java:60-141 | the dummy index holds the dummy; the first index is dummy + 1 and holds the oldest real entry, or is last + 1 when there is none; the last index holds the newest entry; the log holds index i exactly when dummy ≤ i ≤ last |
| CommittedEntryManager.Term | cluster/src/test/java/org/apache/iotdb/cluster/log/CommittedEntryManagerTest.java:144-173 | a term is found (not the source's -1) exactly when dummy ≤ i ≤ last, and at the dummy index it is the dummy's own term |
| CommittedEntryManager.TermIsLookup | cluster/src/test/java/org/apache/iotdb/cluster/log/CommittedEntryManagerTest.java:157-173 | the term returned is the term of the entry the log holds at that index, and it is not-found exactly when the log holds no entry there |
| CommittedEntryManager.Entries | cluster/src/test/java/org/apache/iotdb/cluster/log/CommittedEntryManagerTest.java:176-235 | fails with EntryCompacted exactly when low ≤ dummy index, whatever high is; otherwise the j-th result is the held entry at index low + j below high, every held entry in [low, high) is returned, and the dummy never is |
| CommittedEntryManager.CompactEntries | cluster/src/test/java/org/apache/iotdb/cluster/log/CommittedEntryManagerTest.java:237-285 | fails with EntryUnavailable, leaving the log as it was, exactly when c > last index; at or below the dummy it is a no-op; otherwise the log holds exactly the old entries with index ≥ c, and the entry at c is the new dummy with its term |
| CommittedEntryManager.ApplyingSnapshot | cluster/src/test/java/org/apache/iotdb/cluster/log/CommittedEntryManagerTest.java:16-57 | a snapshot not newer than the dummy leaves the log unchanged; a newer one, even past the last index, leaves a single payload-free dummy with the snapshot's index and term |
| CommittedEntryManager.Create | cluster/src/test/java/org/apache/iotdb/cluster/log/CommittedEntryManagerTest.java:53-57 | building a manager keeps the initial list when there is no snapshot or the snapshot is not newer than its first entry; a newer snapshot collapses the list to one payload-free dummy carrying the snapshot's index and term |
| CommittedAppend.Append | cluster/src/test/java/org/apache/iotdb/cluster/log/CommittedEntryManagerTest.java:287-398 | the merged log is valid again and keeps the dummy |
| CommittedAppend.AppendLookupCut | cluster/src/test/java/org/apache/iotdb/cluster/log/CommittedEntryManagerTest.java:300-392 | below the cut index the merged log holds what the old log held, and from the cut on it holds what the incoming entries hold |
| CommittedAppend.AppendWithoutConflict | cluster/src/test/java/org/apache/iotdb/cluster/log/CommittedEntryManagerTest.java:339-353 | without a conflicting surviving entry the merged log holds every old entry, and past the last index exactly the incoming entries |
| CommittedAppend.AppendWithConflict | cluster/src/test/java/org/apache/iotdb/cluster/log/CommittedEntryManagerTest.java:326-377 | with the first conflict at incoming entry j, the merged log holds the old entries below j's index and exactly the incoming entries from it on |
| CommittedAppend.FirstConflictExists | cluster/src/test/java/org/apache/iotdb/cluster/log/CommittedEntryManagerTest.java:326-377 | whenever some surviving incoming entry conflicts, there is a first one, so the conflict case above always applies |
| CommittedAppend.AppendStoresIncoming | cluster/src/test/java/org/apache/iotdb/cluster/log/CommittedEntryManagerTest.java:300-392 | after the merge every surviving incoming entry's index carries its term, held either as that entry or as the equal-term entry already there |
| CommittedAppend.AppendWithoutConflictExtends | cluster/src/test/java/org/apache/iotdb/cluster/log/CommittedEntryManagerTest.java:339-353 | without a conflict the old log is a prefix of the merged one |
| CommittedAppend.AppendCovered | cluster/src/test/java/org/apache/iotdb/cluster/log/CommittedEntryManagerTest.java:313-325 | appending entries already held with the same terms changes nothing |
| CommittedAppend.AppendStaleOnly | cluster/src/test/java/org/apache/iotdb/cluster/log/CommittedEntryManagerTest.java:301-312 | appending only entries at or below the dummy index changes nothing |
| CommittedAppend.AppendIdempotent | cluster/src/test/java/org/apache/iotdb/cluster/log/CommittedEntryManagerTest.java:313-325 | appending the same entries a second time changes nothing |
| ManagerScenarios.SnapshotScenarios | cluster/src/test/java/org/apache/iotdb/cluster/log/CommittedEntryManagerTest.java:31-57 | entries 3..5 with snapshot 3, then applying snapshot 3, 4, 5 or 7, give dummy index 3, 4, 5 or 7 |
| ManagerScenarios.AccessorScenarios | cluster/src/test/java/org/apache/iotdb/cluster/log/CommittedEntryManagerTest.java:71-141 | dummy, first and last index are 1, 2, 1 for [1] and 3, 4, 5 for 3..5 |
| ManagerScenarios.TermScenarios | cluster/src/test/java/org/apache/iotdb/cluster/log/CommittedEntryManagerTest.java:157-173 | for 3..5 the terms at 2..6 are not-found, 3, 4, 5 and not-found |
| ManagerScenarios.EntriesScenarios | cluster/src/test/java/org/apache/iotdb/cluster/log/CommittedEntryManagerTest.java:193-218 | the six range reads on 3..6, including the clamped ones and the two that fail with EntryCompacted |
| ManagerScenarios.CompactScenarios | cluster/src/test/java/org/apache/iotdb/cluster/log/CommittedEntryManagerTest.java:252-268 | compaction of 3..5 at 2, 3, 4, 5, 6 and 10 |
| ManagerScenarios.AppendStaleScenario | cluster/src/test/java/org/apache/iotdb/cluster/log/CommittedEntryManagerTest.java:301-312 | appending 1..2 to 3..5 changes nothing |
| ManagerScenarios.AppendSameScenario | cluster/src/test/java/org/apache/iotdb/cluster/log/CommittedEntryManagerTest.java:313-325 | appending 3..5 to itself changes nothing |
| ManagerScenarios.AppendReplaceScenario | cluster/src/test/java/org/apache/iotdb/cluster/log/CommittedEntryManagerTest.java:326-338 | a conflict at index 4 replaces entries 4 and 5 |
| ManagerScenarios.AppendExtendScenario | cluster/src/test/java/org/apache/iotdb/cluster/log/CommittedEntryManagerTest.java:339-353 | a matching log one entry longer adds that entry |
| ManagerScenarios.AppendTruncateBothScenario | cluster/src/test/java/org/apache/iotdb/cluster/log/CommittedEntryManagerTest.java:354-366 | a stale entry is dropped and a conflict at index 4 cuts the log there |
| ManagerScenarios.AppendTruncateScenario | cluster/src/test/java/org/apache/iotdb/cluster/log/CommittedEntryManagerTest.java:367-377 | a single conflicting entry at index 4 cuts entries 4 and 5 |
| ManagerScenarios.AppendDirectScenario | cluster/src/test/java/org/apache/iotdb/cluster/log/CommittedEntryManagerTest.java:378-391 | an entry right after the last index is appended |

## Left out

- `CommittedEntryManager.java` is not part of this model. The model follows
  the behaviour its unit tests assert, and no implementation detail beyond
  those tests.
- Index and term arithmetic on Java `long`: indices and terms are unbounded
  naturals, so 64-bit overflow and negative indices are not modelled.
- Payload contents (`PhysicalPlanLog` and other log types): the payload is a
  type parameter the manager never inspects. The scenarios use the unit
  payload, so entry equality there is equality of index and term.
- Snapshot contents and serialisation: a snapshot is reduced to its metadata,
  the last index and last term it covers.
- Locking, concurrency and persistence around the manager: the model is
  sequential and in memory.
- The exception classes: `EntryCompactedException` and
  `EntryUnavailableException` become the two values of `LogError`.
- In-place mutation of the Java list, including the compaction tests' reuse of
  one list: every mutation returns a new sequence instead.
- `getAllEntries` is the sequence itself and has no member of its own.
- Append: appends whose first surviving index lies past last index + 1 (a
  gap) are excluded by the precondition `CanAppend`. So are incoming lists
  that are not contiguous. Neither case is tested.
- Append: the tests never append a matching incoming list that ends before
  the last index, such as `[3,4,5] + [(4,4)]`. Their seven cases fit the
  log-matching rule of section 5.3 of the Raft paper, which keeps entry 5.
  They equally fit a rule that replaces everything from the first surviving
  incoming index without comparing terms, which would drop entry 5. The model
  follows the Raft rule. `AppendWithoutConflict`,
  `AppendWithoutConflictExtends` and `AppendCovered` state that rule, and in
  this case it goes beyond what the tests show.
- Entries: a read with low > last index + 1 is not tested. The model clamps
  it to the empty list where the Java list slicing may throw.
- ApplyingSnapshot: a snapshot whose index equals the dummy index is treated
  as a no-op. Replacing the dummy by an equal-index dummy would give the same
  dummy index, which is all the tests observe.
