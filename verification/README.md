# The replica sync engine, modelled and proved

This project models the part of pdn-store that keeps replicas in sync, and proves
what that part promises: range-based set reconciliation between two nodes, the
table-backed store it reads and writes, and the state machines that coordinate
sessions, peers and downloads.

The pieces, from the bottom up:

- `Basics`, `Bytes`, `Bounds`, `Tables`, `Sorting` — options, byte strings and their order, the fixed-length
  increment, and the bounds the record tables are scanned with.
- `Entries`, `Puts` — when one entry supersedes another, and insertion with prefix
  pruning against the contract of the ranger store trait.
- `Ranges`, `Split` — wrap-around ranges and how they are cut at pivots. Proofs place
  the keys on a circle through `Bytes.Rank`, an order embedding into the reals.
- `Reconcile`, `Answers`, `Session` — messages, the answer to a message, and a whole
  session as steps of a two-node system with other writes in between.
- `Traffic`, `Fingerprints` — what travels in a session and what does not; what a
  fingerprint is, and exactly when two views collide.
- `SessionStores` — the round as the program carries it out, loop by loop, reading the
  frozen snapshot through the session's filter and writing to the live store.
- `Scan`, `FsStore`, `Queries`, `Transactions` — range scans, writes, queries and the
  batched transaction slot of the table-backed store.
- `Refinement`, `TableSessions` — when a put through the tables is the put of the
  contract, and the session between two table-backed stores.
- `PeerSync`, `Registry`, `Downloads`, `Heads`, `Peers` — the sync slot per peer, the
  session registry, pending downloads, author heads, useful peers.

What is taken as given, and how it appears: entry fingerprints are an arbitrary hash
function of the entry, folded with exclusive or, and only convergence assumes that they
tell the two views apart (`Session.NoCollision`, made exact by
`Fingerprints.NoCollisionExactly`); signature and capability checks are an
arbitrary verdict per entry; time stamps and the age of a transaction are parameters; the
table engine is an ordered map with snapshots, so scans get their rows in table order
(`Queries.ScannedRows`, `Scan.SortedRows`; `Queries.ScannedRowsExist` and
`TableSessions.TableRowsExist` show that there always are such rows); a serialized size is an arbitrary function of
the list it measures. Records are compared and identified by timestamp and content hash,
as their order and their fingerprint are, so the content length does not appear.

Where code and comments differ the code is followed:

- `src/ranger.rs:517-518` says a first pivot differs from the range start for two or more
  entries. It does for the default of two pieces; `Split.SplitIsPartition` gives the exact
  condition for any number of pieces and `Split.TooFewEntriesOverlap` an input where it fails.
- `src/store.rs:279-280` says the author filter runs after the grouping by key. The
  iterator filters first, and `Queries.Selected` says so. `Queries.AuthorFilterOrder` says
  exactly when the two orders give one answer, and `Queries.AuthorFilterDiffers` gives two
  puts and a query for which they do not.
- `src/ranger.rs:324-325` says that the parents of a key include tombstones and the empty
  key. The table-backed store passes both over; `FsStore.TakesMoreThanContract` says exactly
  when it therefore takes in a record that the contract refuses.
- `src/ranger.rs:451-456` and `src/sync.rs:968-970` say that a refusal never names an entry
  the refusing store holds. On a contract store it does not (`Answers.RefusalsNameNothingHeld`).
  The table-backed gate passes over tombstones and the empty key here too:
  `TableSessions.HeldEntryRefused` says exactly which held entries it names, and
  `TableSessions.HeldTombstoneRefused` gives a store of one put for which it does.
- `src/store/fs/bounds.rs:160-162` increments at constant length, so the bounds of some
  prefixes reach other keys too: `Bounds.PrefixReach` and `Tables.ExactBoundsExactly` say
  which, and `FsStore.PutPrunesOnlyBelow` says for which keys an insertion can delete a
  record that is not below it (`FsStore.StrayDeletedExample`: put [2], then put [1, 255]).
- `src/engine/live.rs:134-141` says the ready event follows the completion of all pending
  downloads. `Downloads.ReadyWhileQueued` gives the one case in which a download is queued,
  and `Downloads.ReadyWhileQueuedRun` a run that reaches it.
- `src/engine/state.rs:221` says that two syncs never run at the same time. For the two
  slots of a pair `PeerSync.ExchangesNeverOverlap` proves it over all runs with two
  conditions, on when the low end finishes and on where a request fails undecided;
  `PeerSync.LowFirstExact` and `PeerSync.UndecidedExact` show that both are exact, and
  `PeerSync.OverlapAfterHalfFinish`, `PeerSync.OverlapByLateDial` and
  `PeerSync.OverlapAfterFailedRequest` are runs that break them.
- `src/engine/live.rs:177-180` says that wanted hashes without a provider are kept for a
  retry. `Downloads.WantedIsDropped` gives the one case in which a namespace loses one, and
  `Downloads.WantedIsDroppedRun` a run that reaches it.

`Session.Convergence` is about contract stores, those whose puts follow the ranger store
trait. A put through the tables differs from that in the cases of `Refinement.PutRefines`;
`Refinement.PlainRunsRefine` says that runs of puts of live records under keys with exact
bounds never meet one of them, and `TableSessions.TablesConverge` carries convergence,
termination and the scans of the frozen views over to two table-backed stores filled,
written and synced by such puts.

## Model

| member | source | states |
|---|---|---|
| Bytes.RankOrders | src/sync.rs:1193-1194 | the order embedding into the reals agrees with the byte order of identifiers and is injective |
| Bytes.LessIsTotalOrder | src/sync.rs:1193-1194 | the byte order is a strict total order |
| Entries.SupersedesIsPartialOrder | src/ranger.rs:642-655 | "prefix key and at least as large a value" is a partial order on entries |
| Entries.MaximalAbsorbs | src/ranger.rs:613-655 | dropping superseded entries early or late gives the same maxima |
| Puts.PutIsMaximal | src/ranger.rs:613-655 | one put leaves exactly the entries that nothing supersedes |
| Puts.PutAllIsMaximal | src/ranger.rs:613-655 | any sequence of puts leaves exactly the maximal entries of all that was there and all that was put |
| Puts.PutOrderIndependent | src/ranger.rs:613-655 | permuting or repeating the puts gives the same store |
| Puts.LaterIsTaken | src/ranger.rs:648-655 | a put with a later timestamp than everything at its key and above is taken, whatever the hashes; one with an earlier timestamp than something there is not |
| Puts.LatestPutWins | src/sync.rs:1376-1382 | after any run of puts the record at a key is the one with the greatest timestamp put there, then the greatest hash, provided it is also later than every put at a prefix; else there is none |
| Puts.LiveStore.PrefixesOf | src/ranger.rs:916-924 | yields exactly the entries at prefixes of the key, the key included |
| Puts.LiveStore.WouldTake | src/ranger.rs:648-655 | true exactly if no entry at the key or a prefix of it is at least as large |
| Puts.LiveStore.RemovePrefixFiltered | src/ranger.rs:934-945 | removes exactly the not larger entries below the key and counts them |
| Puts.LiveStore.Insert | src/ranger.rs:626-640 | the loop form of put: new contents, outcome and removed count |
| Ranges.RangesAreArcs | src/ranger.rs:77-119 | seen from any key, every proper wrap-around range is one arc of the key circle |
| Ranges.InRangeMembers | src/ranger.rs:303-304 | a range listing holds exactly the entries of the view inside the range |
| Ranges.InRangeNested | src/ranger.rs:303-304 | listing a sub-range of a listing is listing the sub-range |
| Split.SplitIsPartition | src/ranger.rs:501-570 | the pieces are disjoint and make up the range over all keys, if and only if the range is everything, or has as many entries as pieces, or does not start with its own first entry; then no piece is an identity range |
| Split.TooFewEntriesOverlap | src/ranger.rs:512-569 | two entries cut into three pieces overlap |
| Split.DefaultSplitsPartition | src/ranger.rs:752-758 | with the default of two pieces every split is a partition into proper ranges |
| Split.SplitFeedsTwo | src/ranger.rs:572-601 | at least two pieces hold an entry, for every number of pieces and also where they overlap |
| Split.SplitHalves | src/ranger.rs:752-758 | with the default factor no piece holds more than half of the entries, rounded up |
| Split.SplitShares | src/ranger.rs:519-531 | for any number of pieces, wherever the split is a partition, no piece holds more than its share of the entries, rounded up |
| Answers.AnswersAnswer | src/ranger.rs:384-611 | every reply part but a refusal answers a part of the message, and every answer is in the reply |
| Answers.FingerprintAnswer | src/ranger.rs:476-602 | unless fingerprints agree, a fingerprint is answered by true, disjoint statements that cover exactly its range |
| Answers.FingerprintBoundaries | src/ranger.rs:537-570 | new boundaries are keys of the answering view |
| Answers.FingerprintHalves | src/ranger.rs:476-602 | a fingerprint in a reply covers at most half, rounded up, of the replier's entries in the answered range |
| Answers.AnswerDisjoint | src/ranger.rs:368-611 | disjoint parts are answered by disjoint parts about no other keys |
| Answers.RefusalsNameNothingHeld | src/ranger.rs:451-461 | on a contract store, a refusal names a rejected entry that the store does not hold when it replies; for the tables see `TableSessions.HeldEntryRefused` |
| Session.RunInv | src/ranger.rs:386-602 | over every run, whatever the fingerprints: parts in flight are disjoint and true, boundaries are keys of the two views, nothing is sent twice, sent equals received plus in flight |
| Session.RunProgresses | src/ranger.rs:386-602 | over every run, each key is in flight or settled both ways |
| Session.Convergence | src/ranger.rs:368-655 | when the session is over each live store holds exactly the maximal entries of its start, its writes, and what it admits of the peer's view; each side's sent entries are the other's received ones, without repeats |
| Session.ReplicasAgree | src/ranger.rs:368-655 | two replicas that show and accept everything end with equal stores |
| Session.Termination | src/ranger.rs:476-602 | every run is over after at most 4 + min(2 log b, 2 log a + 1) deliveries |
| Session.HalvingsIsLog | src/ranger.rs:752-758 | the number of halvings is the logarithm to base two, rounded up |
| Session.AnswerWeighsLess | src/ranger.rs:476-602 | each reply part can cause fewer further deliveries than some part of the message |
| Session.AnswerKeepsLink | src/sync.rs:608-716 | one processed message keeps the session invariant, counts of sent and received entries included |
| Traffic.FullIfSmall | src/ranger.rs:579-600 | a part of the answer to a fingerprint is sent in full if and only if the replier holds at most the configured number of entries there, or at most one in the answered range, or the peer none |
| Traffic.SilentIffEqual | src/ranger.rs:477-483 | a fingerprint is left unanswered if and only if it is the replier's own |
| Traffic.RecursionSendsLittle | src/ranger.rs:498-601 | a recursed fingerprint makes the replier send at most pieces times the configured size, however much it holds |
| Traffic.FingerprintsAreLarge | src/ranger.rs:579-600 | over every run, a fingerprint after the opening one covers more entries of its sender than would be sent in full |
| Traffic.EqualViewsSendNothing | src/ranger.rs:477-483 | two sides with the same view exchange one message and no entry |
| Traffic.ReplyIsDifference | src/ranger.rs:413-430 | the reply to an item part holds exactly the replier's entries in the range to which the peer named nothing as late at the same key |
| Traffic.NothingRedundant | src/ranger.rs:413-430 | over every run no entry is sent back that is not later than the receiver's at its key |
| Traffic.RefusedExactly | src/ranger.rs:440-463 | an entry is refused if and only if it is rejected and was news to the live store when its turn came |
| Fingerprints.EmptyIsEmpty | src/ranger.rs:137-142 | the fingerprint of the empty set is the hash of nothing |
| Fingerprints.FingerprintSteps | src/ranger.rs:144-150 | one more entry changes a fingerprint if and only if its hash is not zero, and the same entry twice cancels |
| Fingerprints.FingerprintIsSetHash | src/store/fs.rs:854-865 | a fingerprint is the fold of the hashes of the set of entries listed |
| Fingerprints.FingerprintOrder | src/store/fs.rs:854-865 | it does not depend on the order of the listing |
| Fingerprints.EqualIffFoldsToZero | src/ranger.rs:477-483 | two views have one fingerprint if and only if the hashes of what they differ in fold to zero |
| Fingerprints.NoCollisionExactly | src/ranger.rs:477-483 | the hypothesis of convergence holds if and only if in no range the hashes of a difference fold to zero |
| Fingerprints.OneApart | src/ranger.rs:477-483 | it is met by views one entry apart whose hash is not zero |
| Fingerprints.SilentExactly | src/ranger.rs:477-483 | a fingerprint is left unanswered if and only if the hashes of the difference in its range fold to zero |
| SessionStores.SessionStore.GetRange | src/filter.rs:170-178 | lists exactly the entries of the snapshot in the range that the filter lets through, in order |
| SessionStores.SessionStore.GetFirst | src/filter.rs:116-131 | the least key the filter lets through, or the default identifier |
| SessionStores.FirstIsLeast | src/filter.rs:116-131 | the first key of a view is its least; an empty one has the all-zero identifier |
| SessionStores.SessionStore.GetFingerprint | src/filter.rs:150-164 | the fingerprint of the admitted entries of the range |
| SessionStores.SessionStore.GetRangeLen | src/ranger.rs:310-317 | the number of admitted entries in the range |
| SessionStores.SessionStore.InitialMessage | src/ranger.rs:240-246 | the opening message of a store holding only the admitted entries |
| SessionStores.SessionStore.FindStart | src/ranger.rs:506-514 | the loop finds the first entry that is not below the start of the range |
| SessionStores.SessionStore.PickPivot | src/ranger.rs:516-531 | a pivot taken from the listing at its offset from the start index is the pivot of the split |
| SessionStores.SessionStore.Cut | src/ranger.rs:501-570 | start index, pivots and the loops over them produce the pieces of the split |
| SessionStores.SessionStore.RespondFingerprint | src/ranger.rs:476-602 | the answer to one fingerprint part over the admitted entries |
| SessionStores.SessionStore.Difference | src/ranger.rs:413-430 | our entries in the range that the peer's do not make redundant |
| SessionStores.SessionStore.Ingest | src/ranger.rs:440-463 | accepted entries are put in order, refusals echoed for news only |
| SessionStores.SessionStore.ProcessMessage | src/ranger.rs:368-611 | a whole round: the answer computed from the admitted view, and the live store after ingest |
| SessionStores.FilterCommutes | src/filter.rs:229-250 | filtering and cutting out a range commute |
| SessionStores.FilterPreservesMeaning | src/filter.rs:80-178 | a filtered session reads, opens and answers every message as an unfiltered one over a store of the admitted entries |
| SessionStores.FilteredLikeNarrowed | src/filter.rs:80-250 | a filtered session and an unfiltered one over the admitted entries, side by side: same opening, same reply to any message, same live store after |
| Bounds.IncrementByOne | src/store/fs/bounds.rs:163-173 | the in-place reverse loop computes the increment and its overflow |
| Bounds.PrefixReach | src/store/fs/bounds.rs:18-46 | the keys between a prefix and its increment are those with the prefix, and exactly the stray keys of trailing 255 bytes |
| Tables.FlatOrder | src/sync.rs:1277-1315 | byte order of namespace, author and key in one string is the tuple order of the table |
| Tables.IncrementIsSuccessor | src/store/fs/bounds.rs:163-173 | at equal length the increment is the next string; without one there is no larger string |
| Tables.NamespaceReach | src/store/fs/bounds.rs:52-82 | namespace bounds hold exactly the namespace, the last one included |
| Tables.AuthorKeyReach | src/store/fs/bounds.rs:18-46 | author and key bounds hold exactly that author's reached keys, last author and namespace included |
| Tables.ByKeyReach | src/store/fs/bounds.rs:106-140 | index bounds hold exactly the namespace's reached keys |
| Tables.ExactBoundsExactly | src/store/fs/bounds.rs:163-173 | bounds reach only matching keys if and only if the prefix is empty, all 255, or does not end in 255 |
| Tables.StrayExample | src/store/fs/bounds.rs:163-173 | the prefix [1, 255] reaches the key [2] |
| Scan.GetRangeRefines | src/store/fs.rs:902-943 | the table scan yields exactly the namespace's entries in the wrap-around range, in order; foreign boundaries are refused |
| Scan.NamespaceViewSorted | src/store/fs.rs:902-943 | a namespace of the table is a sorted view of exactly its rows |
| Scan.NoRangeRefused | src/store/fs.rs:912-919 | in every run of a session over one namespace no range in flight is refused |
| FsStore.ReachableStore | src/store/fs.rs:984-1051 | after any run of puts, retractions and removals every record exceeds every live record at a proper non-empty prefix, and every record has its index row |
| FsStore.PutKeepsHierarchy | src/ranger.rs:626-655 | one put keeps the hierarchy |
| FsStore.LaterPutIsTaken | src/ranger.rs:648-655 | in every reachable store a put later than every live record at its key and above is taken and read back, whatever the hashes; an earlier one changes nothing |
| FsStore.RetractsOnlyThat | src/store/fs.rs:530-552 | a retraction removes that record and index row if not newer, and leaves every other record and row |
| FsStore.PutPrunes | src/store/fs.rs:984-1001 | a put deletes exactly the not larger records below its key, and the strays of its bounds |
| FsStore.PutPrunesOnlyBelow | src/store/fs.rs:984-1001 | over every reachable store: a put never deletes outside its prefix if and only if its key has exact bounds |
| FsStore.StrayDeleted | src/store/fs.rs:984-1001 | a put deletes an earlier one at any stray key of its bounds that is not larger |
| FsStore.StrayDeletedExample | src/store/fs.rs:984-1001 | put [2], then put [1, 255], and [2] is gone |
| FsStore.TakesMoreThanContract | src/store/fs.rs:1032-1051 | exactly when the store inserts what the contract would refuse |
| FsStore.TombstoneDoesNotBlock | src/store/fs.rs:1032-1051 | two runs of two puts after which both records are there, below a tombstone and below the empty key, though the contract refuses the second |
| FsStore.HeldIsNews | src/store/fs.rs:1032-1051 | in every reachable store a held entry counts as news if and only if it is a tombstone or at the empty key |
| FsStore.OpenReplicaStays | src/store/fs.rs:477-493 | from when a replica is loaded until it is closed it stays known, and removals have no effect, as if never asked for |
| FsStore.OpenIsKnown | src/store/fs.rs:366-387 | over every run an open replica is a known one |
| FsStore.LoadAndRemove | src/store/fs.rs:366-493 | after any run an imported replica can be loaded, and a closed one removed, leaving nothing of it and everything of the others |
| FsStore.Store.Parents | src/store/fs.rs:1032-1051 | the popping loop finds exactly the live records at non-empty prefixes, shortest first |
| FsStore.Store.WouldTake | src/ranger.rs:648-655 | true exactly if no live parent is at least as large |
| FsStore.Store.PutEntry | src/store/fs.rs:867-900 | the new tables after a put; nothing changes if it is refused |
| FsStore.Store.RetractEntry | src/store/fs.rs:530-552 | removes the record and its index row up to the given timestamp; every other record and row stays |
| FsStore.Store.Remove | src/store/fs.rs:477-493 | refused while the replica is open; otherwise every table loses exactly the namespace's rows |
| Refinement.FlatPrefix | src/sync.rs:1277-1315 | one flat identifier is a prefix of another exactly within one namespace and author |
| Refinement.PutRefines | src/ranger.rs:626-655 | one put through the tables equals the contract's put if and only if it is refused, or both take it and no stray is in reach, or it only rewrites what is there |
| Refinement.PlainRunsRefine | src/store/fs.rs:867-1051 | after any run of puts of live records with exact bounds the tables hold exactly the maximal entries of all that was put |
| Refinement.PlainPutsOrderIndependent | src/store/fs.rs:867-1051 | for such runs order and repetition do not matter |
| Refinement.LatestRecordWins | src/sync.rs:1376-1382 | after any run of plain puts the record of an identifier is the latest put there, by time and then hash, provided it is also later than every put of that author at a prefix |
| TableSessions.Simulates | src/store/fs.rs:902-1051 | over every run of plain puts the session between table-backed stores is the contract session, message by message and store by store |
| TableSessions.TablesConverge | src/ranger.rs:368-655 | once the session is over, within the round limit, the tables of each store hold exactly the maximal entries of its start, its writes and what it admits of the peer's view; no range in flight is refused by a scan, and each scan reads exactly its entries |
| TableSessions.TableReplicasAgree | src/ranger.rs:368-655 | two table-backed replicas of a document that show and accept everything end with the same records of it, whatever else they store |
| TableSessions.TableRowsExist | src/store/fs.rs:938-941 | every store has a snapshot of its rows in order |
| TableSessions.HeldEntryRefused | src/ranger.rs:451-461 | in every reachable store a held entry that is rejected is named in a refusal if and only if it is a tombstone or at the empty key |
| TableSessions.HeldTombstoneRefused | src/ranger.rs:451-461 | one put of a tombstone reaches a store that names what it holds |
| Queries.StagesAnswer | src/store/fs/query.rs:42-155 | from every indexed store, stale rows or not, the stages produce the selected records, once each, in order |
| Queries.ScannedRowsExist | src/store/fs/query.rs:42-88 | every store and query has the rows of its scan |
| Queries.ReachableStoreAnswers | src/store/fs/query.rs:42-155 | in particular from every reachable store |
| Queries.AnswerUnique | src/store/fs/query.rs:42-155 | there is only one such sequence |
| Queries.GetMany | src/store/fs.rs:496-503 | a query returns the one answer there is, with the offset skipped and the limit taken: what the query asks for, in the order it asks for |
| Queries.AnswerMeans | src/store/util.rs:20-42 | every answer in the query's own terms: authors, keys, latest per key, empties, sort order and direction, for exact bounds; the order for all |
| Queries.SelectedIsAskedFor | src/store/fs/query.rs:42-155 | the selected records are those the query asks for, read off the query alone |
| Queries.GroupedIsBest | src/store/util.rs:63-89 | grouping keeps exactly the latest entry at each key, the first in order on a tie |
| Queries.KeyFilterExact | src/store/fs/query.rs:43-74 | the keys answered are those the key filter matches, exactly for full record scans and exact bounds |
| Queries.GroupingIdleForOneAuthor | src/store/fs/query.rs:113-134 | with one author asked for, latest per key yields all of that author's records |
| Queries.AuthorFilterOrder | src/store.rs:279-280 | filtering before and after the grouping give one answer if and only if no shown record of the author asked for loses at its key to another author's |
| Queries.AuthorFilterDiffers | src/store/fs/query.rs:113-134 | two puts by two authors and a query that the two orders answer differently |
| Queries.QueryIterator.Push | src/store/util.rs:63-89 | what the selector emits and holds, for every continuation |
| Queries.QueryIterator.NextFiltered | src/store/fs/ranges.rs:49-68 | the next kept row, from the end the direction asks for |
| Queries.QueryIterator.Advance | src/store/fs/query.rs:98-144 | the next entry out of filter, grouping and emptiness stages |
| Queries.QueryIterator.Next | src/store/fs/query.rs:91-155 | yields the head of what remains and keeps the rest |
| Queries.QueryIterator.Collect | src/store/fs/query.rs:91-155 | draining yields all that remained |
| Transactions.BatchingRefines | src/store/fs.rs:175-315 | over every run the slot stands for one plain map, owned snapshots hold every earlier write and never change, and the committed data is the map at some earlier point, the latest after a flush or snapshot |
| Transactions.ReadsSeeWrites | src/store/fs.rs:226-315 | every read sees all earlier writes |
| Transactions.AgeCommits | src/store/fs.rs:283-297 | a read or write through an old transaction leaves everything written before it committed; through a young one it commits nothing |
| Transactions.CleanCommitsNothing | src/store/fs.rs:192-202 | dropping a transaction that was only read through loses nothing |
| Transactions.Store.FinishWrite | src/store/fs.rs:192-202 | a dirty transaction is committed, a clean one dropped |
| Transactions.Store.FlushStore | src/store/fs.rs:175-180 | the flush step |
| Transactions.Store.TakeSnapshot | src/store/fs.rs:226-244 | the snapshot step with its reused read transaction |
| Transactions.Store.TakeSnapshotOwned | src/store/fs.rs:253-260 | the owned snapshot step |
| Transactions.Store.CurrentWriteTransaction | src/store/fs.rs:283-297 | the open transaction while young, else a fresh one |
| Transactions.Store.Tables | src/store/fs.rs:272-279 | reading through the write transaction |
| Transactions.Store.ModifyTables | src/store/fs/tables.rs:112-118 | a change marks the transaction dirty |
| PeerSync.AtMostOneExchange | src/engine/state.rs:218-291 | from any pair at rest, over every run of triggers, crossing dials, deliveries and refusals until something finishes: at most one request is allowed, the low side's if it dialed, and with a quiet wire both slots agree on it |
| PeerSync.ExchangesNeverOverlap | src/engine/state.rs:189-291 | over every run of any number of exchanges, their ends finishing separately, dials failing or refused late, requests failing undecided: no request is allowed while an end still runs the one before, and the pair comes back to rest; under the two conditions that `LowFirstExact` and `UndecidedExact` show to be exact |
| PeerSync.LowFirstExact | src/engine/state.rs:189-291 | the low end can finish first without an overlap in any continuation if and only if the high end accepted and has no dial left on the wire |
| PeerSync.UndecidedExact | src/engine/live.rs:598-624 | a request can fail undecided without an overlap in any continuation if and only if it fails at the high end while that runs no exchange, or at an idle low end |
| PeerSync.OverlapAfterHalfFinish | src/engine/state.rs:189-216 | the low end finishes first and dials again: allowed while the high end still runs as dialer |
| PeerSync.OverlapByLateDial | src/engine/state.rs:250-271 | the low end finishes first and a crossing dial arrives late: allowed while the high end still runs as acceptor |
| PeerSync.OverlapAfterFailedRequest | src/engine/live.rs:598-624 | dials cross and the high side's fails undecided at the low end: an overlap can follow |
| PeerSync.ResyncExact | src/engine/state.rs:188-277 | a running slot finishes with a resync exactly if a sync report arrived since it last entered Running; an idle one reports nothing |
| PeerSync.SlotRunsLastEntered | src/engine/state.rs:188-277 | over every history the slot runs exactly what it last entered, with its time and origin, until it finishes or that very dial is aborted |
| PeerSync.NamespaceStates.Start | src/engine/state.rs:72-86 | starting a dial changes that pair's slot only |
| PeerSync.NamespaceStates.Abort | src/engine/state.rs:94-104 | aborting clears only the matching dial of that pair |
| PeerSync.NamespaceStates.Accept | src/engine/state.rs:109-119 | the accept decision, and the takeover of that pair's slot |
| PeerSync.NamespaceStates.End | src/engine/state.rs:128-137 | finishing idles that pair's slot and reports start and resync |
| PeerSync.NamespaceStates.Insert | src/engine/state.rs:65-67 | adds the namespace and keeps every slot |
| PeerSync.NamespaceStates.Remove | src/engine/state.rs:166-168 | drops that namespace's slots only |
| Registry.RegistrySafe | src/actor.rs:1239-1284 | over every run open replicas have handles, sessions' namespaces are open, ids are not reused and keep their snapshot |
| Registry.CloseNeverWraps | src/actor.rs:1422-1441 | the wrapping subtraction never wraps |
| Registry.OpenNeverOverflows | src/actor.rs:1411-1417 | there are never more handles than opens, so no run of fewer than 2^64 - 1 actions overflows the count |
| Registry.HandlesCount | src/actor.rs:1391-1441 | over every run handles go up by one with an open, down by one with a close, and a replica is open while it has some |
| Registry.SyncFlagChanges | src/actor.rs:1411-1417 | over every run the sync flag falls exactly by being set so, the last close or a shutdown, and rises exactly by an open with sync or by being set so |
| Registry.SessionRemoval | src/actor.rs:1239-1284 | a session with a live handle goes only with the last close of its replica or a shutdown; others only by release or sweep |
| Registry.AbandonedIsReclaimed | src/actor.rs:1235-1258 | a session that nothing references is gone for good from the next sweep on |
| Registry.UndeliveredIsReclaimed | src/actor.rs:1106-1132 | so is a session whose handle never reached the caller |
| Registry.ResolvesToOwnStart | src/actor.rs:1310-1328 | whatever happens later, a session id resolves to the data at its own start, for its own namespace, or not at all |
| Registry.Actor.OpenAt | src/actor.rs:1391-1420 | one step of the run: counts handles and joins the sync flag |
| Registry.Actor.Close | src/actor.rs:1266-1276 | one step of the run: takes one handle; the last one takes the replica and exactly its sessions along |
| Registry.Actor.Start | src/actor.rs:1106-1132 | one step of the run: while syncing, a new id that resolves to the data of this moment; all others resolve as before |
| Registry.Actor.End | src/actor.rs:994-1001 | one step of the run: the id no longer resolves, every other one as before; another actor's id changes nothing |
| Registry.Actor.Reclaim | src/actor.rs:1239-1256 | one step of the run: unreferenced ids no longer resolve, referenced ones as before |
| Registry.Actor.DropSession | src/actor.rs:317-327 | one step of the run: the session stays referenced exactly if its release was queued |
| Registry.Actor.AllowSync | src/actor.rs:1052-1056 | one step of the run: sets the flag of an open replica |
| Registry.Actor.CloseAll | src/actor.rs:1278-1284 | one step of the run: nothing open and no session left |
| Downloads.DownloadsAccounted | src/engine/live.rs:704-736 | over every run the indexes stay inverse, a raised flag means queued hashes, and ready events never outnumber finished syncs |
| Downloads.EventsExactly | src/engine/live.rs:704-820 | in every run each handled operation emits exactly these events: a reported finish once, a ready event with it if nothing is queued or later when the queue of a raised namespace drains, a content event per completed download |
| Downloads.FlagExactly | src/engine/state.rs:138-163 | in every run the flag is raised by a reported finish that leaves something queued, and falls exactly when the namespace leaves or its queue drains |
| Downloads.SyncingAndWanted | src/engine/live.rs:877-897 | a namespace is syncing from join to leave, and a wanted hash is parked |
| Downloads.QueueDownloadMeans | src/engine/live.rs:921-947 | exactly when a hash is queued for a namespace and when it is no longer parked |
| Downloads.StartAllMeans | src/engine/live.rs:653-683 | the same for the list of hashes that a finished sync starts |
| Downloads.SyncRetries | src/engine/live.rs:653-683 | in every run a successful sync queues again exactly what is parked for its namespace and not complete, and marks what is queued for it for a retry; a failed one does neither |
| Downloads.SettledMeans | src/engine/live.rs:787-812 | what the end of a download leaves queued, parked and marked for a retry |
| Downloads.ReadyWhileQueued | src/engine/live.rs:787-820 | in every run a ready event finds nothing queued for its namespace, except exactly after a failed download of that namespace that is queued again |
| Downloads.ReadyWhileQueuedRun | src/engine/live.rs:787-820 | a run that reports a namespace ready with its hash still queued |
| Downloads.WantedIsDropped | src/engine/live.rs:787-812 | in every run a wanted hash stays queued or parked for its namespace until its content is found complete, except exactly if it had joined a download of another namespace and that fails |
| Downloads.WantedIsDroppedRun | src/engine/live.rs:787-812 | a second namespace joins a download, which fails and forgets the hash for it |
| Downloads.InsertedMeans | src/engine/live.rs:1104-1107 | queueing adds exactly one pair to both indexes |
| Downloads.RemovedMeans | src/engine/live.rs:1112-1125 | removal drops exactly the pairs of the hash and completes exactly the emptied namespaces |
| Downloads.QueuedHashes.Insert | src/engine/live.rs:1104-1107 | the in-place form |
| Downloads.QueuedHashes.RemoveHash | src/engine/live.rs:1112-1125 | the loop form, with each completed namespace returned once |
| Downloads.SyncFinishedKeepsInv | src/engine/live.rs:704-736 | the handler keeps the bookkeeping invariant |
| Downloads.SettledKeepsInv | src/engine/live.rs:787-812 | so does the end of a download, up to the completed namespaces |
| Heads.JoinIsLeastUpperBound | src/heads.rs:57-61 | merging is a least upper bound |
| Heads.JoinCommutes | src/heads.rs:57-61 | merging commutes |
| Heads.JoinAssociates | src/heads.rs:57-61 | merging associates |
| Heads.MergeChangesIffNews | src/heads.rs:42-61 | a merge changes nothing exactly if there was no news, and leaves none |
| Heads.AuthorHeads.Insert | src/heads.rs:19-24 | keeps the later timestamp of the author |
| Heads.AuthorHeads.Merge | src/heads.rs:57-61 | the loop computes the join |
| Heads.AuthorHeads.HasNewsFor | src/heads.rs:42-54 | counts the authors with news |
| Heads.ByTimestamp | src/heads.rs:73-76 | one author per timestamp, the largest |
| Heads.Encode | src/heads.rs:72-90 | a newest-first list within the limit, complete or cut where the next item does not fit |
| Heads.DecodeEncoded | src/heads.rs:72-100 | decoding gives a part of the heads; what it leaves out is not newer than what it keeps, unless it shares a kept timestamp, for which the largest author is kept |
| Heads.DecodeMeans | src/heads.rs:93-100 | decoding any list keeps the latest timestamp listed for each author |
| Heads.DecodeComplete | src/heads.rs:93-100 | a complete list decodes to the heads exactly if timestamps are distinct |
| Peers.DistinctMeans | src/store/fs.rs:569-653 | the simple model lists each registered peer once |
| Peers.DistinctNewestFirst | src/store/fs.rs:656-668 | and lists them by last registration, the latest first |
| Peers.CapThenMove | src/store/fs.rs:569-653 | capping before or after moving the newest peer to the front makes no difference |
| Peers.TableShowsLast | src/store/fs.rs:569-653 | over every run of registrations with strictly increasing time the table shows the last five distinct peers, newest first |
| Peers.TableInOrder | src/store/fs.rs:569-653 | over every run, whatever the clock says: one row per peer, at most five, in table order, the last registration's among them |
| Peers.PeerTable.RegisterUsefulPeer | src/store/fs.rs:569-653 | one step of the run, whatever the clock says: exactly which rows stay; the listing stays current if and only if the new row comes after those that stay |
| Peers.ClockStepsBack | src/store/fs.rs:576-580 | a run of two registrations with a clock that steps back, listed the wrong way round |
| Peers.PeerTable.GetSyncPeers | src/store/fs.rs:656-668 | newest first, or none; after a run with increasing time the last five distinct peers |

## Left out

- Streams, framing, timeouts and the wire format (src/net.rs, src/net/codec.rs): only the alternation of messages is modelled.
- RPC and setup (src/api.rs, src/protocol.rs, src/engine.rs), gossip, dialing and the downloader: calls into other systems.
- Signatures, key parsing and BLAKE3: foreign cryptography, present as the verdict and the hash parameter.
- Content status of sent entries: it is carried along and decides nothing in the protocol.
- Storage errors: every table operation succeeds in the model.
- The `latest_per_author` table: it holds the last entry put and is only a hint.
- Migrations, tickets, metrics, capability merge, download policy matching: settled by reading one branch each.
- Registry.Actor.OpenAt: does not model overflow of the handle count, which takes 2^64 opens (`Registry.OpenNeverOverflows`).
- PeerSync.ExchangesNeverOverlap: leaves out runs that go against its two conditions; those can overlap.
- TableSessions.TablesConverge: is stated for plain puts; with tombstones, the empty key or prefixes ending in 255 the tables leave the contract (`Refinement.PutRefines`).
- Session.Convergence: is stated for contract stores and for two pieces per split, the default; for more pieces a split need not be a partition.
