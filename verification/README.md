# The leaderless cluster layer: model and proofs

This project models the cluster layer of the node software (`src/cluster`): equal nodes
replicate MySQL rows to each other without a coordinator, check each other's data, pair with
each other, introduce their peers and roll out updates node by node.

SQL tables are maps from row keys to rows with unique indexes and foreign keys; a transaction is
one step; hashes, MACs and derived keys are symbolic; the network delivers a message late,
repeatedly or never; the clock never runs backwards. Code that works in place is modelled by
classes and methods with loops, each proved equal to a specification function, and the promises of
the code are lemmas about these functions or invariants of a transition system.

| file | what it is about |
|---|---|
| `Versions.dfy` | the order of row versions and the version a local write gets |
| `Replication.dfy`, `Convergence.dfy`, `Settling.dfy`, `TieOnALine.dfy` | any number of nodes, links and writes: what every step keeps, what settled nodes hold, and where a tie hides a write |
| `FeedSamples.dfy`, `FeedCursor.dfy`, `Tombstones.dfy`, `HiddenDeletion.dfy` | the commit horizon, the stored feed position, pruning behind it, and what a tie hides from a reader |
| `RowStore.dfy`, `ApplyPackage.dfy`, `ParkAndSwap.dfy` | the database and three ways of applying received rows |
| `Duplicates.dfy` | two nodes that created rows with one unique value |
| `Processing.dfy`, `Groups.dfy` | one letter per received row, and why a group collected as closed passes its transaction |
| `Chunks.dfy`, `Delivery.dfy`, `Offers.dfy` | pushing in chunks; settled and unsettled entries; which offered rows are needed |
| `Transfer.dfy` | the complete transfer's walk over the version registry |
| `DataCheck.dfy` | the digest tree against a flat comparison |
| `Rollout.dfy`, `RolloutCluster.dfy` | one node's decision, and the rollout of all nodes on old knowledge |
| `Pairing.dfy`, `SlowConfirm.dfy` | two-node pairing with lost answers and restarts, and with an activation that takes its time |
| `Mesh.dfy` | introductions, until every node is linked with every other |
| `Introductions.dfy`, `Attempts.dfy`, `IntroductionRuns.dfy` | being introduced, by calls that may overlap with each other, with pairings and with what closes an entry |
| `Ranks.dfy` | foreign-key ranks on any graph of tables |
| `ClientHello.dfy` | the server name found in a TLS ClientHello |
| `ReplayWindow.dfy`, `Transcripts.dfy` | replay protection, and what a handshake transcript determines |

## Where the code does less than it says

Each of these is a lemma with a concrete run or input, beside the condition under which the promise
holds.

- The sender remembers a delivery by version number without the origin (`replicator.ts:159-160`).
  When two writes of a row tie on the number, a node behind another one can keep the losing write
  for good: `TieOnALine.Line.TieDisagrees`. The number of a row that was only skipped does the same:
  `TieOnALine.BothEnds.SkippedTieDisagrees`. A node ends with the greatest write unless that write
  is hidden from it; in a full mesh it never is.
- A row that is gone when it is to be sent is settled without being sent (`replicator.ts:355-361`).
  When the deletion that took it has the same number, the sender takes the deletion for sent as
  well. The peer stays below the greatest number for good (`TieOnALine.GoneRow.GoneRowStays`), and
  the deletion may be pruned before the peer has it (`HiddenDeletion.Example.TieHidesDeletion`).
  Rows whose greatest number no deletion shares with an ordinary write are safe:
  `Settling.SettledClusterHoldsGreatestVersion`, and `FeedCursor.CursorIsSafe` for one reader.
- Such a row is also settled when its record is locked by a writer (`replicator.ts:244-250`). If that
  write is undone, no deletion is ever recorded and the reader never hears of the row:
  `HiddenDeletion.Example.UndoneWriteHidesGoneRow`, the second exception of `FeedCursor.CursorIsSafe`.
- `applyPackage` finds out which rows exist before it deletes any (`applier.ts:329-373`). A row
  that goes with a deletion of the same package is then reported as applied without being stored:
  `ApplyPackage.CascadeExample`, and `ApplyPackage.FastRefinesCareful` for exactly when.
- `return false` in the middle of `applyGroup` (`applier.ts:423`) ends the transaction normally, so
  rows already parked stay parked: `ParkAndSwap.HalfParkedSwap`, and
  `ParkAndSwap.AllOrNothingUnlessParked` for exactly when.
- `readTransfer` takes fewer entries than it asked for as the end of a table
  (`replicator.ts:206-211`). A full page with an unreadable row hides the rest of its table:
  `Transfer.UnreadableRowHidesLaterRows`, exactly as `Transfer.MissedExactlyWhenTableIsLeftEarly`
  says.
- When the table of its saved position no longer exists, `readTransfer` looks for the next one by name,
  although the walk goes by dependency (`replicator.ts:189-194`). Tables can be left out:
  `Transfer.GoneTableEndsTheWalk`, exactly as `Transfer.LeftOutAfterGoneTable` says.
- `deliver` may announce that nothing is left although its last call is refused something
  (`replicator.ts:390-398`): `Delivery.RefusedSecondRow`, and `Delivery.Deliver` for exactly when.
- Checking in both directions does not make the compared records equal when one side no longer
  shows a deletion that is newer than the other side's record: `DataCheck.OldDeletionKeepsThemApart`,
  and `DataCheck.BothDirectionsAgree` for exactly when.
- A node that has no advert of an earlier one takes it for one updated by hand
  (`updates.ts:302`): `RolloutCluster.UnheardNodesUpdateTogether`.
- A joiner whose window expires while its confirmation is under way, or who loses both the answer
  and the session that would replace it, can never become active again under that entry:
  `Pairing.ExpiryStrandsTheJoiner`, `Pairing.LostSessionStrandsTheJoiner`, and
  `Pairing.LostAnswerIsRecoveredWhileConfirming` for exactly when.
- Activating the host's entry takes several writes, and the exchange they belong to may end meanwhile
  (`pairing.ts:279-290`). Then two nodes can be active with different keys
  (`SlowConfirm.LateWriteParts`); they agree as long as each exchange still waits when its writes are
  over (`SlowConfirm.SlowPairingAgrees`).
- Expired or locked attempts are meant to give way to the next introduction (`mesh.ts:107-108`). Closing
  a hosting entry wipes the name it is found by (`store.ts:245`), so it stays:
  `IntroductionRuns.ExpiredAttemptStays`, and `Attempts.GivesWayExactly` for exactly when one gives way.
- Nothing keeps two introductions to one node apart between their check and their creation
  (`mesh.ts:100-150`): on the hosting side two open entries can come up (`IntroductionRuns.TwoAtOnce`),
  on the joining side not (`Introductions.OneJoiningAttempt`). Nor does activating look at the entry's
  status, so a late confirmation gives a link beside an open attempt
  (`IntroductionRuns.LateLinkBesideAttempt`). Without either there is at most one:
  `Attempts.OneLiveWithoutOverlap`.
- A link that comes up after a call has read its entry is deleted by that call
  (`IntroductionRuns.LateLinkIsDropped`), and a pairing deletes every other entry with the node's id, a
  switched-off one included (`pairing.ts:158-164`, `IntroductionRuns.SwitchedOffLinkGoes`):
  `Attempts.GoesExactlyWhenMarked` says exactly when, `Attempts.DecisionStands` that nothing else does.

## Model

| member | source | states |
|---|---|---|
| Versions.CompareVersionsIsTotalOrder | src/cluster/codec.ts:136-147 | the greater number is later, and of equal numbers the greater origin; comparing is antisymmetric, 0 only for equal versions, and transitive: all nodes agree on the later of two writes |
| Versions.NewerMeans | src/cluster/codec.ts:142-147 | what is missing is replaced, otherwise exactly what has the greater number, or the greater origin under the same number |
| Versions.NextVersion | src/cluster/sqlgen.ts:90-98 | a local write's version lies above the one the row had and is never below the clock |
| Convergence.WriteTagIsFresh | src/cluster/sqlgen.ts:90-98 | a local write's version was carried by no earlier write of the row anywhere and beats what its node held |
| Convergence.TagsOnlyGrow | src/cluster/applier.ts:283-304 | no step of any kind lowers the version a node holds for any row |
| Convergence.DeliverKeepsInv | src/cluster/applier.ts:283-304 | a delivery, however late, repeated or overtaken, keeps every node's content that of some write at least as new as its version |
| Convergence.AdvanceKeepsInv | src/cluster/replicator.ts:146-174 | moving a cursor past rows skipped for their origin or the peer they came from, or recognised by a remembered number, leaves nothing behind it that the peer lacks, unless under that number |
| Convergence.SkipKeepsInv | src/cluster/replicator.ts:162-164 | a row skipped as the peer's own is held there, so remembering its number as sent is true |
| Convergence.VanishKeepsInv | src/cluster/replicator.ts:355-361 | an entry settled because its row is gone is below a deletion the sender itself reached |
| Convergence.StepKeepsInv | src/cluster/replicator.ts:325-372 | writes, feed reads, rows skipped and remembered, content loaded after the version was read, rows gone by then, deliveries, refusals, cursor moves, forgotten deliveries and restarts keep the cluster's invariant |
| Convergence.RunKeepsInv | src/cluster/replicator.ts:298-402 | the invariant holds after any sequence of steps of any number of nodes |
| Settling.SettledClusterHoldsGreatestVersion | src/cluster/replicator.ts:146-174 | when no link of a connected cluster has anything left, every node holds every row ever written under the greatest version number any write gave it, unless under that number a deletion beats an ordinary write |
| Settling.SettledNodeHoldsGreatestWrite | src/cluster/applier.ts:283-304 | such a node holds the version and the content of the greatest write, unless a tie on the number hides that write from it |
| Settling.SettledMeshAgrees | src/cluster/codec.ts:136-147 | with every two nodes linked, all nodes end with identical versions and content, ties included |
| TieOnALine.Line.TieDisagrees | src/cluster/replicator.ts:159-160 | three nodes on a line and two writes that tie on the number: a run from empty nodes ends settled with two nodes disagreeing for good |
| TieOnALine.GoneRow.GoneRowStays | src/cluster/replicator.ts:355-361 | a row gone before it was sent and a deletion under its number: a run from empty nodes ends settled with one node below the greatest number and keeping the row |
| TieOnALine.BothEnds.SkippedTieDisagrees | src/cluster/replicator.ts:162-164 | writes at both ends of a line that tie on the number: the middle node only skips the first for its writer, and yet never offers it the other |
| FeedSamples.StableIsNewestOldEnough | src/cluster/replicator.ts:100-110 | the stable position is that of the newest sample at least one horizon old, or the start-up position |
| FeedSamples.FeedHeads.NoteFeedHead | src/cluster/replicator.ts:90-97 | skipping repeats and dropping old samples keeps every stable position, now and later, that of the full history |
| FeedSamples.FeedHeads.StableFeedPosition | src/cluster/replicator.ts:100-110 | the loop over the kept samples gives the stable position of the full history |
| FeedCursor.FeedProgress.NextFeedBatch | src/cluster/replicator.ts:146-174 | sorts the rows read into those to deliver and those the peer has, with the highest position seen |
| FeedCursor.FeedProgress.Remember | src/cluster/replicator.ts:413-422 | notes exactly the given rows with version and position, later rows winning |
| FeedCursor.FeedProgress.SendFeedBatch | src/cluster/replicator.ts:463-473 | after a delivery reading goes on before every unsettled row, and just before one of them if it had passed it; settled and skipped rows are remembered, the last of each row winning; nothing else changes |
| FeedCursor.UnsettledIsReadAgain | src/cluster/replicator.ts:466-470 | an unsettled row that is still the row's record is part of every complete answer to the next read |
| FeedCursor.FeedProgress.MoveCursor | src/cluster/replicator.ts:424-433 | the cursor only moves up, and what lies at or below it is forgotten |
| FeedCursor.FeedProgress.BeginSweep | src/cluster/replicator.ts:476-479 | a sweep starts at the cursor and fixes the stable position and the reading position of its start |
| FeedCursor.FeedProgress.FinishSweepStep | src/cluster/replicator.ts:484-491 | a sweep continues while its batch was cut short below its end, else moves the cursor to the lower of its stable and end positions |
| FeedCursor.EntriesAndSkipped | src/cluster/replicator.ts:153-171 | a readable row is delivered, skipped as the peer's own, or recognised as sent: exactly one of the three |
| FeedCursor.StableIsBelowOpen | src/cluster/replicator.ts:81-110 | every transaction still open has a position above the stable one, if none stays open longer than the horizon |
| FeedCursor.SweepBatchIsPassed | src/cluster/replicator.ts:476-491 | after a sweep's batch was settled, every committed change in the stable part it covered is taken, declined, provided by the peer, gone, or under the number of one that is |
| FeedCursor.StepKeepsInv | src/cluster/replicator.ts:463-491 | commits, aborts, reads, sweeps, failed and rejected deliveries, rows gone before they are sent, restarts and pruning keep the cursor invariant |
| FeedCursor.CursorIsSafe | src/cluster/replicator.ts:404-433 | in every run no uncommitted change lies at or below the stored cursor, and every committed readable one there was taken or declined by the peer, came from it, or was left to the complete transfer, unless it ties on the number with an earlier record of its row or its row is gone without a trace |
| FeedCursor.CursorOnlyRises | src/cluster/replicator.ts:424-433 | only switching a link on anew lowers its cursor |
| FeedCursor.TombstoneOutlivesReader | src/cluster/capture.ts:254-275 | a deletion recorded since the link was switched on is pruned only after the peer took or declined it, unless it ties on the number with an earlier record of its row |
| HiddenDeletion.Example.TieHidesDeletion | src/cluster/replicator.ts:355-361 | such a tie: a run ends with a deletion that may be pruned and that the peer never saw |
| HiddenDeletion.Example.UndoneWriteHidesGoneRow | src/cluster/replicator.ts:242-259 | a row found missing while its record is locked by a write that is undone: a run ends with the record behind the cursor, unknown to the peer and without an earlier one to blame |
| Tombstones.PruneTombstones | src/cluster/capture.ts:254-275 | removes at most a chunk of records, only old deletions outside kept tables that every active peer's cursor has passed, nothing else changes, and it removes nothing only when no unlocked record may go |
| Tombstones.RemovedRecordsReachedEveryReader | src/cluster/capture.ts:251-259 | a removed deletion was taken or declined by every active peer whose present span it belongs to, each peer having had a run of its own, unless for that peer it ties on the number with an earlier record of its row |
| RowStore.DependentsAreClosed | src/cluster/replicator.ts:238-241 | a deletion takes every row that depends on a deleted one |
| RowStore.DeleteRemoves | src/cluster/sqlgen.ts:233-235 | a deletion takes the row and the least set of rows that have to go with it, empties what referred to them, and leaves the rest |
| RowStore.PutKeepsConstraints | src/cluster/applier.ts:198-213 | storing a row that collides with nothing and has its parents keeps unique values unique and every parent present |
| RowStore.DeleteKeepsConstraints | src/cluster/sqlgen.ts:233-235 | so does a deletion with its cascades and cleared references |
| RowStore.WriteRowKeepsConstraints | src/cluster/applier.ts:259-274 | no write of a received change breaks a constraint |
| ApplyPackage.Store.AttemptWithin | src/cluster/applier.ts:283-304 | one change in its own transaction: stale exactly if not newer, held exactly if newer and impossible to store, both with nothing changed; else stored with the received content, or deleted with its dependents, under its version and sender |
| ApplyPackage.StepStores | src/cluster/applier.ts:345-367 | the same of one change within a package, given what was found out about the row, and exactly when the package falls back |
| ApplyPackage.CarefulShows | src/cluster/applier.ts:283-304 | on the careful path every applied row is there with its received content, every applied deletion's row is not |
| ApplyPackage.Store.ApplyPackage | src/cluster/applier.ts:329-373 | all changes of a package or none; every row it answers as applied holds the received content, unless it went with a deletion of the package or has only a key; it gives up exactly when a row is locked or a write fails |
| ApplyPackage.FastRefinesCareful | src/cluster/applier.ts:329-373 | a successful package leaves tables, registry and letters exactly as the careful path item by item, if and only if no deletion of the package took a row it also stores |
| ApplyPackage.AnswersMatchRegistry | src/cluster/applier.ts:283-304 | an applied row is registered at its received version and sender, a stale one was at least as new, a held one kept its version |
| ApplyPackage.CascadeExample | src/cluster/applier.ts:345-360 | a package deleting a parent and storing its child succeeds and loses the child |
| ParkAndSwap.ParkingColumnIsFirst | src/cluster/applier.ts:397-405 | the column parked is the index's first that is neither of the key nor a reference and has throw-away values; none only if there is none |
| ParkAndSwap.ParkOne | src/cluster/applier.ts:412-427 | parks a row index by index: all parked, stopped at an index without a usable column, or a failed statement |
| ParkAndSwap.ApplyGroup | src/cluster/applier.ts:396-441 | the transaction's loops end with the group's specified result: applied, rolled back, or returned with what was parked |
| ParkAndSwap.AppliedGroupIsExact | src/cluster/applier.ts:396-441 | an applied group gives each member exactly its received row and version and touches nothing else, so no throw-away value remains |
| ParkAndSwap.ParkRowWorks | src/cluster/applier.ts:412-427 | with unused throw-away values every parking statement of a row keeps all constraints, and each of its indexes ends parked |
| ParkAndSwap.ClosedGroupIsApplied | src/cluster/applier.ts:396-441 | a closed group of current changes with fitting final values, unused throw-away values and parkable indexes is applied: none of its statements fails |
| ParkAndSwap.AllOrNothingUnlessParked | src/cluster/applier.ts:421-424 | the group is applied or nothing changed, if and only if the transaction does not return after parking a first index |
| ParkAndSwap.HalfParkedSwap | src/cluster/applier.ts:421-424 | two rows that exchange a value, with a second unique column that cannot be parked: the first keeps the throw-away value and the group is not applied |
| Duplicates.VerdictIsTheSameOnBothNodes | src/cluster/applier.ts:472-485 | seen from the two nodes, the same row wins: the one created earlier if both times are known and differ, else the one with the smaller key hash |
| Duplicates.StepKeepsInv | src/cluster/applier.ts:543-571 | receptions and resolutions in any order keep the winner alive and any recorded deletion above the loser's version and on its way |
| Duplicates.DuplicateConverges | src/cluster/applier.ts:543-571 | once every message has arrived, both nodes hold the winner under its own version and the loser deleted under one common version above its old one |
| Duplicates.EarlierRowSurvives | src/cluster/applier.ts:472-571 | once every message has arrived, the row created earlier (or with the smaller key hash) lives on both nodes and the other is deleted on both, one version above its old one |
| Duplicates.EveryChangeClimbs | src/cluster/applier.ts:543-571 | every change of what a node stores climbs a bounded scale, so resolutions cannot go back and forth |
| Duplicates.AlwaysResolvable | src/cluster/applier.ts:543-571 | from every state a run can reach, at most sixteen further steps bring both nodes to the verdict: whatever is outstanding moves something |
| Processing.SortedIsSorted | src/cluster/applier.ts:650-655 | deletions by falling rank come before rows by rising rank |
| Processing.SentAt | src/cluster/applier.ts:844-848 | a row's slot is its place behind the rows of earlier batches and those before it in its own |
| Processing.Pass.FirstTurn | src/cluster/applier.ts:678-699 | a first attempt puts an item in exactly one place: answered, waiting, or colliding |
| Processing.Pass.RetryWaiting | src/cluster/applier.ts:703-714 | a retried item moves to exactly one other place or stays, and the others stay |
| Processing.Pass.FollowMember | src/cluster/applier.ts:743-765 | a member's unique indexes one by one: every row in its way is, or becomes, a member, up to one that nothing of this pass will move |
| Processing.Pass.CollectGroup | src/cluster/applier.ts:739-766 | a group holds distinct unanswered colliding rows of one table; it is closed when every row in a member's way is a member, else the blocker stays; collecting it ends |
| Processing.Pass.SecondTurn | src/cluster/applier.ts:721-795 | a colliding item is answered by retry, group or verdict, or waits; if it goes on colliding, a row that stays is in some member's way, or its group was tried in vain, or nothing else was found |
| Processing.ProcessItems | src/cluster/applier.ts:645-820 | every item gets exactly one letter, decided by what was answered for it: applied if and only if some transaction stored it; stale if found so, or if it waits for its parent and the sender has nothing more; rejected if its attempt in turn was refused; otherwise set aside. Items put off for a parent or a race were tried again; a package that passed gives its own letters |
| Groups.CollectedGroupIsApplied | src/cluster/applier.ts:739-777 | a group collected as closed, of current rows that do not clash with each other and have their parents, is applied by its transaction |
| Processing.ApplyPush | src/cluster/applier.ts:839-868 | one letter per row sent, in the order sent: the item's own letter, or rejected when no item could be made of it |
| Delivery.Offer | src/cluster/replicator.ts:305-319 | asking in chunks parts the offered entries into those the peer wants and the others, in order |
| Delivery.SortRestoresReadOrder | src/cluster/replicator.ts:321-323 | sorting by reading position puts what is sent at once and what the peer wanted back into the order they were read in |
| Chunks.NextChunk | src/cluster/replicator.ts:382-389 | the loop ends a chunk where the specified cutting does |
| Chunks.ChunksHoldTheRows | src/cluster/replicator.ts:379-389 | the chunks join to the outgoing rows, and each fits the limit or is a single row |
| Chunks.ChunkCouldNotTakeMore | src/cluster/replicator.ts:384-387 | no chunk but the last could have taken one more row |
| Chunks.PushAll | src/cluster/replicator.ts:379-400 | pushes exactly these chunks, and every row goes to one side by its letter |
| Delivery.Deliver | src/cluster/replicator.ts:298-402 | of the entries that are not offered first or are wanted, exactly those that cannot be encoded, are too large or are refused stay unsettled; a missing row is settled; every other one is pushed once, under its size, in the order of the batch, in chunks that fit or hold one row; settled and unsettled are the given entries; nothing left is announced although something is unsettled exactly when only the last chunk is refused something |
| Chunks.AnnouncedTooEarly | src/cluster/replicator.ts:390-398 | pushing ends with the announcement and something left exactly when nothing stayed behind before, no row before the last chunk is refused and some row of it is |
| Delivery.RefusedSecondRow | src/cluster/replicator.ts:390-398 | two deletions in one message, the second refused: an input where that happens |
| Offers.WantedFromOffer | src/cluster/applier.ts:871-899 | looking the registry up by table and in chunks, the answer lists in order exactly the offered rows of known tables that are missing or newer |
| Transfer.ReadTransfer | src/cluster/replicator.ts:185-216 | the loop over tables and pages gives the specified stretch and next position, from any saved position |
| Transfer.StretchIsRange | src/cluster/replicator.ts:199-215 | with readable rows a stretch holds exactly the records between its start and the position it returns |
| Transfer.StretchIsOrdered | src/cluster/replicator.ts:199-215 | a stretch is in table and key order, within the limit, and full unless the walk ends |
| Transfer.FinishedWalkYieldsEverythingOnce | src/cluster/replicator.ts:523-542 | a finished walk yields every record that existed throughout exactly once, for every limit and whatever else changed meanwhile |
| Transfer.ParentsFirst | src/cluster/replicator.ts:183-186 | records of a walk come by table, parents first, and by key, across all its calls |
| Transfer.WalkEnds | src/cluster/replicator.ts:523-542 | on a registry that does not change the walk ends, the calls bounded by the records left over the limit |
| Transfer.MissedExactlyWhenTableIsLeftEarly | src/cluster/replicator.ts:206-211 | a stretch leaves out a readable record if and only if it follows a full page of its table that contains an unreadable row |
| Transfer.UnreadableRowHidesLaterRows | src/cluster/replicator.ts:206-211 | three rows, the first unreadable, two a page: the last is never sent |
| Transfer.LeftOutAfterGoneTable | src/cluster/replicator.ts:189-194 | when the position's table no longer exists, the rest of the walk holds a record if and only if its table or one before it has a greater name than the one that is gone |
| Transfer.GoneTableEndsTheWalk | src/cluster/replicator.ts:189-194 | tables a, m, b in dependency order and the walk inside m: once m is gone the walk ends without b |
| DataCheck.CompareRows | src/cluster/verify.ts:100-109 | a leaf comparison finds exactly the rows that are newer here |
| DataCheck.Descend | src/cluster/verify.ts:111-125 | descending by summaries finds exactly what a flat comparison below the prefix finds, and ends |
| DataCheck.VerifyPeer | src/cluster/verify.ts:128-148 | a whole check offers exactly the records shown here, being no old deletions, for which the other side shows none or one that is not as new |
| DataCheck.EqualRegistriesOfferNothing | src/cluster/verify.ts:98-98 | equal records cause no offers |
| DataCheck.BothDirectionsAgree | src/cluster/verify.ts:18-21 | checking in both directions leaves the kept records equal, if and only if no record is older than a deletion the other side leaves out |
| DataCheck.OldDeletionKeepsThemApart | src/cluster/verify.ts:18-21 | a row on one side and its newer deletion below the floor on the other: the row is offered, refused, and the compared records stay different |
| Rollout.RolloutOrderSorts | src/cluster/rollout.ts:102-105 | the order holds exactly the given nodes, sorted by rank and id |
| Rollout.EveryNodeFindsTheSameOrder | src/cluster/rollout.ts:102-105 | nodes that list the same ids in any order compute the same rollout order |
| Rollout.DecideRollout | src/cluster/rollout.ts:109-141 | the loop gives every node's listed state and the node's action as specified from the first node that holds others up |
| Rollout.FirstHoldUpIsFirst | src/cluster/rollout.ts:114-127 | the node waited for is the first in the order that failed, is updating or could update, and none when there is none |
| Rollout.ActionMeans | src/cluster/rollout.ts:109-141 | a node does nothing when done or updating, is manual or failed by its own state, and else updates, waits or is blocked by the first node that is not through |
| Rollout.ListedMeans | src/cluster/rollout.ts:114-127 | a node is listed by its own state, but as waiting if it could update and one before it is not through |
| Rollout.UpdatesExactlyWhenNext | src/cluster/rollout.ts:128-140 | an online node updates exactly when it could and every earlier one is done, updated by hand or offline for too long |
| RolloutCluster.StartNeedsEarlierDone | src/cluster/updates.ts:283-310 | a node starting on arbitrarily old adverts has every earlier self-updating node truly done or passed over |
| RolloutCluster.DoneStays | src/cluster/updates.ts:411-439 | finished nodes stay finished, and a status changes only in its node's own step |
| RolloutCluster.StepKeepsInv | src/cluster/updates.ts:373-439 | starts, finishes, failures, restarts, retries and deployments by hand keep the rollout invariant |
| RolloutCluster.OnlyOneUpdates | src/cluster/rollout.ts:107-141 | in every run two nodes update at once only if the later one passed the earlier one over |
| RolloutCluster.FailureStopsTheRollout | src/cluster/updates.ts:247-276 | after a failure no later node starts before the failure is cleared, unless it passed the failed node over |
| RolloutCluster.NeverStuck | src/cluster/rollout.ts:109-141 | without failures, while somebody is not done, somebody is updating or starts on fresh adverts |
| RolloutCluster.EveryRolloutCompletes | src/cluster/updates.ts:411-439 | every run of starts and finishes, whatever the nodes knew, has at most two steps for each node left, and where nobody updates or starts on fresh adverts all of them are done |
| RolloutCluster.RolloutCompletes | src/cluster/updates.ts:411-439 | such a run to the end exists from every state without a failure |
| RolloutCluster.UnheardNodesUpdateTogether | src/cluster/updates.ts:299-307 | two nodes, the second without an advert of the first: both update at once |
| Pairing.Host.HandlePairConfirm | src/cluster/pairing.ts:259-294 | a confirmation of the waiting exchange activates the entry with its key, any other ends the exchange |
| Pairing.EndedExchangeNeverReturns | src/cluster/pairing.ts:236-256 | every answered request makes a fresh key: an exchange that ended or was replaced is never waited for again |
| Pairing.Joiner.ConfirmStep | src/cluster/pairing.ts:352-373 | the joiner becomes active on a completion or on a working session, starts over when the host no longer knows the exchange, and keeps it otherwise |
| Pairing.StepKeepsInv | src/cluster/pairing.ts:236-294 | requests, answers and confirmations lost, repeated or late, restarts of either side, expiry on either side with a confirmation under way, and foreign confirmations keep the pairing invariant |
| Pairing.PairingAgrees | src/cluster/pairing.ts:453-479 | in every run the joiner is active only with the host active under the same key, the host only under a key the joiner had stored, and no two keys are ever active |
| Pairing.HostActivatesWithTheLiveKey | src/cluster/pairing.ts:259-294 | the host turns active only with the one live key, which the joiner stores or is confirming unless its own entry was closed meanwhile |
| Pairing.JoinerActivatesAfterTheHost | src/cluster/pairing.ts:352-373 | the joiner turns active only after the host did, with the same key, and out of a confirmation under way |
| Pairing.ActiveHostKeepsItsKey | src/cluster/store.ts:196-234 | an active host's key is never replaced, although activation does not look at the status |
| Pairing.LostAnswerIsRecoveredWhileConfirming | src/cluster/pairing.ts:358-368 | with the host active, the joiner can become active if and only if a confirmation is under way or its open entry still stores the exchange |
| Pairing.StrandedForever | src/cluster/pairing.ts:366-370 | with the host active, a joiner that neither confirms nor will confirm never becomes active |
| Pairing.ExpiryStrandsTheJoiner | src/cluster/store.ts:264-271 | a run from the beginning in which the joiner's window expires while its confirmation is under way, and it is stranded |
| Pairing.LostSessionStrandsTheJoiner | src/cluster/pairing.ts:358-370 | a run from the beginning in which the answer and the session are lost, the joiner starts over, and it is stranded |
| SlowConfirm.SlowPairingAgrees | src/cluster/pairing.ts:279-290 | with activation and what may happen during it as separate steps, the joiner is active only with the host active under the same key, as long as each exchange still waits, or is active, when its writes are over |
| SlowConfirm.LateWriteParts | src/cluster/pairing.ts:279-290 | a run in which the writes outlast their exchange and a second one: both sides active with different keys |
| Mesh.MeshNode.MeshTick | src/cluster/mesh.ts:47-92 | one round's nested loops introduce the specified pairs in order and note the time of exactly those |
| Mesh.RoundIsExact | src/cluster/mesh.ts:47-67 | a whole round introduces exactly the pairs of reachable peers, the smaller id first, that are neither linked, pairing nor refused from either side, were not introduced lately, and have no common neighbour with a smaller id than this node |
| Mesh.NothingTwice | src/cluster/mesh.ts:53-67 | a round introduces no pair twice |
| Mesh.ExactlyOneIntroducer | src/cluster/mesh.ts:62-65 | two unlinked nodes have exactly one introducer if they have a common neighbour, and none otherwise |
| Mesh.UnlinkedPairWithCommonNeighbour | src/cluster/mesh.ts:14-20 | in a connected graph an unlinked pair gives one with a common neighbour |
| Mesh.MeshCompletes | src/cluster/mesh.ts:14-20 | every run of introductions in a connected graph is no longer than the links missing, and it is at its end exactly when the graph is complete |
| Introductions.Peers.HandleIntroduce | src/cluster/mesh.ts:95-151 | the answer for each state of the entries naming the other node: linked, refused and busy ones stay untouched, expired ones give way to exactly one open entry |
| Introductions.OneLinkPerNode | src/cluster/pairing.ts:156-164 | in every run of overlapping introductions, pairings, closings and deletions no node has two active entries |
| Introductions.OneJoiningAttempt | src/cluster/store.ts:154-164 | nor are there ever two joining entries made for one node |
| Attempts.GivesWayExactly | src/cluster/mesh.ts:100-108 | with introductions to a node one at a time, the next one finds an earlier attempt if and only if it has the node's id or still waits |
| Attempts.ForgottenStays | src/cluster/store.ts:238-248 | a closed attempt without a node id that nothing under way concerns stays until a person deletes it |
| Attempts.OneLiveWithoutOverlap | src/cluster/mesh.ts:100-150 | with introductions to a node one at a time and no exchange ending in an attempt closed meanwhile, at most one link or open pairing made for the node exists |
| Attempts.DecisionStands | src/cluster/mesh.ts:102-108 | a link, or one a person switched off or removed, is neither deleted nor changed by introductions, overlapping or not, unless a call had read the entry or an exchange with its node is under way or begins |
| Attempts.GoesExactlyWhenMarked | src/cluster/pairing.ts:158-164 | a step that does not concern the entry itself can delete it if and only if a call has read it or an exchange with its node is under way through another entry |
| IntroductionRuns.ExpiredAttemptStays | src/cluster/store.ts:238-248 | a run with introductions one at a time: an expired hosting attempt stays beside the next one |
| IntroductionRuns.TwoAtOnce | src/cluster/mesh.ts:138-150 | two introductions to the hosting side that both make their check first leave two open entries for one node |
| IntroductionRuns.LateLinkIsDropped | src/cluster/mesh.ts:105-108 | a link that comes up between the check that found its window closed and the deletion is deleted while it is active |
| IntroductionRuns.LateLinkBesideAttempt | src/cluster/store.ts:196-234 | a confirmation arriving after its attempt was closed and the node introduced again: a link and an open attempt |
| IntroductionRuns.SwitchedOffLinkGoes | src/cluster/pairing.ts:158-164 | a link that was switched off is deleted when its node pairs through a second entry, although no call had read it |
| Ranks.CollectParents | src/cluster/catalog.ts:162-171 | a table's parents are exactly the other replicated tables its foreign keys refer to, each once |
| Ranks.Catalog.RankOf | src/cluster/catalog.ts:172-184 | the recursive search ends on every graph, changes no final rank and makes the rank of the table it visits final |
| Ranks.Catalog.RankAll | src/cluster/catalog.ts:185-185 | afterwards every rank is final |
| Ranks.ParentsRankLower | src/cluster/catalog.ts:172-184 | a foreign key that lies on no cycle leads to a strictly lower rank, whatever cycles the rest of the graph has |
| Ranks.ChainsAreNoLonger | src/cluster/catalog.ts:172-184 | without cycles no chain of parents is longer than the rank |
| Ranks.SomeChainIsAsLong | src/cluster/catalog.ts:172-184 | and some chain is exactly as long |
| Ranks.ParentsComeFirst | src/cluster/catalog.ts:186-186 | in the rank order a parent precedes its child unless their key lies on a cycle |
| Ranks.OrderedIsTopological | src/cluster/catalog.ts:186-186 | the rank order lists all parents first if and only if no foreign keys form a cycle |
| ClientHello.ReadServerName | src/cluster/relayProtocol.ts:141-190 | the reader stays within its buffer and gives the specified verdict |
| ClientHello.HeaderDecides | src/cluster/relayProtocol.ts:141-152 | exactly when more bytes are needed, what in the first bytes makes the hello invalid, and that a name found is a valid one |
| ClientHello.LengthsThatDoNotFit | src/cluster/relayProtocol.ts:166-189 | which lengths that do not fit are errors and which end the search without a name |
| ClientHello.ServerNameMeans | src/cluster/endpoints.ts:26-32 | a name is taken exactly if it has at most 253 bytes, consists of letters, digits, hyphens and dots with letters or digits at both ends and around every dot, has a dot in any 64 bytes, and is no address |
| ClientHello.VerdictIsFinal | src/cluster/relayProtocol.ts:139-150 | once it is not "more", further bytes do not change the verdict |
| ClientHello.PrintedHelloIsRead | src/cluster/relayProtocol.ts:141-190 | of every well-formed single-record hello, whatever follows, exactly the first host name printed is judged |
| ClientHello.HostNameComesBack | src/cluster/relayProtocol.ts:166-186 | a valid lower-case host name comes back unchanged, behind any other extensions and name entries |
| ClientHello.BeginningsAskForMore | src/cluster/relayProtocol.ts:141-147 | every proper beginning of a well-formed hello asks for more |
| ReplayWindow.ReplayWindow.Accept | src/cluster/crypto.ts:386-399 | accepts exactly the counters that are not negative, above the highest accepted less the size, and never accepted before; remembers at most twice the size |
| ReplayWindow.NothingAcceptedTwice | src/cluster/crypto.ts:372-376 | in any sequence of calls no counter is accepted twice |
| ReplayWindow.AcceptAll | src/cluster/crypto.ts:372-399 | the calls of a session, made on one object that forgets, are answered as the full history says, and none twice |
| ReplayWindow.NearlyOrderedTrafficPasses | src/cluster/crypto.ts:372-376 | new counters that arrive less than a window out of order are all accepted |
| Transcripts.EncodeFields | src/cluster/crypto.ts:86-95 | the loop gives the encoding with every field behind its length |
| Transcripts.EncodingIsInjective | src/cluster/crypto.ts:84-95 | no two different lists of fields below 2^32 bytes encode alike |
| Transcripts.PairTranscriptDeterminesAll | src/cluster/crypto.ts:245-269 | two pairing transcripts are equal exactly when every field of both messages and the bound certificates are |
| Transcripts.SessionTranscriptDeterminesAll | src/cluster/crypto.ts:294-304 | so are session transcripts |
| Transcripts.PairAndSessionNeverMeet | src/cluster/crypto.ts:245-304 | no pairing transcript is a session transcript |

## Left out

- Settling.SettledNodeHoldsGreatestWrite: goes one way only; a write hidden by a tie may still arrive through another order of deliveries, so no condition on the final links and writes decides it.
- Convergence.StepKeepsInv: a complete transfer is a cursor that starts at the beginning; pruning, rows that vanish without any recorded deletion, repaired feed orders and database restores are not steps of this machine.
- Settling.SettledClusterHoldsGreatestVersion: the condition is that no deletion beats an ordinary write under the greatest number; whether the tie really hides something depends on the order of the run.
- FeedCursor.CursorIsSafe: records whose key cannot be read are passed without delivery, as in the code; the complete transfer that covers what lies below the starting position is Transfer.dfy's subject.
- RowStore.WriteRowKeepsConstraints: foreign keys cascade or are cleared; refusing deletions (RESTRICT) is not modelled, because the schema does not use it.
- ApplyPackage.FastRefinesCareful: requires what senders and the sorting before it provide, one item for each row and deletions first; lock timeouts appear only as the locked rows that make the package give up.
- ParkAndSwap.ClosedGroupIsApplied: foreign keys of the received rows have to be satisfied already.
- Duplicates.DuplicateConverges: one colliding pair without further edits; the repair branch is left out, as the list of repairs is empty.
- Processing.ProcessItems: what an attempt does to the data is the subject of the applying modules; the clean-up of changes set aside earlier, effects and log entries are left out.
- Delivery.Deliver: a call that throws ends the delivery without a result; counters and logging are left out.
- Transfer.ReadTransfer: key hashes are numbers, in the order of their hexadecimal text; a call's registry holds for each table what the one query for it saw; the theorems about whole walks are for a catalog that does not change.
- DataCheck.VerifyPeer: both registries hold still, no two differing sets of records met have one summary, and no leaf holds more than 20,000 rows; the content of the offered rows and the retention floor's clock are left out.
- RolloutCluster.StepKeepsInv: the target and the self-updating flags are fixed; rolling a finished node back by hand, which makes earlier adverts untrue, is not a step.
- Pairing.StepKeepsInv: one joiner and one host entry; handling a confirmation is one step here and several in SlowConfirm.dfy; a person opening a closed entry again is a new run, as are wrong codes beyond the failure that closes the window.
- Mesh.MeshCompletes: every node is online, sees the present links and refuses nothing; an introduction is taken as succeeding, which the pairing model covers.
- Introductions.Peers.HandleIntroduce: a call that nothing interrupts; whether the introduced address and certificate are usable is given.
- Introductions.OneLinkPerNode: the exchange itself is Pairing.dfy's subject; here it may end at any later time or never, and may be carried out again.
- Attempts.OneLiveWithoutOverlap: counts entries made by introductions; a person's own invite, which any node given its secret may use, is a step but not counted.
- Ranks.OrderedIsTopological: the order among tables of one rank (by name in the local language) is left open.
- ClientHello.ReadServerName: an address written as a number counts as such in its four-part decimal form.
- Transcripts.PairTranscriptDeterminesAll: fields are bytes; text that is not valid Unicode is replaced before it is encoded, which is not modelled.
- Strings are compared character by character; ids are ASCII, where this is the order of the original.
- Row content and its encoding (dates, floats, JSON) are opaque.
- Sockets, TLS listeners, relays, timers, HTTP routes, configuration parsing, the admin panel and event logs: plumbing around the modelled core.
- Concrete cryptography (AES-GCM, X25519, HKDF, scrypt, certificate signatures): symbolic here.
- Invites, install and relay tokens, framing, tar archives, DER helpers, the git advertisement parser: encoders that would add only easier members.
- `rendezvousOwner`, `healthAfter` and `normalizePeerAddress` in `src/cluster/health.ts` are not part of this model.
