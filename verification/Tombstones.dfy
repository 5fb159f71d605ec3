/** Removing old deletion records (src/cluster/capture.ts), for all active peers at once. */
module Tombstones {
  import opened Versions
  import F = FeedCursor

  datatype Record = Record(table: string, deleted: bool, changedAt: int, pos: int)

  type Registry = map<F.RowId, Record>

  const CHUNK := 1000

  /** Old enough, not in a table that is kept, and at or below every active peer's cursor. */
  predicate MayGo(r: Record, cutoff: int, keep: set<string>, cursors: seq<int>)
  {
    r.deleted && r.changedAt < cutoff && r.table !in keep && forall i | 0 <= i < |cursors| :: r.pos <= cursors[i]
  }

  /** Removes the records the query returned: of those that may go, whichever are not locked, up
      to a chunk of them. */
  method PruneTombstones(registry: Registry, cursors: seq<int>, cutoff: int, keep: set<string>, unlocked: set<F.RowId>)
    returns (pruned: Registry, removed: set<F.RowId>)
    ensures forall row :: row in pruned <==> row in registry && row !in removed
    ensures forall row | row in pruned :: pruned[row] == registry[row]
    ensures forall row | row in removed :: row in registry && MayGo(registry[row], cutoff, keep, cursors)
    ensures forall row | row in removed ::
              && row in registry && registry[row].deleted && registry[row].changedAt < cutoff && registry[row].table !in keep
              && forall i | 0 <= i < |cursors| :: registry[row].pos <= cursors[i]
    ensures |removed| <= 1000
    ensures removed == {} ==> !exists row :: row in registry && row in unlocked && MayGo(registry[row], cutoff, keep, cursors)
  {
    var delivered := LowestCursor(cursors);
    var found := set row | row in registry && row in unlocked && IsFound(registry[row], cutoff, keep, delivered);
    forall row | row in registry && row in unlocked ensures row in found <==> MayGo(registry[row], cutoff, keep, cursors) {
      FoundMayGo(registry[row], cutoff, keep, cursors, delivered);
    }
    pruned, removed := DeleteSome(registry, found);
  }

  /** The lowest cursor of any active peer, if there is one. */
  method LowestCursor(cursors: seq<int>) returns (lowest: Option<int>)
    ensures lowest.None? <==> cursors == []
    ensures lowest.Some? ==> lowest.value in cursors && forall k | 0 <= k < |cursors| :: lowest.value <= cursors[k]
  {
    lowest := None;
    var i := 0;
    while i < |cursors|
      invariant 0 <= i <= |cursors| && (lowest.None? <==> i == 0)
      invariant lowest.Some? ==> lowest.value in cursors && forall k | 0 <= k < i :: lowest.value <= cursors[k]
    {
      if lowest.None? || cursors[i] < lowest.value { lowest := Some(cursors[i]); }
      i := i + 1;
    }
  }

  predicate IsFound(r: Record, cutoff: int, keep: set<string>, delivered: Option<int>)
  {
    r.deleted && r.changedAt < cutoff && r.table !in keep && (delivered.Some? ==> r.pos <= delivered.value)
  }

  lemma FoundMayGo(r: Record, cutoff: int, keep: set<string>, cursors: seq<int>, delivered: Option<int>)
    requires delivered.None? <==> cursors == []
    requires delivered.Some? ==> delivered.value in cursors && forall k | 0 <= k < |cursors| :: delivered.value <= cursors[k]
    ensures IsFound(r, cutoff, keep, delivered) <==> MayGo(r, cutoff, keep, cursors)
  {
    if delivered.Some? {
      var k :| 0 <= k < |cursors| && cursors[k] == delivered.value;
    }
  }

  method DeleteSome(registry: Registry, found: set<F.RowId>) returns (pruned: Registry, removed: set<F.RowId>)
    ensures pruned == registry - removed && removed <= found && |removed| <= CHUNK && (removed == {} ==> found == {})
  {
    removed := {};
    pruned := registry;
    var left := found;
    while left != {} && |removed| < CHUNK
      invariant left <= found && removed == found - left && |removed| <= CHUNK
      invariant pruned == registry - removed
      decreases left
    {
      var row :| row in left;
      left := left - {row};
      removed := removed + {row};
      pruned := pruned - {row};
    }
  }

  /** The peers this node sends to, each with its own feed: the cursor of each is what its run has
      stored. */
  ghost predicate AreReaders(feeds: seq<F.Feed>, runs: seq<seq<F.Step>>, starts: seq<F.Feed>, cursors: seq<int>)
  {
    && |feeds| == |runs| == |starts| == |cursors|
    && forall i {:trigger feeds[i]} | 0 <= i < |feeds| ::
         F.Init(starts[i]) && F.Runnable(starts[i], runs[i]) && F.Run(starts[i], runs[i]) == feeds[i]
         && feeds[i].progress.cursor == cursors[i]
  }

  /** A deletion record that is removed was taken or declined by every active peer to whose present
      span it belongs, unless for that peer it ties on the number with an earlier record of its
      row. */
  lemma RemovedRecordsReachedEveryReader(feeds: seq<F.Feed>, runs: seq<seq<F.Step>>, starts: seq<F.Feed>, cursors: seq<int>,
                                         row: F.RowId, r: Record, cutoff: int, keep: set<string>, i: nat)
    requires AreReaders(feeds, runs, starts, cursors) && i < |feeds|
    requires MayGo(r, cutoff, keep, cursors)
    requires row in feeds[i].registry && feeds[i].registry[row].deleted && feeds[i].registry[row].pos == r.pos
    requires feeds[i].registry[row].readable && r.pos > feeds[i].start
    ensures feeds[i].registry[row] in feeds[i].known || F.TiesWithEarlier(feeds[i], feeds[i].registry[row])
  {
    F.TombstoneOutlivesReader(starts[i], runs[i], row);
  }
}
