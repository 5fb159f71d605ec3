/** Samples of the newest feed position, and the position up to which nothing is still
    uncommitted (src/cluster/replicator.ts). */
module FeedSamples {

  datatype Sample = Sample(at: int, pos: int)

  /** The position of the last sample taken at or before `limit`, in a history sorted by time. */
  function StableOf(samples: seq<Sample>, limit: int, start: int): int
  {
    if samples == [] || samples[0].at > limit then start
    else StableOf(samples[1..], limit, samples[0].pos)
  }

  predicate Sorted(samples: seq<Sample>)
  {
    forall i, j :: 0 <= i < j < |samples| ==> samples[i].at <= samples[j].at
  }

  lemma {:induction false} StableOfSnoc(samples: seq<Sample>, x: Sample, limit: int, start: int)
    requires Sorted(samples + [x])
    ensures StableOf(samples + [x], limit, start) == if x.at <= limit then x.pos else StableOf(samples, limit, start)
  {
    if samples == [] {
      assert samples + [x] == [x] && [x][1..] == [];
    } else {
      var all := samples + [x];
      assert all[0] == samples[0] && all[1..] == samples[1..] + [x];
      assert all[0].at <= all[|samples|].at;
      assert Sorted(samples[1..] + [x]) by {
        assert forall i :: 0 <= i < |samples| ==> (samples[1..] + [x])[i] == all[i + 1];
      }
      StableOfSnoc(samples[1..], x, limit, samples[0].pos);
    }
  }

  /** What the stable position is: the position of sample `i`, old enough while every later
      sample is too young to count, or `start` (`i` is -1) when no sample is old enough. */
  lemma {:induction false} StableIsNewestOldEnough(samples: seq<Sample>, limit: int, start: int) returns (i: int)
    requires Sorted(samples)
    ensures -1 <= i < |samples|
    ensures StableOf(samples, limit, start) == if i < 0 then start else samples[i].pos
    ensures i >= 0 ==> samples[i].at <= limit
    ensures forall j :: i < j < |samples| ==> samples[j].at > limit
    decreases |samples|
  {
    if samples == [] {
      i := -1;
    } else {
      var n := |samples| - 1;
      assert samples[..n] + [samples[n]] == samples;
      StableOfSnoc(samples[..n], samples[n], limit, start);
      if samples[n].at <= limit {
        i := n;
      } else {
        i := StableIsNewestOldEnough(samples[..n], limit, start);
        assert forall j :: i < j < n ==> samples[j] == samples[..n][j];
      }
    }
  }

  /** The samples of one process since its start. `all` is every call of NoteFeedHead; the
      kept list skips repeats and drops what is too old to matter. */
  class FeedHeads {
    const horizon: nat
    const startup: int
    var samples: seq<Sample>
    ghost var all: seq<Sample>

    ghost predicate Valid()
      reads this
    {
      && Sorted(samples) && Sorted(all)
      && (samples == [] <==> all == [])
      && (all != [] ==> samples[|samples| - 1].pos == all[|all| - 1].pos && samples[|samples| - 1].at <= all[|all| - 1].at)
      && forall limit, start | all != [] && limit >= all[|all| - 1].at - horizon ::
           StableOf(samples, limit, start) == StableOf(all, limit, start)
    }

    constructor (horizon: nat, startup: int)
      ensures Valid() && all == [] && this.horizon == horizon && this.startup == startup
    {
      this.horizon := horizon;
      this.startup := startup;
      samples, all := [], [];
    }

    /** Records the newest position. Leaving out a repeat and dropping old samples never
        changes what StableFeedPosition answers, now or later. */
    method NoteFeedHead(pos: int, now: int)
      requires Valid() && (all != [] ==> all[|all| - 1].at <= now)
      modifies this
      ensures Valid() && all == old(all) + [Sample(now, pos)]
    {
      ghost var before := samples;
      ghost var x := Sample(now, pos);
      forall limit, start | limit >= now - horizon
        ensures StableOf(all + [x], limit, start) == if now <= limit then pos else StableOf(samples, limit, start)
      {
        StableOfSnoc(all, x, limit, start);
      }
      if samples != [] && samples[|samples| - 1].pos == pos && now - samples[|samples| - 1].at < 1000 {
        forall limit, start | now <= limit ensures StableOf(samples, limit, start) == pos {
          var n := |samples| - 1;
          assert samples[..n] + [samples[n]] == samples;
          StableOfSnoc(samples[..n], samples[n], limit, start);
        }
        all := all + [x];
        return;
      }
      samples := samples + [Sample(now, pos)];
      all := all + [x];
      var keepFrom := now - horizon - 10000;
      forall limit, start | limit >= now - horizon
        ensures StableOf(samples, limit, start) == StableOf(all, limit, start)
      {
        StableOfSnoc(before, x, limit, start);
      }
      while |samples| > 2 && samples[1].at < keepFrom
        invariant all == old(all) + [x]
        invariant |samples| > 0 && Sorted(samples) && samples[|samples| - 1] == x
        invariant forall limit, start | limit >= now - horizon ::
                    StableOf(samples, limit, start) == StableOf(all, limit, start)
      {
        forall limit, start | limit >= now - horizon
          ensures StableOf(samples[1..], limit, start) == StableOf(samples, limit, start)
        {
          assert samples[0].at <= samples[1].at;
        }
        samples := samples[1..];
      }
    }

    /** The position up to which nothing is still uncommitted: computed from the kept
        samples, equal to what the whole history gives. */
    method StableFeedPosition(now: int) returns (stable: int)
      requires Valid() && (all != [] ==> all[|all| - 1].at <= now)
      ensures stable == StableOf(all, now - horizon, startup)
      ensures forall i | 0 <= i < |all| && now - all[i].at >= horizon && (forall j | i < j < |all| :: now - all[j].at < horizon) ::
                stable == all[i].pos
      ensures (forall i | 0 <= i < |all| :: now - all[i].at < horizon) ==> stable == startup
    {
      ghost var newest := StableIsNewestOldEnough(all, now - horizon, startup);
      var limit := now - horizon;
      stable := startup;
      var i := 0;
      while i < |samples| && samples[i].at <= limit
        invariant 0 <= i <= |samples|
        invariant StableOf(samples[i..], limit, stable) == StableOf(samples, limit, startup)
      {
        assert samples[i..][1..] == samples[i + 1..];
        stable := samples[i].pos;
        i := i + 1;
      }
      if i < |samples| {
        assert samples[i..][0] == samples[i];
      }
    }
  }
}
