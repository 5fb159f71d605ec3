/** Replay protection of a session (src/cluster/crypto.ts): no counter passes twice, and none far
    below the highest. */
module ReplayWindow {

  ghost predicate IsHighest(highest: int, accepted: set<int>)
  {
    && (accepted == {} <==> highest == -1)
    && (accepted != {} ==> highest in accepted)
    && forall c | c in accepted :: 0 <= c <= highest
  }

  /** The rule over everything accepted so far. */
  ghost predicate IsAcceptable(size: nat, highest: int, accepted: set<int>, counter: int)
  {
    counter >= 0 && (highest >= 0 ==> counter > highest - size) && counter !in accepted
  }

  function Window(low: int, high: int): (r: set<int>)
    ensures forall c :: c in r <==> low < c <= high
    decreases high - low
  {
    if low >= high then {} else Window(low, high - 1) + {high}
  }

  lemma {:induction false} WindowSize(low: int, high: int)
    requires low <= high
    ensures |Window(low, high)| == high - low
    decreases high - low
  {
    if low < high {
      WindowSize(low, high - 1);
    }
  }

  lemma SubsetIsSmaller(a: set<int>, b: set<int>)
    requires a <= b
    ensures |a| <= |b|
  {
    assert b == a + (b - a);
  }

  class ReplayWindow {
    const size: nat
    var highest: int
    var seen: set<int>
    /** Every counter accepted, including those forgotten since. */
    ghost var accepted: set<int>

    ghost predicate Valid()
      reads this
    {
      && IsHighest(highest, accepted) && seen <= accepted && |seen| <= 2 * size
      && forall c | c in accepted && c > highest - size :: c in seen
    }

    constructor (size: nat := 4096)
      ensures Valid() && this.size == size && accepted == {} && highest == -1
    {
      this.size := size;
      highest := -1;
      seen := {};
      accepted := {};
    }

    /** True exactly for a counter that is not negative, lies above the highest accepted one less
        the size, and was never accepted before, however much has been forgotten meanwhile. */
    method Accept(counter: int) returns (ok: bool)
      requires Valid()
      modifies this
      ensures Valid()
      ensures ok <==> IsAcceptable(size, old(highest), old(accepted), counter)
      ensures accepted == if ok then old(accepted) + {counter} else old(accepted)
      ensures highest == if ok && counter > old(highest) then counter else old(highest)
    {
      if counter < 0 { return false; }
      if highest >= 0 && counter <= highest - size { return false; }
      if counter in seen { return false; }
      assert counter !in accepted;
      seen := seen + {counter};
      accepted := accepted + {counter};
      if counter > highest { highest := counter; }
      if |seen| > size * 2 {
        Prune();
      }
      return true;
    }

    /** Forgets what no longer fits the window. */
    method Prune()
      requires IsHighest(highest, accepted) && seen <= accepted
      requires forall c | c in accepted && c > highest - size :: c in seen
      modifies `seen
      ensures Valid()
    {
      var floor := highest - size;
      var left := seen;
      ghost var all := seen;
      while left != {}
        invariant left <= all && seen == left + (set c | c in all && c > floor)
        decreases left
      {
        var value :| value in left;
        left := left - {value};
        if value <= floor { seen := seen - {value}; }
      }
      WindowSize(floor, highest);
      SubsetIsSmaller(seen, Window(floor, highest));
    }
  }

  // ─── Over whole runs ─────────────────────────────────────────────────────────

  datatype History = History(highest: int, accepted: set<int>)

  function After(size: nat, counters: seq<int>): (h: History)
    ensures IsHighest(h.highest, h.accepted)
  {
    if counters == [] then History(-1, {})
    else
      var h, c := After(size, counters[..|counters| - 1]), counters[|counters| - 1];
      if c >= 0 && (h.highest >= 0 ==> c > h.highest - size) && c !in h.accepted
      then History(if c > h.highest then c else h.highest, h.accepted + {c}) else h
  }

  /** Whether the call with number `i` is accepted. */
  ghost predicate AcceptedAt(size: nat, counters: seq<int>, i: nat)
    requires i < |counters|
  {
    var h := After(size, counters[..i]);
    IsAcceptable(size, h.highest, h.accepted, counters[i])
  }

  lemma {:induction false} AcceptedStays(size: nat, counters: seq<int>, i: nat, j: nat)
    requires i < j <= |counters| && AcceptedAt(size, counters, i)
    ensures counters[i] in After(size, counters[..j]).accepted
  {
    assert counters[..j][..j - 1] == counters[..j - 1];
    if j > i + 1 { AcceptedStays(size, counters, i, j - 1); }
  }

  /** No counter is accepted twice in any sequence of calls. */
  lemma NothingAcceptedTwice(size: nat, counters: seq<int>, i: nat, j: nat)
    requires i < j < |counters| && AcceptedAt(size, counters, i) && AcceptedAt(size, counters, j)
    ensures counters[i] != counters[j]
  {
    AcceptedStays(size, counters, i, j);
  }

  lemma AfterOneMore(size: nat, counters: seq<int>, k: nat)
    requires k < |counters|
    ensures var h, c := After(size, counters[..k]), counters[k];
            After(size, counters[..k + 1]) ==
              if AcceptedAt(size, counters, k) then History(if c > h.highest then c else h.highest, h.accepted + {c}) else h
  {
    assert counters[..k + 1][..k] == counters[..k];
  }

  /** The answers so far are those the whole history gives. */
  ghost predicate Answered(size: nat, counters: seq<int>, answers: seq<bool>)
  {
    |answers| <= |counters| && forall i | 0 <= i < |answers| :: answers[i] <==> AcceptedAt(size, counters, i)
  }

  lemma AnsweredOneMore(size: nat, counters: seq<int>, answers: seq<bool>, ok: bool)
    requires Answered(size, counters, answers) && |answers| < |counters| && (ok <==> AcceptedAt(size, counters, |answers|))
    ensures Answered(size, counters, answers + [ok])
  {
  }

  lemma NoneTwice(size: nat, counters: seq<int>, answers: seq<bool>)
    requires Answered(size, counters, answers)
    ensures forall i, j | 0 <= i < j < |answers| && answers[i] && answers[j] :: counters[i] != counters[j]
  {
    forall i, j | 0 <= i < j < |answers| && answers[i] && answers[j] ensures counters[i] != counters[j] {
      NothingAcceptedTwice(size, counters, i, j);
    }
  }

  /** One session's calls, one after the other: each is answered as the whole history says, so no
      counter is let through twice although the object forgets most of them. */
  method AcceptAll(size: nat, counters: seq<int>) returns (answers: seq<bool>)
    ensures |answers| == |counters| && Answered(size, counters, answers)
    ensures forall i, j | 0 <= i < j < |counters| && answers[i] && answers[j] :: counters[i] != counters[j]
  {
    var session := new ReplayWindow(size);
    answers := [];
    assert counters[..0] == [];
    while |answers| < |counters|
      invariant Answered(size, counters, answers) && session.size == size && session.Valid() && fresh(session)
      invariant History(session.highest, session.accepted) == After(size, counters[..|answers|])
      decreases |counters| - |answers|
    {
      AfterOneMore(size, counters, |answers|);
      var ok := session.Accept(counters[|answers|]);
      AnsweredOneMore(size, counters, answers, ok);
      answers := answers + [ok];
    }
    NoneTwice(size, counters, answers);
  }

  lemma {:induction false} HighestIsReached(size: nat, counters: seq<int>, j: nat)
    requires j <= |counters|
    ensures After(size, counters[..j]).accepted != {} ==> exists i :: 0 <= i < j && counters[i] == After(size, counters[..j]).highest
    ensures forall c | c in After(size, counters[..j]).accepted :: c in counters[..j]
  {
    if j > 0 {
      assert counters[..j][..j - 1] == counters[..j - 1];
      HighestIsReached(size, counters, j - 1);
      assert counters[..j] == counters[..j - 1] + [counters[j - 1]];
      var h := After(size, counters[..j]);
      if h.accepted != {} {
        assert h.highest in counters[..j];
      }
    }
  }

  /** Traffic that arrives less than a window out of order, each counter once, is all accepted. */
  lemma NearlyOrderedTrafficPasses(size: nat, counters: seq<int>, j: nat)
    requires j < |counters| && counters[j] >= 0
    requires forall i | 0 <= i < j :: counters[i] != counters[j] && counters[i] < counters[j] + size
    ensures AcceptedAt(size, counters, j)
  {
    HighestIsReached(size, counters, j);
  }
}
