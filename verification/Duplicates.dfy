/** One unique value, used by two nodes for a row each (src/cluster/applier.ts). */
module Duplicates {
  import opened Versions

  /** The node that created a row, and that row. */
  datatype Side = A | B
  {
    function Other(): Side { if A? then B else A }
  }

  /** What the verdict looks at. `created` is None when there is no usable creation time. */
  datatype Candidate = Candidate(hash: string, created: Option<int>)

  /** The verdict on a collision: whether the received row is kept. */
  predicate IncomingWins(incoming: Candidate, local: Candidate)
  {
    if incoming.created.Some? && local.created.Some? && incoming.created != local.created
    then incoming.created.value < local.created.value
    else StringLess(incoming.hash, local.hash)
  }

  /** Seen from the two nodes, the same row wins: the one created earlier, if both times are known
      and differ, and otherwise the one with the smaller key hash. */
  lemma VerdictIsTheSameOnBothNodes(a: Candidate, b: Candidate)
    requires a.hash != b.hash
    ensures IncomingWins(a, b) <==> !IncomingWins(b, a)
    ensures a.created.Some? && b.created.Some? && a.created.value < b.created.value ==> IncomingWins(a, b)
    ensures a.created.None? || b.created.None? || a.created == b.created ==> (IncomingWins(a, b) <==> StringLess(a.hash, b.hash))
  {
    StringLessTotal(a.hash, b.hash);
  }

  /** A row on one node: never heard of, stored, or recorded as deleted. */
  datatype Entry = Absent | Live(version: RowVersion) | Gone(version: RowVersion)

  /** `aside`: the other node's row was received and set aside because it collides. */
  datatype Node = Node(rowA: Entry, rowB: Entry, aside: bool)
  {
    function Row(side: Side): Entry { if side.A? then rowA else rowB }
    function With(side: Side, e: Entry): Node { if side.A? then this.(rowA := e) else this.(rowB := e) }
  }

  datatype Message = Message(to: Side, row: Side, version: RowVersion, deleted: bool)

  /** The facts of one collision: names, rows and versions of the two sides. */
  datatype Pair = Pair(idA: string, idB: string, candA: Candidate, candB: Candidate, versionA: RowVersion, versionB: RowVersion)
  {
    function Id(side: Side): string { if side.A? then idA else idB }
    function Cand(side: Side): Candidate { if side.A? then candA else candB }
    function VersionOf(side: Side): RowVersion { if side.A? then versionA else versionB }
    ghost predicate Valid() { idA != idB && candA.hash != candB.hash }

    /** The row both nodes keep. */
    function Winner(): Side { if IncomingWins(candA, candB) then A else B }
    function Loser(): Side { Winner().Other() }

    /** The deletion that node `who` records for the losing row. */
    function Tombstone(who: Side): RowVersion { RowVersion(VersionOf(Loser()).version + 1, Id(who)) }
  }

  /** `messages` only grows: each may be delivered late, repeatedly, or never. */
  datatype State = State(a: Node, b: Node, messages: set<Message>)
  {
    function At(side: Side): Node { if side.A? then a else b }
    function With(side: Side, n: Node): State { if side.A? then this.(a := n) else this.(b := n) }
  }

  function Start(p: Pair): State
  {
    State(Node(Live(p.versionA), Absent, false), Node(Absent, Live(p.versionB), false),
          {Message(B, A, p.versionA, false), Message(A, B, p.versionB, false)})
  }

  function LocalOf(e: Entry): Option<RowVersion>
  {
    match e
    case Absent => None
    case Live(v) => Some(v)
    case Gone(v) => Some(v)
  }

  predicate IsStale(s: State, m: Message)
  {
    !IsNewer(m.version, LocalOf(s.At(m.to).Row(m.row)))
  }

  /** One received change: stale, set aside because of the collision, or applied. */
  function Receive(s: State, m: Message): State
  {
    var n := s.At(m.to);
    if IsStale(s, m) then s
    else if !m.deleted && n.Row(m.row.Other()).Live? then s.With(m.to, n.(aside := true))
    else s.With(m.to, n.With(m.row, if m.deleted then Gone(m.version) else Live(m.version)))
  }

  /** Another attempt at the change that was set aside, once the sender has nothing more: if it
      still collides, the verdict removes the losing row and records its deletion. */
  function Retry(p: Pair, s: State, side: Side): State
  {
    var row := side.Other();
    var n := s.At(side).(aside := false);
    var item := Message(side, row, p.VersionOf(row), false);
    if !s.At(side).aside then s
    else if IsStale(s, item) then s.With(side, n)
    else if !n.Row(side).Live? then s.With(side, n.With(row, Live(item.version)))
    else if !IncomingWins(p.Cand(row), p.Cand(side)) then
      var gone := RowVersion(item.version.version + 1, p.Id(side));
      s.With(side, n.With(row, Gone(gone))).(messages := s.messages + {Message(row, row, gone, true)})
    else
      var gone := RowVersion(n.Row(side).version.version + 1, p.Id(side));
      s.With(side, n.With(side, Gone(gone)).With(row, Live(item.version)))
       .(messages := s.messages + {Message(row, side, gone, true)})
  }

  datatype Step = Delivery(message: Message) | Retrying(side: Side)

  predicate Enabled(s: State, step: Step)
  {
    step.Delivery? ==> step.message in s.messages
  }

  function Apply(p: Pair, s: State, step: Step): State
  {
    match step
    case Delivery(m) => Receive(s, m)
    case Retrying(side) => Retry(p, s, side)
  }

  predicate Runnable(p: Pair, s: State, steps: seq<Step>)
    decreases |steps|
  {
    steps == [] || (Enabled(s, steps[0]) && Runnable(p, Apply(p, s, steps[0]), steps[1..]))
  }

  function Run(p: Pair, s: State, steps: seq<Step>): State
    decreases |steps|
  {
    if steps == [] then s else Run(p, Apply(p, s, steps[0]), steps[1..])
  }

  predicate LoserEntryFine(p: Pair, e: Entry)
  {
    e.Gone? ==> e.version == p.Tombstone(A) || e.version == p.Tombstone(B)
  }

  predicate MessageFine(p: Pair, m: Message)
  {
    || (!m.deleted && m.to == m.row.Other() && m.version == p.VersionOf(m.row))
    || (m.deleted && m.row == p.Loser() && m.version == p.Tombstone(m.to.Other()))
  }

  /** Whoever recorded the deletion has told the other node and still holds it or a later one. */
  predicate TombstoneFine(p: Pair, s: State, who: Side)
  {
    var sent := Message(who.Other(), p.Loser(), p.Tombstone(who), true);
    var own := s.At(who).Row(p.Loser());
    && (s.a.Row(p.Loser()) == Gone(p.Tombstone(who)) || s.b.Row(p.Loser()) == Gone(p.Tombstone(who)) ==> sent in s.messages)
    && (sent in s.messages ==> own.Gone? && AtMost(p.Tombstone(who), own.version))
  }

  predicate Inv(p: Pair, s: State)
  {
    var w, l := p.Winner(), p.Loser();
    && Start(p).messages <= s.messages && (forall m | m in s.messages :: MessageFine(p, m))
    && s.At(w).Row(w) == Live(p.VersionOf(w))
    && !s.At(w).Row(l).Live? && LoserEntryFine(p, s.At(w).Row(l))
    && (s.At(l).Row(l) == Live(p.VersionOf(l)) || s.At(l).Row(l).Gone?) && LoserEntryFine(p, s.At(l).Row(l))
    && (s.At(l).Row(w) == Absent || (s.At(l).Row(w) == Live(p.VersionOf(w)) && s.At(l).Row(l).Gone?))
    && TombstoneFine(p, s, A) && TombstoneFine(p, s, B)
  }

  /** The order of the few versions that can occur. */
  lemma TombstonesWin(p: Pair)
    requires p.Valid()
    ensures forall who :: !AtMost(p.Tombstone(who), p.VersionOf(p.Loser())) && AtMost(p.VersionOf(p.Loser()), p.Tombstone(who))
    ensures forall who :: AtMost(p.Tombstone(who), p.Tombstone(who))
    ensures AtMost(p.Tombstone(A), p.Tombstone(B)) <==> !AtMost(p.Tombstone(B), p.Tombstone(A))
    ensures p.Tombstone(A) != p.Tombstone(B)
    ensures AtMost(p.VersionOf(p.Winner()), p.VersionOf(p.Winner())) && AtMost(p.VersionOf(p.Loser()), p.VersionOf(p.Loser()))
  {
    CompareVersionsIsTotalOrder(p.Tombstone(A), p.Tombstone(B), p.Tombstone(A));
  }

  lemma ReceiveWinnerKeepsInv(p: Pair, s: State, m: Message)
    requires p.Valid() && Inv(p, s) && m in s.messages && m.row == p.Winner()
    ensures Inv(p, Receive(s, m))
  {
    TombstonesWin(p);
    assert MessageFine(p, m);
    assert m == Message(p.Loser(), p.Winner(), p.VersionOf(p.Winner()), false);
  }

  lemma ReceiveLoserKeepsInv(p: Pair, s: State, m: Message)
    requires p.Valid() && Inv(p, s) && m in s.messages && m.row == p.Loser()
    ensures Inv(p, Receive(s, m))
  {
    TombstonesWin(p);
    assert MessageFine(p, m);
  }

  lemma ReceiveKeepsInv(p: Pair, s: State, m: Message)
    requires p.Valid() && Inv(p, s) && m in s.messages
    ensures Inv(p, Receive(s, m))
  {
    if m.row == p.Winner() { ReceiveWinnerKeepsInv(p, s, m); } else { ReceiveLoserKeepsInv(p, s, m); }
  }

  lemma RetryKeepsInv(p: Pair, s: State, side: Side)
    requires p.Valid() && Inv(p, s)
    ensures Inv(p, Retry(p, s, side))
  {
    TombstonesWin(p);
    VerdictIsTheSameOnBothNodes(p.candA, p.candB);
    var t := Retry(p, s, side);
    if side == p.Winner() {
      assert !IncomingWins(p.Cand(p.Loser()), p.Cand(p.Winner()));
    } else {
      assert IncomingWins(p.Cand(p.Winner()), p.Cand(p.Loser()));
    }
  }

  lemma StepKeepsInv(p: Pair, s: State, step: Step)
    requires p.Valid() && Inv(p, s) && Enabled(s, step)
    ensures Inv(p, Apply(p, s, step))
  {
    match step
    case Delivery(m) => ReceiveKeepsInv(p, s, m);
    case Retrying(side) => RetryKeepsInv(p, s, side);
  }

  lemma {:induction false} RunKeepsInv(p: Pair, s: State, steps: seq<Step>)
    requires p.Valid() && Inv(p, s) && Runnable(p, s, steps)
    ensures Inv(p, Run(p, s, steps))
    decreases |steps|
  {
    if steps != [] {
      StepKeepsInv(p, s, steps[0]);
      RunKeepsInv(p, Apply(p, s, steps[0]), steps[1..]);
    }
  }

  /** Every message has arrived: none would change anything any more. */
  predicate AllDelivered(s: State)
  {
    forall m | m in s.messages :: IsStale(s, m)
  }

  /** The winner is stored under its own version on both nodes, the loser is recorded as deleted
      under one common version above its old one. */
  predicate Resolved(p: Pair, s: State)
  {
    var w, l := p.Winner(), p.Loser();
    && s.a.Row(w) == s.b.Row(w) == Live(p.VersionOf(w))
    && s.a.Row(l) == s.b.Row(l) && s.a.Row(l).Gone?
    && IsNewer(s.a.Row(l).version, Some(p.VersionOf(l)))
  }

  lemma DeliveredIsResolved(p: Pair, s: State)
    requires p.Valid() && Inv(p, s) && AllDelivered(s)
    ensures Resolved(p, s)
  {
    var w, l := p.Winner(), p.Loser();
    TombstonesWin(p);
    OrderFacts();
    assert Message(l, w, p.VersionOf(w), false) in s.messages && Message(w, l, p.VersionOf(l), false) in s.messages;
  }

  /** Under every interleaving of the two resolutions and the forwarded deletions, both nodes
      end in the same verdict as soon as every message has arrived. */
  lemma DuplicateConverges(p: Pair, steps: seq<Step>)
    requires p.Valid() && Runnable(p, Start(p), steps)
    requires AllDelivered(Run(p, Start(p), steps))
    ensures Resolved(p, Run(p, Start(p), steps))
  {
    RunKeepsInv(p, Start(p), steps);
    DeliveredIsResolved(p, Run(p, Start(p), steps));
  }

  /** Which row that is: the one created earlier, if both times are known and differ, and otherwise
      the one with the smaller key hash. It lives on both nodes, the other one is deleted on both. */
  lemma EarlierRowSurvives(p: Pair, steps: seq<Step>, kept: Side, lost: Side)
    requires p.Valid() && Runnable(p, Start(p), steps) && AllDelivered(Run(p, Start(p), steps)) && kept != lost
    requires var a, b := p.Cand(kept), p.Cand(lost);
             if a.created.Some? && b.created.Some? && a.created.value != b.created.value then a.created.value < b.created.value
             else StringLess(a.hash, b.hash)
    ensures var s := Run(p, Start(p), steps);
            && s.a.Row(kept) == s.b.Row(kept) == Live(p.VersionOf(kept))
            && s.a.Row(lost).Gone? && s.b.Row(lost) == s.a.Row(lost)
            && s.a.Row(lost).version.version == p.VersionOf(lost).version + 1 && s.a.Row(lost).version.origin in {p.idA, p.idB}
  {
    VerdictIsTheSameOnBothNodes(p.candA, p.candB);
    VerdictIsTheSameOnBothNodes(p.Cand(kept), p.Cand(lost));
    DuplicateConverges(p, steps);
    RunKeepsInv(p, Start(p), steps);
  }

  function EntryRank(p: Pair, e: Entry): nat
  {
    match e
    case Absent => 0
    case Live(_) => 1
    case Gone(v) => if AtMost(p.Tombstone(A), v) && AtMost(p.Tombstone(B), v) then 3 else 2
  }

  function NodeRank(p: Pair, n: Node): nat
  {
    EntryRank(p, n.rowA) + EntryRank(p, n.rowB)
  }

  predicate Climbs(p: Pair, e: Entry, f: Entry)
  {
    e == f || EntryRank(p, e) < EntryRank(p, f)
  }

  lemma ReceiveClimbs(p: Pair, s: State, m: Message, side: Side, row: Side)
    requires p.Valid() && Inv(p, s) && m in s.messages
    ensures Climbs(p, s.At(side).Row(row), Receive(s, m).At(side).Row(row))
  {
    TombstonesWin(p);
    assert MessageFine(p, m);
  }

  lemma RetryClimbs(p: Pair, s: State, at: Side, side: Side, row: Side)
    requires p.Valid() && Inv(p, s)
    ensures Climbs(p, s.At(side).Row(row), Retry(p, s, at).At(side).Row(row))
  {
    TombstonesWin(p);
    VerdictIsTheSameOnBothNodes(p.candA, p.candB);
  }

  /** No more than eight steps of a run change what the nodes store: every change climbs. */
  lemma EveryChangeClimbs(p: Pair, s: State, step: Step)
    requires p.Valid() && Inv(p, s) && Enabled(s, step)
    ensures var t := Apply(p, s, step);
            && NodeRank(p, t.a) + NodeRank(p, t.b) <= 8
            && ((t.a.rowA, t.a.rowB, t.b.rowA, t.b.rowB) != (s.a.rowA, s.a.rowB, s.b.rowA, s.b.rowB)
                ==> NodeRank(p, t.a) + NodeRank(p, t.b) > NodeRank(p, s.a) + NodeRank(p, s.b))
  {
    var t := Apply(p, s, step);
    forall side, row ensures Climbs(p, s.At(side).Row(row), t.At(side).Row(row)) {
      match step
      case Delivery(m) => ReceiveClimbs(p, s, m, side, row);
      case Retrying(at) => RetryClimbs(p, s, at, side, row);
    }
    assert Climbs(p, s.At(A).Row(A), t.At(A).Row(A)) && Climbs(p, s.At(A).Row(B), t.At(A).Row(B));
    assert Climbs(p, s.At(B).Row(A), t.At(B).Row(A)) && Climbs(p, s.At(B).Row(B), t.At(B).Row(B));
    RankIsBounded(p, s, step);
  }

  lemma RankIsBounded(p: Pair, s: State, step: Step)
    requires p.Valid() && Inv(p, s) && Enabled(s, step)
    ensures NodeRank(p, Apply(p, s, step).a) + NodeRank(p, Apply(p, s, step).b) <= 8
  {
    StepKeepsInv(p, s, step);
  }

  // ─── Nothing gets stuck ──────────────────────────────────────────────────────

  function Rank(p: Pair, s: State): nat
  {
    NodeRank(p, s.a) + NodeRank(p, s.b)
  }

  /** A message that is still outstanding moves what the nodes store, at once or, if its row collides,
      by the attempt that follows. */
  lemma OutstandingMoves(p: Pair, s: State, m: Message)
    requires p.Valid() && Inv(p, s) && m in s.messages && !IsStale(s, m)
    ensures var t := Receive(s, m); Rank(p, s) < Rank(p, t) || (Rank(p, t) == Rank(p, s) && Rank(p, s) < Rank(p, Retry(p, t, m.to)))
  {
    TombstonesWin(p);
    VerdictIsTheSameOnBothNodes(p.candA, p.candB);
    assert MessageFine(p, m);
  }

  lemma {:induction false} RunsJoin(p: Pair, s: State, first: seq<Step>, rest: seq<Step>)
    requires Runnable(p, s, first) && Runnable(p, Run(p, s, first), rest)
    ensures Runnable(p, s, first + rest) && Run(p, s, first + rest) == Run(p, Run(p, s, first), rest)
    decreases |first|
  {
    if first == [] {
      assert first + rest == rest;
    } else {
      assert (first + rest)[0] == first[0] && (first + rest)[1..] == first[1..] + rest;
      RunsJoin(p, Apply(p, s, first[0]), first[1..], rest);
    }
  }

  /** The steps a message still outstanding makes possible. */
  lemma NextMove(p: Pair, s: State) returns (steps: seq<Step>)
    requires p.Valid() && Inv(p, s) && !AllDelivered(s)
    ensures 0 < |steps| <= 2 && Runnable(p, s, steps) && Inv(p, Run(p, s, steps)) && Rank(p, s) < Rank(p, Run(p, s, steps)) <= 8
  {
    var m :| m in s.messages && !IsStale(s, m);
    var one, two := [Delivery(m)], [Delivery(m), Retrying(m.to)];
    var t := Apply(p, s, Delivery(m));
    OutstandingMoves(p, s, m);
    assert one[1..] == [] && two[1..] == [Retrying(m.to)] && [Retrying(m.to)][1..] == [];
    assert Runnable(p, t, []) && Runnable(p, t, [Retrying(m.to)]);
    assert Runnable(p, s, one) && Run(p, s, one) == t;
    assert Run(p, t, [Retrying(m.to)]) == Run(p, Retry(p, t, m.to), []) == Retry(p, t, m.to);
    assert Runnable(p, s, two) && Run(p, s, two) == Run(p, t, [Retrying(m.to)]);
    steps := if Rank(p, s) < Rank(p, t) then one else two;
    RunKeepsInv(p, s, steps);
    RankIsBoundedIn(p, Run(p, s, steps));
  }

  lemma RankIsBoundedIn(p: Pair, s: State)
    requires p.Valid() && Inv(p, s)
    ensures Rank(p, s) <= 8
  {
  }

  /** From every state a run can reach, at most sixteen further steps bring both nodes to the verdict. */
  lemma {:induction false} AlwaysResolvable(p: Pair, s: State) returns (steps: seq<Step>)
    requires p.Valid() && Inv(p, s)
    ensures Runnable(p, s, steps) && |steps| <= 2 * (8 - Rank(p, s)) && Resolved(p, Run(p, s, steps))
    decreases 8 - Rank(p, s)
  {
    RankIsBoundedIn(p, s);
    if AllDelivered(s) {
      DeliveredIsResolved(p, s);
      steps := [];
    } else {
      var first := NextMove(p, s);
      var rest := AlwaysResolvable(p, Run(p, s, first));
      RunsJoin(p, s, first, rest);
      steps := first + rest;
    }
  }
}
