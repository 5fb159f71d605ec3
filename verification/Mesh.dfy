/** Introductions between unlinked nodes (src/cluster/mesh.ts): what one round of
    one node does, and that the introductions of all nodes make any connected graph complete. */
module Mesh {
  import opened Versions

  type NodeId = string
  type Pair = (NodeId, NodeId)

  /** What a node knows of a peer from its heartbeat. */
  datatype Peer = Peer(id: NodeId, reachable: bool, linked: set<NodeId>, pairing: set<NodeId>, blocked: set<NodeId>)

  function Usable(peers: seq<Peer>): (online: seq<Peer>)
    ensures forall p :: p in online <==> p in peers && p.reachable
  {
    if peers == [] then []
    else if peers[0].reachable then [peers[0]] + Usable(peers[1..]) else Usable(peers[1..])
  }

  ghost predicate DistinctIds(peers: seq<Peer>)
  {
    forall i, j | 0 <= i < j < |peers| :: peers[i].id != peers[j].id
  }

  /** The pair as it is always written: the smaller id hosts. */
  function InOrder(a: Peer, b: Peer): (Peer, Peer)
  {
    if StringLess(a.id, b.id) then (a, b) else (b, a)
  }

  function PairKey(a: Peer, b: Peer): Pair
  {
    (InOrder(a, b).0.id, InOrder(a, b).1.id)
  }

  predicate KnownApart(host: Peer, joiner: Peer)
  {
    && joiner.id !in host.linked && host.id !in joiner.linked
    && joiner.id !in host.pairing && host.id !in joiner.pairing
    && joiner.id !in host.blocked && host.id !in joiner.blocked
  }

  /** No node with a smaller id is linked with both. */
  predicate Designated(self: NodeId, host: Peer, joiner: Peer)
  {
    forall id | id in host.linked && id in joiner.linked :: !StringLess(id, self)
  }

  function LastIntroduced(last: map<Pair, int>, key: Pair): int
  {
    if key in last then last[key] else 0
  }

  predicate Introduces(self: NodeId, a: Peer, b: Peer, last: map<Pair, int>, now: int, window: int)
  {
    && KnownApart(InOrder(a, b).0, InOrder(a, b).1)
    && now - LastIntroduced(last, PairKey(a, b)) >= window
    && Designated(self, InOrder(a, b).0, InOrder(a, b).1)
  }

  /** The introductions among peer `i` and the peers from `i + 1` up to `j`. */
  function RowOf(self: NodeId, online: seq<Peer>, i: nat, j: nat, last: map<Pair, int>, now: int, window: int): seq<Pair>
    requires i < j <= |online|
  {
    if j == i + 1 then []
    else
      var row := RowOf(self, online, i, j - 1, last, now, window);
      if Introduces(self, online[i], online[j - 1], last, now, window) then row + [PairKey(online[i], online[j - 1])] else row
  }

  /** The introductions of the first `i` rows. */
  function RowsUpTo(self: NodeId, online: seq<Peer>, i: nat, last: map<Pair, int>, now: int, window: int): seq<Pair>
    requires i <= |online|
  {
    if i == 0 then []
    else RowsUpTo(self, online, i - 1, last, now, window) + RowOf(self, online, i - 1, |online|, last, now, window)
  }

  ghost predicate IsIntroduced(self: NodeId, online: seq<Peer>, last: map<Pair, int>, now: int, window: int, i: int, j: int, p: Pair)
  {
    && 0 <= i < j < |online| && PairKey(online[i], online[j]) == p
    && Introduces(self, online[i], online[j], last, now, window)
  }

  lemma {:induction false} RowIsExact(self: NodeId, online: seq<Peer>, i: nat, j: nat, last: map<Pair, int>, now: int, window: int, p: Pair)
    requires i < j <= |online|
    ensures p in RowOf(self, online, i, j, last, now, window) <==>
              exists y :: i < y < j && IsIntroduced(self, online, last, now, window, i, y, p)
  {
    if j > i + 1 {
      RowIsExact(self, online, i, j - 1, last, now, window, p);
      assert p in RowOf(self, online, i, j, last, now, window) <==>
          p in RowOf(self, online, i, j - 1, last, now, window) || IsIntroduced(self, online, last, now, window, i, j - 1, p);
    }
  }

  lemma {:induction false} RowsAreExact(self: NodeId, online: seq<Peer>, i: nat, last: map<Pair, int>, now: int, window: int, p: Pair)
    requires i <= |online|
    ensures p in RowsUpTo(self, online, i, last, now, window) <==>
              exists x, y :: 0 <= x < i && IsIntroduced(self, online, last, now, window, x, y, p)
  {
    if i > 0 {
      RowsAreExact(self, online, i - 1, last, now, window, p);
      RowIsExact(self, online, i - 1, |online|, last, now, window, p);
    }
  }

  /** Two reachable peers, the smaller id first: neither is linked with the other, pairing with it or
      refused by it, their last introduction is long enough ago, and no common neighbour has a
      smaller id than this node. */
  predicate IsDue(self: NodeId, a: Peer, b: Peer, last: map<Pair, int>, now: int, window: int, p: Pair)
  {
    && a.reachable && b.reachable && StringLess(a.id, b.id) && p == (a.id, b.id)
    && b.id !in a.linked && a.id !in b.linked && b.id !in a.pairing && a.id !in b.pairing
    && b.id !in a.blocked && a.id !in b.blocked
    && now - (if p in last then last[p] else 0) >= window
    && forall id | id in a.linked && id in b.linked :: !StringLess(id, self)
  }

  lemma IntroducedIsDue(self: NodeId, x: Peer, y: Peer, last: map<Pair, int>, now: int, window: int, p: Pair)
    requires x.reachable && y.reachable && x.id != y.id
    ensures Introduces(self, x, y, last, now, window) && PairKey(x, y) == p <==>
            IsDue(self, InOrder(x, y).0, InOrder(x, y).1, last, now, window, p)
  {
    StringLessTotal(x.id, y.id);
  }

  lemma DueInOrder(self: NodeId, a: Peer, b: Peer, last: map<Pair, int>, now: int, window: int, p: Pair)
    requires IsDue(self, a, b, last, now, window, p)
    ensures a.id != b.id && InOrder(a, b) == (a, b) && InOrder(b, a) == (a, b)
  {
    StringLessTotal(a.id, b.id);
    StringLessTotal(a.id, a.id);
  }

  lemma RoundIsDue(self: NodeId, online: seq<Peer>, last: map<Pair, int>, now: int, window: int, p: Pair) returns (a: Peer, b: Peer)
    requires DistinctIds(online) && (forall q | q in online :: q.reachable) && p in RowsUpTo(self, online, |online|, last, now, window)
    ensures a in online && b in online && IsDue(self, a, b, last, now, window, p)
  {
    RowsAreExact(self, online, |online|, last, now, window, p);
    var x, y :| 0 <= x < |online| && IsIntroduced(self, online, last, now, window, x, y, p);
    assert online[x] in online && online[y] in online;
    IntroducedIsDue(self, online[x], online[y], last, now, window, p);
    a, b := InOrder(online[x], online[y]).0, InOrder(online[x], online[y]).1;
  }

  lemma DueIsInRound(self: NodeId, online: seq<Peer>, last: map<Pair, int>, now: int, window: int, p: Pair, a: Peer, b: Peer)
    requires a in online && b in online && IsDue(self, a, b, last, now, window, p)
    ensures p in RowsUpTo(self, online, |online|, last, now, window)
  {
    var i :| 0 <= i < |online| && online[i] == a;
    var j :| 0 <= j < |online| && online[j] == b;
    DueInOrder(self, a, b, last, now, window, p);
    IntroducedIsDue(self, a, b, last, now, window, p);
    IntroducedIsDue(self, b, a, last, now, window, p);
    RowsAreExact(self, online, |online|, last, now, window, p);
    assert i != j;
    if i < j {
      assert IsIntroduced(self, online, last, now, window, i, j, p);
    } else {
      assert IsIntroduced(self, online, last, now, window, j, i, p);
    }
  }

  /** A whole round introduces exactly the pairs that are due. */
  lemma RoundIsExact(self: NodeId, peers: seq<Peer>, last: map<Pair, int>, now: int, window: int, p: Pair)
    requires DistinctIds(Usable(peers))
    ensures p in RowsUpTo(self, Usable(peers), |Usable(peers)|, last, now, window) <==>
            exists a, b {:trigger IsDue(self, a, b, last, now, window, p)} :: a in peers && b in peers && IsDue(self, a, b, last, now, window, p)
  {
    var online := Usable(peers);
    if p in RowsUpTo(self, online, |online|, last, now, window) {
      var a, b := RoundIsDue(self, online, last, now, window, p);
      assert a in peers && b in peers && IsDue(self, a, b, last, now, window, p);
    }
    if a, b :| a in peers && b in peers && IsDue(self, a, b, last, now, window, p) {
      DueIsInRound(self, online, last, now, window, p, a, b);
    }
  }

  /** Different peers make different pairs. */
  lemma PairsDiffer(online: seq<Peer>, i: nat, j: nat, x: nat, y: nat)
    requires DistinctIds(online) && i < j < |online| && x < y < |online| && (x != i || y != j)
    ensures PairKey(online[i], online[j]) != PairKey(online[x], online[y])
  {
  }

  lemma PairIsNew(self: NodeId, online: seq<Peer>, i: nat, j: nat, last: map<Pair, int>, now: int, window: int)
    requires DistinctIds(online) && i < j < |online|
    ensures PairKey(online[i], online[j]) !in RowsUpTo(self, online, i, last, now, window) + RowOf(self, online, i, j, last, now, window)
  {
    var p := PairKey(online[i], online[j]);
    RowsAreExact(self, online, i, last, now, window, p);
    RowIsExact(self, online, i, j, last, now, window, p);
    forall x, y | IsIntroduced(self, online, last, now, window, x, y, p) ensures x == i && y == j {
      if x != i || y != j { PairsDiffer(online, i, j, x, y); }
    }
  }

  predicate NoRepeats(pairs: seq<Pair>)
  {
    forall i, j | 0 <= i < j < |pairs| :: pairs[i] != pairs[j]
  }

  lemma MoreWithoutRepeat(rows: seq<Pair>, row: seq<Pair>, key: Pair)
    requires NoRepeats(rows + row) && key !in rows + row
    ensures NoRepeats(rows + (row + [key]))
  {
    assert rows + (row + [key]) == (rows + row) + [key];
    forall i | 0 <= i < |rows + row| ensures (rows + row)[i] != key {
      assert (rows + row)[i] in rows + row;
    }
  }

  lemma {:induction false} RowRepeatsNothing(self: NodeId, online: seq<Peer>, i: nat, j: nat, last: map<Pair, int>, now: int, window: int)
    requires DistinctIds(online) && i < j <= |online| && NoRepeats(RowsUpTo(self, online, i, last, now, window))
    ensures NoRepeats(RowsUpTo(self, online, i, last, now, window) + RowOf(self, online, i, j, last, now, window))
    decreases j
  {
    var rows := RowsUpTo(self, online, i, last, now, window);
    if j == i + 1 {
      assert rows + [] == rows;
    } else {
      RowRepeatsNothing(self, online, i, j - 1, last, now, window);
      PairIsNew(self, online, i, j - 1, last, now, window);
      MoreWithoutRepeat(rows, RowOf(self, online, i, j - 1, last, now, window), PairKey(online[i], online[j - 1]));
    }
  }

  /** A round introduces no pair twice. */
  lemma {:induction false} NothingTwice(self: NodeId, online: seq<Peer>, i: nat, last: map<Pair, int>, now: int, window: int)
    requires DistinctIds(online) && i <= |online|
    ensures NoRepeats(RowsUpTo(self, online, i, last, now, window))
  {
    if i > 0 {
      NothingTwice(self, online, i - 1, last, now, window);
      RowRepeatsNothing(self, online, i - 1, |online|, last, now, window);
    }
  }

  /** `last` with every pair of `introduced` noted at `now`. */
  ghost predicate NotedAt(before: map<Pair, int>, after: map<Pair, int>, introduced: seq<Pair>, now: int)
  {
    forall p :: LastIntroduced(after, p) == if p in introduced then now else LastIntroduced(before, p)
  }

  lemma NewPairIsUntouched(before: map<Pair, int>, after: map<Pair, int>, introduced: seq<Pair>, now: int, p: Pair)
    requires NotedAt(before, after, introduced, now) && p !in introduced
    ensures LastIntroduced(after, p) == LastIntroduced(before, p)
  {
  }

  lemma NotedMore(a: map<Pair, int>, b: map<Pair, int>, c: map<Pair, int>, rows: seq<Pair>, more: seq<Pair>, now: int)
    requires NotedAt(a, b, rows, now) && NotedAt(b, c, more, now)
    ensures NotedAt(a, c, rows + more, now)
  {
  }

  lemma RowMore(self: NodeId, online: seq<Peer>, i: nat, j: nat, last: map<Pair, int>, now: int, window: int, before: seq<Pair>)
    requires i < j < |online|
    ensures var more := if Introduces(self, online[i], online[j], last, now, window) then [PairKey(online[i], online[j])] else [];
            before + RowOf(self, online, i, j, last, now, window) + more == before + RowOf(self, online, i, j + 1, last, now, window)
  {
  }

  class MeshNode {
    const self: NodeId
    var lastIntroduced: map<Pair, int>

    constructor (id: NodeId)
      ensures self == id && lastIntroduced == map[]
    {
      self := id;
      lastIntroduced := map[];
    }

    /** Introduces the two when it is due: notes the time and adds the pair. */
    method Consider(host: Peer, joiner: Peer, now: int, window: int) returns (introduced: seq<Pair>)
      modifies this
      ensures var due := KnownApart(host, joiner) && Designated(self, host, joiner)
                         && now - LastIntroduced(old(lastIntroduced), (host.id, joiner.id)) >= window;
              introduced == if due then [(host.id, joiner.id)] else []
      ensures NotedAt(old(lastIntroduced), lastIntroduced, introduced, now)
    {
      introduced := [];
      if !KnownApart(host, joiner) { return; }
      var key := (host.id, joiner.id);
      if now - LastIntroduced(lastIntroduced, key) < window { return; }
      if !Designated(self, host, joiner) { return; }
      lastIntroduced := lastIntroduced[key := now];
      introduced := [key];
    }

    /** One round: the pairs introduced, in order. Whether the introduced nodes answer changes
        nothing here. */
    method MeshTick(peers: seq<Peer>, now: int, window: int) returns (introduced: seq<Pair>)
      requires DistinctIds(Usable(peers))
      modifies this
      ensures introduced == RowsUpTo(self, Usable(peers), |Usable(peers)|, old(lastIntroduced), now, window)
      ensures forall p :: p in introduced <==>
                exists a, b {:trigger IsDue(self, a, b, old(lastIntroduced), now, window, p)} ::
                  a in peers && b in peers && IsDue(self, a, b, old(lastIntroduced), now, window, p)
      ensures NotedAt(old(lastIntroduced), lastIntroduced, introduced, now)
    {
      forall p ensures p in RowsUpTo(self, Usable(peers), |Usable(peers)|, lastIntroduced, now, window) <==>
                exists a, b {:trigger IsDue(self, a, b, lastIntroduced, now, window, p)} ::
                  a in peers && b in peers && IsDue(self, a, b, lastIntroduced, now, window, p) {
        RoundIsExact(self, peers, lastIntroduced, now, window, p);
      }
      var online := Usable(peers);
      introduced := [];
      var i := 0;
      while i < |online|
        invariant 0 <= i <= |online|
        invariant introduced == RowsUpTo(self, online, i, old(lastIntroduced), now, window)
        invariant NotedAt(old(lastIntroduced), lastIntroduced, introduced, now)
      {
        introduced := IntroduceRow(online, i, now, window, introduced, old(lastIntroduced));
        i := i + 1;
      }
    }

    /** The inner loop: peer `i` with every peer after it. */
    method IntroduceRow(online: seq<Peer>, i: nat, now: int, window: int, before: seq<Pair>, ghost last: map<Pair, int>)
      returns (introduced: seq<Pair>)
      requires DistinctIds(online) && i < |online| && before == RowsUpTo(self, online, i, last, now, window)
      requires NotedAt(last, lastIntroduced, before, now)
      modifies this
      ensures introduced == before + RowOf(self, online, i, |online|, last, now, window)
      ensures NotedAt(last, lastIntroduced, introduced, now)
    {
      introduced := before;
      var j := i + 1;
      while j < |online|
        invariant i < j <= |online|
        invariant introduced == before + RowOf(self, online, i, j, last, now, window)
        invariant NotedAt(last, lastIntroduced, introduced, now)
      {
        PairIsNew(self, online, i, j, last, now, window);
        var (host, joiner) := InOrder(online[i], online[j]);
        ghost var was := lastIntroduced;
        NewPairIsUntouched(last, was, introduced, now, (host.id, joiner.id));
        var more := Consider(host, joiner, now, window);
        NotedMore(last, was, lastIntroduced, introduced, more, now);
        RowMore(self, online, i, j, last, now, window, before);
        introduced := introduced + more;
        j := j + 1;
      }
    }
  }

  // ─── All nodes together ──────────────────────────────────────────────────────

  /** The links of a cluster, seen from both ends. */
  datatype Graph = Graph(nodes: set<NodeId>, links: set<Pair>)

  ghost predicate WellFormed(g: Graph)
  {
    forall a, b {:trigger (a, b) in g.links} | (a, b) in g.links ::
      a in g.nodes && b in g.nodes && a != b && (b, a) in g.links
  }

  predicate Linked(g: Graph, a: NodeId, b: NodeId) { (a, b) in g.links }

  function Neighbours(g: Graph, n: NodeId): set<NodeId>
  {
    set m | m in g.nodes && Linked(g, n, m)
  }

  /** A peer as everybody sees it when all nodes are online, nothing is refused and no pairing
      is open. */
  function Seen(g: Graph, n: NodeId): Peer
  {
    Peer(n, true, Neighbours(g, n), {}, {})
  }

  /** Node `n` introduces `a` and `b` in its next round (no earlier attempt is recent). */
  predicate Introducer(g: Graph, n: NodeId, a: NodeId, b: NodeId)
  {
    n in g.nodes && Linked(g, n, a) && Linked(g, n, b) && a != b && Introduces(n, Seen(g, a), Seen(g, b), map[], 0, 0)
  }

  predicate CommonNeighbour(g: Graph, n: NodeId, a: NodeId, b: NodeId)
  {
    n in g.nodes && Linked(g, n, a) && Linked(g, n, b)
  }

  lemma {:induction false} LeastExists(ids: set<NodeId>) returns (least: NodeId)
    requires ids != {}
    ensures least in ids && forall id | id in ids :: !StringLess(id, least)
    decreases |ids|
  {
    var some :| some in ids;
    StringLessTotal(some, some);
    if ids == {some} {
      least := some;
    } else {
      var rest := LeastExists(ids - {some});
      StringLessTotal(some, rest);
      least := if StringLess(some, rest) then some else rest;
      if least == some {
        forall id | id in ids ensures !StringLess(id, some) {
          if StringLess(id, some) { StringLessTransitive(id, some, rest); }
        }
      }
    }
  }

  /** Two unlinked nodes are introduced by exactly one node when they have a neighbour in common,
      and by none otherwise. */
  lemma ExactlyOneIntroducer(g: Graph, a: NodeId, b: NodeId)
    requires WellFormed(g) && a in g.nodes && b in g.nodes && a != b && !Linked(g, a, b)
    ensures (exists n :: Introducer(g, n, a, b)) <==> exists n :: CommonNeighbour(g, n, a, b)
    ensures forall n, m | Introducer(g, n, a, b) && Introducer(g, m, a, b) :: n == m
  {
    StringLessTotal(a, b);
    var common := Neighbours(g, a) * Neighbours(g, b);
    forall n ensures CommonNeighbour(g, n, a, b) <==> n in common {
      assert Linked(g, n, a) <==> Linked(g, a, n);
      assert Linked(g, n, b) <==> Linked(g, b, n);
    }
    if n :| CommonNeighbour(g, n, a, b) {
      var least := LeastExists(common);
      assert KnownApart(Seen(g, a), Seen(g, b)) by { assert (a, b) in g.links <==> (b, a) in g.links; }
      assert Introducer(g, least, a, b);
    }
    forall n | Introducer(g, n, a, b) ensures CommonNeighbour(g, n, a, b) {
    }
    forall n, m | Introducer(g, n, a, b) && Introducer(g, m, a, b) ensures n == m {
      assert CommonNeighbour(g, n, a, b) && CommonNeighbour(g, m, a, b);
      StringLessTotal(n, m);
    }
  }

  // ─── Until everybody is linked ───────────────────────────────────────────────

  ghost predicate IsPath(g: Graph, path: seq<NodeId>)
  {
    && |path| > 0 && path[0] in g.nodes
    && forall i {:trigger Hop(g, path, i)} | 0 <= i < |path| - 1 :: Hop(g, path, i)
  }

  predicate Hop(g: Graph, path: seq<NodeId>, i: int)
    requires 0 <= i < |path| - 1
  {
    Linked(g, path[i], path[i + 1])
  }

  ghost predicate Reaches(g: Graph, a: NodeId, b: NodeId, path: seq<NodeId>)
  {
    IsPath(g, path) && path[0] == a && path[|path| - 1] == b
  }

  ghost predicate Connected(g: Graph)
  {
    forall a, b {:trigger HasPath(g, a, b)} | a in g.nodes && b in g.nodes :: HasPath(g, a, b)
  }

  ghost predicate HasPath(g: Graph, a: NodeId, b: NodeId)
  {
    exists path :: Reaches(g, a, b, path)
  }

  ghost predicate Complete(g: Graph)
  {
    forall a, b | a in g.nodes && b in g.nodes && a != b :: Linked(g, a, b)
  }

  /** Along a path from `a` to an unlinked node, some node unlinked with `a` follows a linked one. */
  lemma {:induction false} UnlinkedPairWithCommonNeighbour(g: Graph, path: seq<NodeId>, a: NodeId, b: NodeId)
    returns (n: NodeId, c: NodeId)
    requires WellFormed(g) && Reaches(g, a, b, path) && a != b && !Linked(g, a, b)
    ensures c in g.nodes && c != a && !Linked(g, a, c) && CommonNeighbour(g, n, a, c)
    decreases |path|
  {
    var k := |path| - 2;
    var before := path[k];
    assert Hop(g, path, k);
    if before != a && !Linked(g, a, before) {
      var shorter := path[..k + 1];
      forall i | 0 <= i < |shorter| - 1 ensures Hop(g, shorter, i) {
        assert Hop(g, path, i);
      }
      n, c := UnlinkedPairWithCommonNeighbour(g, shorter, a, before);
    } else {
      n, c := before, b;
    }
  }

  /** An introduction that succeeds adds the link. */
  ghost predicate Step(g: Graph, g': Graph)
  {
    exists n, a, b :: StepBy(g, g', n, a, b)
  }

  ghost predicate StepBy(g: Graph, g': Graph, n: NodeId, a: NodeId, b: NodeId)
  {
    Introducer(g, n, a, b) && g' == g.(links := g.links + {(a, b), (b, a)})
  }

  function Missing(g: Graph): set<Pair>
  {
    set a, b | a in g.nodes && b in g.nodes && a != b && (a, b) !in g.links :: (a, b)
  }

  lemma StepKeepsGraph(g: Graph, g': Graph)
    requires WellFormed(g) && Step(g, g')
    ensures WellFormed(g') && g'.nodes == g.nodes && g.links <= g'.links
    ensures |Missing(g')| < |Missing(g)| && !Complete(g)
  {
    var n, a, b :| StepBy(g, g', n, a, b);
    IntroducedAreApart(g, n, a, b);
    LinkAdded(g, g', a, b);
  }

  lemma IntroducedAreApart(g: Graph, n: NodeId, a: NodeId, b: NodeId)
    requires WellFormed(g) && Introducer(g, n, a, b)
    ensures a in g.nodes && b in g.nodes && a != b && (a, b) !in g.links
  {
    assert (n, a) in g.links && (n, b) in g.links;
    assert b !in Neighbours(g, a);
  }

  lemma LinkAdded(g: Graph, g': Graph, a: NodeId, b: NodeId)
    requires WellFormed(g) && a in g.nodes && b in g.nodes && a != b && (a, b) !in g.links
    requires g' == g.(links := g.links + {(a, b), (b, a)})
    ensures WellFormed(g') && |Missing(g')| < |Missing(g)| && !Complete(g)
  {
    assert (a, b) in Missing(g) && (a, b) !in Missing(g');
    Smaller(Missing(g'), Missing(g));
  }

  lemma Smaller<T>(a: set<T>, b: set<T>)
    requires a < b
    ensures |a| < |b|
  {
    assert b == a + (b - a);
  }

  lemma StepKeepsConnected(g: Graph, g': Graph)
    requires Connected(g) && g'.nodes == g.nodes && g.links <= g'.links
    ensures Connected(g')
  {
    forall a, b | a in g'.nodes && b in g'.nodes ensures HasPath(g', a, b) {
      assert HasPath(g, a, b);
      var path :| Reaches(g, a, b, path);
      forall i | 0 <= i < |path| - 1 ensures Hop(g', path, i) {
        assert Hop(g, path, i);
      }
      assert Reaches(g', a, b, path);
    }
  }

  /** While some link is missing in a connected graph, somebody introduces a pair. */
  lemma SomebodyIntroduces(g: Graph) returns (g': Graph)
    requires WellFormed(g) && Connected(g) && !Complete(g)
    ensures Step(g, g')
  {
    var a, b :| a in g.nodes && b in g.nodes && a != b && !Linked(g, a, b);
    assert HasPath(g, a, b);
    var path :| Reaches(g, a, b, path);
    var n, c := UnlinkedPairWithCommonNeighbour(g, path, a, b);
    ExactlyOneIntroducer(g, a, c);
    var m :| Introducer(g, m, a, c);
    g' := g.(links := g.links + {(a, c), (c, a)});
    assert StepBy(g, g', m, a, c);
  }

  ghost predicate IsRun(run: seq<Graph>)
  {
    |run| > 0 && forall i {:trigger StepAt(run, i)} | 0 <= i < |run| - 1 :: StepAt(run, i)
  }

  ghost predicate StepAt(run: seq<Graph>, i: int)
    requires 0 <= i < |run| - 1
  {
    Step(run[i], run[i + 1])
  }

  lemma {:induction false} RunIsBounded(run: seq<Graph>, i: nat)
    requires IsRun(run) && WellFormed(run[0]) && Connected(run[0]) && i < |run|
    ensures WellFormed(run[i]) && Connected(run[i]) && run[i].nodes == run[0].nodes
    ensures i + |Missing(run[i])| <= |Missing(run[0])|
  {
    if i > 0 {
      RunIsBounded(run, i - 1);
      assert StepAt(run, i - 1);
      StepKeepsGraph(run[i - 1], run[i]);
      StepKeepsConnected(run[i - 1], run[i]);
    }
  }

  /** Nobody introduces anybody any more. */
  ghost predicate Settled(g: Graph)
  {
    forall g' {:trigger Step(g, g')} :: !Step(g, g')
  }

  /** However the introductions happen to be ordered, they come to an end, with no more of them
      than links were missing, and they end exactly when every node is linked with every other. */
  lemma MeshCompletes(run: seq<Graph>)
    requires IsRun(run) && WellFormed(run[0]) && Connected(run[0])
    ensures |run| - 1 <= |Missing(run[0])|
    ensures Settled(run[|run| - 1]) <==> Complete(run[|run| - 1])
    ensures run[|run| - 1].nodes == run[0].nodes
  {
    RunIsBounded(run, |run| - 1);
    var last := run[|run| - 1];
    if !Complete(last) {
      var more := SomebodyIntroduces(last);
    } else {
      forall g' | Step(last, g') ensures false {
        StepKeepsGraph(last, g');
      }
    }
  }
}
