/** Updates node by node, without a leader (src/cluster/rollout.ts,
    src/cluster/updates.ts): the order of the nodes, what one node decides from what it knows,
    and what follows for the whole cluster when every node acts on old knowledge. */
module Rollout {
  import opened Versions

  type NodeId = string

  /** The SHA-256 of the target and a node's id, for one fixed target. */
  type Rank = NodeId -> string

  // ─── The order ───────────────────────────────────────────────────────────────

  predicate Before(rank: Rank, a: NodeId, b: NodeId)
  {
    if StringLess(rank(a), rank(b)) then true
    else if StringLess(rank(b), rank(a)) then false
    else StringLess(a, b)
  }

  function InsertInOrder(rank: Rank, id: NodeId, order: seq<NodeId>): (r: seq<NodeId>)
    ensures forall x :: x in r <==> x == id || x in order
  {
    if order == [] || Before(rank, id, order[0]) then [id] + order
    else [order[0]] + InsertInOrder(rank, id, order[1..])
  }

  /** The ids, sorted. */
  function RolloutOrder(rank: Rank, ids: seq<NodeId>): (order: seq<NodeId>)
    ensures forall x :: x in order <==> x in ids
  {
    if ids == [] then [] else InsertInOrder(rank, ids[0], RolloutOrder(rank, ids[1..]))
  }

  predicate Ordered(rank: Rank, order: seq<NodeId>)
  {
    forall i, j | 0 <= i < j < |order| :: Before(rank, order[i], order[j])
  }

  predicate Distinct(ids: seq<NodeId>)
  {
    forall i, j | 0 <= i < j < |ids| :: ids[i] != ids[j]
  }

  /** The smaller rank comes first, and of equal ranks the smaller id. */
  lemma BeforeMeans(rank: Rank)
    ensures forall a, b {:trigger Before(rank, a, b)} ::
              Before(rank, a, b) <==> StringLess(rank(a), rank(b)) || (rank(a) == rank(b) && StringLess(a, b))
  {
    forall a, b ensures Before(rank, a, b) <==> StringLess(rank(a), rank(b)) || (rank(a) == rank(b) && StringLess(a, b)) {
      StringLessTotal(rank(a), rank(b));
    }
  }

  lemma BeforeIsStrictOrder(rank: Rank, a: NodeId, b: NodeId, c: NodeId)
    ensures a != b ==> Before(rank, a, b) || Before(rank, b, a)
    ensures !(Before(rank, a, b) && Before(rank, b, a))
    ensures Before(rank, a, b) && Before(rank, b, c) ==> Before(rank, a, c)
  {
    StringLessTotal(rank(a), rank(b));
    StringLessTotal(rank(b), rank(c));
    StringLessTotal(rank(a), rank(c));
    StringLessTotal(a, b);
    if Before(rank, a, b) && Before(rank, b, c) {
      if StringLess(rank(a), rank(b)) && StringLess(rank(b), rank(c)) {
        StringLessTransitive(rank(a), rank(b), rank(c));
      }
      if StringLess(a, b) && StringLess(b, c) {
        StringLessTransitive(a, b, c);
      }
    }
  }

  lemma {:induction false} InsertAdds(rank: Rank, id: NodeId, order: seq<NodeId>)
    ensures multiset(InsertInOrder(rank, id, order)) == multiset(order) + multiset{id}
  {
    if order == [] {
    } else if Before(rank, id, order[0]) {
      assert multiset([id] + order) == multiset{id} + multiset(order);
    } else {
      InsertAdds(rank, id, order[1..]);
      assert order == [order[0]] + order[1..];
    }
  }

  lemma PrependKeepsOrder(rank: Rank, first: NodeId, rest: seq<NodeId>)
    requires Ordered(rank, rest) && forall x | x in rest :: Before(rank, first, x)
    ensures Ordered(rank, [first] + rest)
  {
  }

  lemma TailIsOrdered(rank: Rank, order: seq<NodeId>)
    requires Ordered(rank, order) && order != []
    ensures Ordered(rank, order[1..]) && forall x | x in order[1..] :: Before(rank, order[0], x)
  {
  }

  lemma {:induction false} InsertKeepsOrder(rank: Rank, id: NodeId, order: seq<NodeId>)
    requires Ordered(rank, order) && id !in order
    ensures Ordered(rank, InsertInOrder(rank, id, order))
  {
    if order != [] {
      TailIsOrdered(rank, order);
      if Before(rank, id, order[0]) {
        forall x | x in order ensures Before(rank, id, x) {
          BeforeIsStrictOrder(rank, id, order[0], x);
        }
        PrependKeepsOrder(rank, id, order);
      } else {
        InsertKeepsOrder(rank, id, order[1..]);
        BeforeIsStrictOrder(rank, id, order[0], id);
        PrependKeepsOrder(rank, order[0], InsertInOrder(rank, id, order[1..]));
      }
    }
  }

  /** The order holds exactly the given ids, each before those that follow. */
  lemma {:induction false} RolloutOrderSorts(rank: Rank, ids: seq<NodeId>)
    requires Distinct(ids)
    ensures Ordered(rank, RolloutOrder(rank, ids))
    ensures var order := RolloutOrder(rank, ids);
            forall i, j | 0 <= i < j < |order| ::
              StringLess(rank(order[i]), rank(order[j])) || (rank(order[i]) == rank(order[j]) && StringLess(order[i], order[j]))
    ensures multiset(RolloutOrder(rank, ids)) == multiset(ids)
  {
    if ids != [] {
      RolloutOrderSorts(rank, ids[1..]);
      assert ids == [ids[0]] + ids[1..];
      InsertKeepsOrder(rank, ids[0], RolloutOrder(rank, ids[1..]));
      InsertAdds(rank, ids[0], RolloutOrder(rank, ids[1..]));
      BeforeMeans(rank);
    }
  }

  lemma SameLength(a: seq<NodeId>, b: seq<NodeId>)
    requires multiset(a) == multiset(b)
    ensures |a| == |b|
  {
    assert |multiset(a)| == |a| && |multiset(b)| == |b|;
  }

  lemma WithoutFirst(a: seq<NodeId>)
    requires a != []
    ensures multiset(a[1..]) == multiset(a) - multiset{a[0]}
  {
    assert a == [a[0]] + a[1..];
  }

  lemma FirstIsLeast(rank: Rank, a: seq<NodeId>, b: seq<NodeId>)
    requires Ordered(rank, a) && multiset(a) == multiset(b) && a != [] && b != []
    ensures a[0] == b[0] || Before(rank, a[0], b[0])
  {
    assert b[0] in multiset(a);
  }

  lemma FirstsAgree(rank: Rank, a: seq<NodeId>, b: seq<NodeId>)
    requires Ordered(rank, a) && Ordered(rank, b) && multiset(a) == multiset(b) && a != [] && b != []
    ensures a[0] == b[0] && multiset(a[1..]) == multiset(b[1..])
  {
    FirstIsLeast(rank, a, b);
    FirstIsLeast(rank, b, a);
    BeforeIsStrictOrder(rank, a[0], b[0], a[0]);
    WithoutFirst(a);
    WithoutFirst(b);
  }

  lemma {:induction false} OrderIsUnique(rank: Rank, a: seq<NodeId>, b: seq<NodeId>)
    requires Ordered(rank, a) && Ordered(rank, b) && multiset(a) == multiset(b)
    ensures a == b
  {
    SameLength(a, b);
    if a != [] {
      FirstsAgree(rank, a, b);
      TailIsOrdered(rank, a);
      TailIsOrdered(rank, b);
      OrderIsUnique(rank, a[1..], b[1..]);
      assert a == [a[0]] + a[1..] && b == [b[0]] + b[1..];
    }
  }

  /** All nodes find one order, however each lists its peers. */
  lemma EveryNodeFindsTheSameOrder(rank: Rank, a: seq<NodeId>, b: seq<NodeId>)
    requires Distinct(a) && Distinct(b) && multiset(a) == multiset(b)
    ensures RolloutOrder(rank, a) == RolloutOrder(rank, b)
  {
    RolloutOrderSorts(rank, a);
    RolloutOrderSorts(rank, b);
    OrderIsUnique(rank, RolloutOrder(rank, a), RolloutOrder(rank, b));
  }

  // ─── One node's decision ─────────────────────────────────────────────────────

  datatype Node = Node(commit: string, selfUpdating: bool, online: bool, offlineForMs: int,
                       failed: Option<string>, updating: bool)

  datatype NodeState = IsDone | IsUpdating | IsFailed | IsManual | IsSkipped | IsWaiting | IsNext

  datatype Action = NoAction | Update | Wait(on: NodeId) | Blocked(failed: NodeId) | Manual | FailedHere

  type Nodes = map<NodeId, Node>

  /** What a node is by itself; `IsNext` stands for one that could update. */
  function OwnState(n: Node, target: string, skipOfflineMs: int): NodeState
  {
    if n.commit == target then IsDone
    else if !n.selfUpdating then IsManual
    else if n.failed == Some(target) then IsFailed
    else if n.updating then IsUpdating
    else if !n.online && n.offlineForMs >= skipOfflineMs then IsSkipped
    else IsNext
  }

  predicate HoldsUpOthers(n: Node, target: string, skipOfflineMs: int)
  {
    OwnState(n, target, skipOfflineMs) in {IsFailed, IsUpdating, IsNext}
  }

  /** The first node in the order that those after it wait for. */
  function FirstHoldUp(order: seq<NodeId>, nodes: Nodes, target: string, skipOfflineMs: int): (first: Option<NodeId>)
    requires forall id | id in order :: id in nodes
    ensures first.Some? ==> first.value in order && HoldsUpOthers(nodes[first.value], target, skipOfflineMs)
  {
    if order == [] then None
    else
      var before := order[..|order| - 1];
      var id := order[|order| - 1];
      var first := FirstHoldUp(before, nodes, target, skipOfflineMs);
      if first.Some? then first
      else if HoldsUpOthers(nodes[id], target, skipOfflineMs) then Some(id) else None
  }

  /** The state listed for the node at position `k`. */
  function ListedState(order: seq<NodeId>, k: nat, nodes: Nodes, target: string, skipOfflineMs: int): NodeState
    requires k < |order| && forall id | id in order :: id in nodes
  {
    var own := OwnState(nodes[order[k]], target, skipOfflineMs);
    if own == IsNext && FirstHoldUp(order[..k], nodes, target, skipOfflineMs).Some? then IsWaiting else own
  }

  function ActionOf(order: seq<NodeId>, nodes: Nodes, self: NodeId, target: string, skipOfflineMs: int): Action
    requires forall id | id in order :: id in nodes
  {
    if self !in order then NoAction
    else
      var own := OwnState(nodes[self], target, skipOfflineMs);
      if own == IsDone || own == IsUpdating then NoAction
      else if own == IsManual then Manual
      else if own == IsFailed then FailedHere
      else
        var first := FirstHoldUp(order, nodes, target, skipOfflineMs);
        if first.None? || first.value == self then Update
        else if OwnState(nodes[first.value], target, skipOfflineMs) == IsFailed then Blocked(first.value)
        else Wait(first.value)
  }

  /** What `blocking` records about the first hold-up: whether that node failed, and its id. */
  function Blocking(order: seq<NodeId>, nodes: Nodes, target: string, skipOfflineMs: int): Option<(bool, NodeId)>
    requires forall id | id in order :: id in nodes
  {
    match FirstHoldUp(order, nodes, target, skipOfflineMs)
    case None => None
    case Some(id) => Some((OwnState(nodes[id], target, skipOfflineMs) == IsFailed, id))
  }

  /** The state and the hold-up after one more node of the order. */
  method NextState(order: seq<NodeId>, k: nat, nodes: Nodes, blocking: Option<(bool, NodeId)>, target: string, skipOfflineMs: int)
    returns (nodeState: NodeState, blocking': Option<(bool, NodeId)>)
    requires k < |order| && forall id | id in order :: id in nodes
    requires blocking == Blocking(order[..k], nodes, target, skipOfflineMs)
    ensures nodeState == ListedState(order, k, nodes, target, skipOfflineMs)
    ensures blocking' == Blocking(order[..k + 1], nodes, target, skipOfflineMs)
  {
    var id := order[k];
    var node := nodes[id];
    if node.commit == target { nodeState := IsDone; }
    else if !node.selfUpdating { nodeState := IsManual; }
    else if node.failed == Some(target) { nodeState := IsFailed; }
    else if node.updating { nodeState := IsUpdating; }
    else if !node.online && node.offlineForMs >= skipOfflineMs { nodeState := IsSkipped; }
    else { nodeState := if blocking.Some? then IsWaiting else IsNext; }
    blocking' := blocking;
    if blocking.None? && nodeState == IsFailed { blocking' := Some((true, id)); }
    else if blocking.None? && (nodeState == IsUpdating || nodeState == IsNext) { blocking' := Some((false, id)); }
    assert order[..k + 1][..k] == order[..k];
  }

  method DecideRollout(rank: Rank, ids: seq<NodeId>, nodes: Nodes, self: NodeId, target: string, skipOfflineMs: int)
    returns (action: Action, states: seq<NodeState>)
    requires forall id :: id in nodes <==> id in ids
    ensures action == ActionOf(RolloutOrder(rank, ids), nodes, self, target, skipOfflineMs)
    ensures var order := RolloutOrder(rank, ids);
            |states| == |order| && forall k | 0 <= k < |order| :: states[k] == ListedState(order, k, nodes, target, skipOfflineMs)
  {
    var order := RolloutOrder(rank, ids);
    states := [];
    var blocking: Option<(bool, NodeId)> := None;
    var k := 0;
    while k < |order|
      invariant 0 <= k <= |order| == |RolloutOrder(rank, ids)| && |states| == k
      invariant forall i | 0 <= i < k :: states[i] == ListedState(order, i, nodes, target, skipOfflineMs)
      invariant blocking == Blocking(order[..k], nodes, target, skipOfflineMs)
    {
      var nodeState;
      nodeState, blocking := NextState(order, k, nodes, blocking, target, skipOfflineMs);
      states := states + [nodeState];
      k := k + 1;
    }
    assert order[..|order|] == order;
    action := Conclude(order, states, nodes, self, blocking, target, skipOfflineMs);
  }

  /** What the node itself does, from its own listed state and the first hold-up. */
  method Conclude(order: seq<NodeId>, states: seq<NodeState>, nodes: Nodes, self: NodeId,
                  blocking: Option<(bool, NodeId)>, target: string, skipOfflineMs: int)
    returns (action: Action)
    requires forall id :: id in nodes <==> id in order
    requires |states| == |order| && forall k | 0 <= k < |order| :: states[k] == ListedState(order, k, nodes, target, skipOfflineMs)
    requires blocking == Blocking(order, nodes, target, skipOfflineMs)
    ensures action == ActionOf(order, nodes, self, target, skipOfflineMs)
  {
    if self !in nodes { return NoAction; }
    var at :| 0 <= at < |order| && order[at] == self;
    var own := states[at];
    if own == IsDone { return NoAction; }
    if own == IsManual { return Manual; }
    if own == IsFailed { return FailedHere; }
    if own == IsUpdating { return NoAction; }
    if blocking.Some? && blocking.value.1 != self {
      return if blocking.value.0 then Blocked(blocking.value.1) else Wait(blocking.value.1);
    }
    return Update;
  }

  lemma OrderedIsDistinct(rank: Rank, order: seq<NodeId>)
    requires Ordered(rank, order)
    ensures Distinct(order)
  {
    forall i, j | 0 <= i < j < |order| ensures order[i] != order[j] {
      BeforeIsStrictOrder(rank, order[i], order[j], order[i]);
    }
  }

  ghost predicate HoldsUpFirst(order: seq<NodeId>, nodes: Nodes, k: int, target: string, skipOfflineMs: int)
    requires forall id | id in order :: id in nodes
  {
    && 0 <= k < |order| && HoldsUpOthers(nodes[order[k]], target, skipOfflineMs)
    && forall i | 0 <= i < k :: !HoldsUpOthers(nodes[order[i]], target, skipOfflineMs)
  }

  lemma {:induction false} FirstHoldUpIsFirst(order: seq<NodeId>, nodes: Nodes, target: string, skipOfflineMs: int) returns (k: int)
    requires forall id | id in order :: id in nodes
    ensures match FirstHoldUp(order, nodes, target, skipOfflineMs)
            case None => forall i | 0 <= i < |order| :: !HoldsUpOthers(nodes[order[i]], target, skipOfflineMs)
            case Some(id) => HoldsUpFirst(order, nodes, k, target, skipOfflineMs) && order[k] == id
  {
    k := 0;
    if order != [] {
      var before := order[..|order| - 1];
      k := FirstHoldUpIsFirst(before, nodes, target, skipOfflineMs);
      assert forall i | 0 <= i < |order| - 1 :: order[i] == before[i];
      if FirstHoldUp(before, nodes, target, skipOfflineMs).None? { k := |order| - 1; }
    }
  }

  /** Done, updated by hand, or offline for so long that nobody waits for it. */
  predicate IsThrough(n: Node, target: string, skipOfflineMs: int)
  {
    || n.commit == target || !n.selfUpdating
    || (n.failed != Some(target) && !n.updating && !n.online && n.offlineForMs >= skipOfflineMs)
  }

  lemma OwnStateMeans(n: Node, target: string, skipOfflineMs: int)
    ensures var own := OwnState(n, target, skipOfflineMs); var late := n.commit != target && n.selfUpdating;
            && (own == IsDone <==> n.commit == target)
            && (own == IsManual <==> n.commit != target && !n.selfUpdating)
            && (own == IsFailed <==> late && n.failed == Some(target))
            && (own == IsUpdating <==> late && n.failed != Some(target) && n.updating)
            && (own == IsSkipped <==> late && n.failed != Some(target) && !n.updating && !n.online && n.offlineForMs >= skipOfflineMs)
            && (own == IsNext <==> !IsThrough(n, target, skipOfflineMs) && n.failed != Some(target) && !n.updating)
    ensures HoldsUpOthers(n, target, skipOfflineMs) <==> !IsThrough(n, target, skipOfflineMs)
  {
  }

  /** The first node of the order that is not through, if there is one. */
  ghost predicate IsFirstLate(order: seq<NodeId>, nodes: Nodes, k: int, target: string, skipOfflineMs: int)
    requires forall id | id in order :: id in nodes
  {
    && 0 <= k < |order| && !IsThrough(nodes[order[k]], target, skipOfflineMs)
    && forall i | 0 <= i < k :: IsThrough(nodes[order[i]], target, skipOfflineMs)
  }

  /** What a node does: nothing when it is done or updating, what its own state says when it is
      updated by hand or failed, and otherwise it updates, unless another node comes first that is not
      through; that one it waits for, or is blocked by if it failed. */
  lemma ActionMeans(order: seq<NodeId>, nodes: Nodes, self: NodeId, target: string, skipOfflineMs: int)
    requires (forall id | id in order :: id in nodes) && self in order
    ensures var action, n := ActionOf(order, nodes, self, target, skipOfflineMs), nodes[self];
            if n.commit == target then action == NoAction
            else if !n.selfUpdating then action == Manual
            else if n.failed == Some(target) then action == FailedHere
            else if n.updating then action == NoAction
            else && (forall k | IsFirstLate(order, nodes, k, target, skipOfflineMs) ::
                       action == if order[k] == self then Update
                                 else if nodes[order[k]].commit != target && nodes[order[k]].failed == Some(target) then Blocked(order[k])
                                 else Wait(order[k]))
                 && ((forall k | 0 <= k < |order| :: IsThrough(nodes[order[k]], target, skipOfflineMs)) ==> action == Update)
  {
    var k := FirstHoldUpIsFirst(order, nodes, target, skipOfflineMs);
    forall id | id in order
      ensures HoldsUpOthers(nodes[id], target, skipOfflineMs) <==> !IsThrough(nodes[id], target, skipOfflineMs)
      ensures !IsThrough(nodes[id], target, skipOfflineMs) ==>
                (OwnState(nodes[id], target, skipOfflineMs) == IsFailed <==> nodes[id].commit != target && nodes[id].failed == Some(target))
    {
      OwnStateMeans(nodes[id], target, skipOfflineMs);
    }
    forall m | IsFirstLate(order, nodes, m, target, skipOfflineMs) ensures HoldsUpFirst(order, nodes, m, target, skipOfflineMs) {
      assert forall i | 0 <= i < m :: order[i] in order;
    }
  }

  /** What is listed for a node: its own state, but waiting instead of next if a node before it is not
      through. */
  lemma ListedMeans(order: seq<NodeId>, k: nat, nodes: Nodes, target: string, skipOfflineMs: int)
    requires k < |order| && forall id | id in order :: id in nodes
    ensures var listed, own := ListedState(order, k, nodes, target, skipOfflineMs), OwnState(nodes[order[k]], target, skipOfflineMs);
            && (own != IsNext ==> listed == own)
            && (own == IsNext ==> listed == if forall i | 0 <= i < k :: IsThrough(nodes[order[i]], target, skipOfflineMs) then IsNext else IsWaiting)
  {
    var m := FirstHoldUpIsFirst(order[..k], nodes, target, skipOfflineMs);
    forall i | 0 <= i < k ensures HoldsUpOthers(nodes[order[i]], target, skipOfflineMs) <==> !IsThrough(nodes[order[i]], target, skipOfflineMs) {
      OwnStateMeans(nodes[order[i]], target, skipOfflineMs);
      assert order[..k][i] == order[i];
    }
  }

  /** A node that is online updates exactly when it could and every node before it is done,
      updated by hand or passed over as offline for too long. */
  lemma UpdatesExactlyWhenNext(order: seq<NodeId>, nodes: Nodes, at: nat, target: string, skipOfflineMs: int)
    requires (forall id | id in order :: id in nodes) && Distinct(order) && at < |order| && nodes[order[at]].online
    ensures ActionOf(order, nodes, order[at], target, skipOfflineMs) == Update <==>
              && OwnState(nodes[order[at]], target, skipOfflineMs) == IsNext
              && forall k | 0 <= k < at :: OwnState(nodes[order[k]], target, skipOfflineMs) in {IsDone, IsManual, IsSkipped}
    ensures ActionOf(order, nodes, order[at], target, skipOfflineMs) == Update <==>
              && nodes[order[at]].commit != target && nodes[order[at]].selfUpdating
              && nodes[order[at]].failed != Some(target) && !nodes[order[at]].updating
              && forall k | 0 <= k < at :: IsThrough(nodes[order[k]], target, skipOfflineMs)
  {
    OwnStateMeans(nodes[order[at]], target, skipOfflineMs);
    forall k | 0 <= k < at
      ensures OwnState(nodes[order[k]], target, skipOfflineMs) in {IsDone, IsManual, IsSkipped} <==> IsThrough(nodes[order[k]], target, skipOfflineMs)
    {
      OwnStateMeans(nodes[order[k]], target, skipOfflineMs);
    }
    var k := FirstHoldUpIsFirst(order, nodes, target, skipOfflineMs);
    if OwnState(nodes[order[at]], target, skipOfflineMs) == IsNext {
      assert HoldsUpOthers(nodes[order[at]], target, skipOfflineMs);
      NeverWaitsByItself(nodes, target, skipOfflineMs);
    }
  }

  lemma NeverWaitsByItself(nodes: Nodes, target: string, skipOfflineMs: int)
    ensures forall id | id in nodes ::
              !HoldsUpOthers(nodes[id], target, skipOfflineMs) <==> OwnState(nodes[id], target, skipOfflineMs) in {IsDone, IsManual, IsSkipped}
  {
  }
}
