/** The rollout as a whole: every node decides from adverts that may be arbitrarily old
    (src/cluster/updates.ts with the decision of src/cluster/rollout.ts), one fixed target. */
module RolloutCluster {
  import opened Versions
  import opened Rollout

  datatype Status = Idle | Updating | Done | Failed

  /** What does not change during one rollout. `order` is the order every node computes. */
  datatype Cluster = Cluster(order: seq<NodeId>, selfUpdating: set<NodeId>, target: string, skipOfflineMs: int)

  /** `said` holds every status a node ever had, that is every advert that may still be the
      newest one some peer knows. `started` are the nodes that ever decided to update; `passed`
      holds (j, i) when j started although it saw the earlier i as offline for too long, or had
      no advert of it. */
  datatype State = State(status: map<NodeId, Status>, said: set<(NodeId, Status)>, started: set<NodeId>,
                         passed: set<(NodeId, NodeId)>)

  datatype Step =
    | Start(id: NodeId, view: Nodes)
    | Finish(id: NodeId)
    | Fail(id: NodeId)
    | Forget(id: NodeId)   // restarted, or no repository to build from
    | Resume(id: NodeId)   // a restarted process finds the updater still at work
    | Retry(id: NodeId)    // an administrator cleared the failure
    | DeployByHand(id: NodeId)

  ghost predicate WellFormed(c: Cluster)
  {
    Distinct(c.order) && c.selfUpdating <= set id | id in c.order
  }

  /** How a node with this status advertises itself. */
  predicate Shows(n: Node, st: Status, target: string)
  {
    && (n.commit == target <==> st == Done)
    && (n.failed == Some(target) <==> st == Failed)
    && (n.updating <==> st == Updating)
  }

  /** No advert of the node is known: it counts as one that is updated by hand. */
  predicate Unheard(n: Node, target: string)
  {
    n.commit != target && !n.selfUpdating
  }

  ghost predicate SeesPeer(c: Cluster, s: State, view: Nodes, i: NodeId)
    requires i in view
  {
    || Unheard(view[i], c.target)
    || (view[i].selfUpdating == (i in c.selfUpdating) && exists st :: (i, st) in s.said && Shows(view[i], st, c.target))
  }

  /** A node knows itself, and of each peer some advert, however old, or none. */
  ghost predicate IsView(c: Cluster, s: State, view: Nodes, j: NodeId)
  {
    && (forall i :: i in view <==> i in c.order)
    && j in c.order && j in s.status
    && view[j].selfUpdating == (j in c.selfUpdating) && view[j].online && Shows(view[j], s.status[j], c.target)
    && (forall i {:trigger SeesPeer(c, s, view, i)} | i in c.order :: SeesPeer(c, s, view, i))
  }

  predicate Earlier(c: Cluster, i: NodeId, j: NodeId)
  {
    exists a, b | 0 <= a < b < |c.order| :: c.order[a] == i && c.order[b] == j
  }

  /** The self-updating nodes before `j` that it does not wait for though it does not see them done. */
  function PassedOver(c: Cluster, view: Nodes, j: NodeId): set<(NodeId, NodeId)>
    requires forall i | i in c.selfUpdating :: i in view
  {
    set i | i in c.selfUpdating && Earlier(c, i, j)
            && OwnState(view[i], c.target, c.skipOfflineMs) in {IsManual, IsSkipped} :: (j, i)
  }

  function SetStatus(s: State, id: NodeId, st: Status): State
  {
    s.(status := s.status[id := st], said := s.said + {(id, st)})
  }

  ghost predicate Next(c: Cluster, s: State, step: Step, s': State)
    requires WellFormed(c)
  {
    step.id in s.status &&
    match step
    case Start(j, view) =>
      && IsView(c, s, view, j)
      && ActionOf(c.order, view, j, c.target, c.skipOfflineMs) == Update
      && s' == SetStatus(s, j, Updating).(started := s.started + {j}, passed := s.passed + PassedOver(c, view, j))
    case Finish(j) => s.status[j] == Updating && s' == SetStatus(s, j, Done)
    case Fail(j) => s.status[j] == Updating && s' == SetStatus(s, j, Failed)
    case Forget(j) => s.status[j] == Updating && s' == SetStatus(s, j, Idle)
    case Resume(j) => j in s.started && s.status[j] == Idle && s' == SetStatus(s, j, Updating)
    case Retry(j) => s.status[j] == Failed && s' == SetStatus(s, j, Idle)
    case DeployByHand(j) => j !in c.selfUpdating && s' == SetStatus(s, j, Done)
  }

  ghost predicate Init(c: Cluster, s: State)
  {
    && s.status.Keys == (set id | id in c.order)
    && (forall id | id in s.status :: s.status[id] in {Idle, Done})
    && s.said == (set id | id in s.status :: (id, s.status[id]))
    && s.started == {} && s.passed == {}
  }

  // ─── Invariant ───────────────────────────────────────────────────────────────

  /** Whoever started has every earlier self-updating node behind it. */
  ghost predicate HasTurn(c: Cluster, s: State, i: NodeId, j: NodeId)
    requires i in s.status
  {
    s.status[i] == Done || (j, i) in s.passed
  }

  ghost predicate Inv(c: Cluster, s: State)
  {
    && s.status.Keys == (set id | id in c.order)
    && (forall id {:trigger (id, Done) in s.said} | (id, Done) in s.said :: id in s.status && s.status[id] == Done)
    && (forall id {:trigger s.status[id]} | id in s.status && s.status[id] == Updating :: id in s.started)
    && (forall i, j {:trigger HasTurn(c, s, i, j)} | j in s.started && i in c.selfUpdating && i in s.status && Earlier(c, i, j) ::
          HasTurn(c, s, i, j))
  }

  lemma InitHasInv(c: Cluster, s: State)
    requires WellFormed(c) && Init(c, s)
    ensures Inv(c, s)
  {
  }

  /** A node that starts has, in truth, every earlier self-updating node done or passed over. */
  lemma StartNeedsEarlierDone(c: Cluster, s: State, j: NodeId, view: Nodes, i: NodeId)
    requires WellFormed(c) && Inv(c, s) && IsView(c, s, view, j)
    requires ActionOf(c.order, view, j, c.target, c.skipOfflineMs) == Update
    requires i in c.selfUpdating && Earlier(c, i, j)
    ensures s.status[i] == Done || (j, i) in PassedOver(c, view, j)
  {
    var a, b :| 0 <= a < b < |c.order| && c.order[a] == i && c.order[b] == j;
    UpdatesExactlyWhenNext(c.order, view, b, c.target, c.skipOfflineMs);
    assert OwnState(view[c.order[a]], c.target, c.skipOfflineMs) in {IsDone, IsManual, IsSkipped};
    if OwnState(view[i], c.target, c.skipOfflineMs) == IsDone {
      assert SeesPeer(c, s, view, i);
      assert (i, Done) in s.said;
    }
  }

  /** Only a node that is neither updating, done nor failed starts. */
  lemma StartsFromIdle(c: Cluster, s: State, j: NodeId, view: Nodes)
    requires WellFormed(c) && IsView(c, s, view, j)
    requires ActionOf(c.order, view, j, c.target, c.skipOfflineMs) == Update
    ensures s.status[j] == Idle && j in c.selfUpdating
  {
    var b :| 0 <= b < |c.order| && c.order[b] == j;
    UpdatesExactlyWhenNext(c.order, view, b, c.target, c.skipOfflineMs);
  }

  /** A finished node stays finished, a status changes only in its own step. */
  lemma DoneStays(c: Cluster, s: State, step: Step, s': State)
    requires WellFormed(c) && Inv(c, s) && Next(c, s, step, s')
    ensures s'.status.Keys == s.status.Keys
    ensures forall i | i in s.status && s.status[i] == Done :: s'.status[i] == Done
    ensures forall i | i in s.status && i != step.id :: s'.status[i] == s.status[i]
    ensures s.started <= s'.started && s.passed <= s'.passed
    ensures step.Start? ==> s.status[step.id] == Idle
  {
    if step.Start? { StartsFromIdle(c, s, step.id, step.view); }
  }

  lemma StepKeepsInv(c: Cluster, s: State, step: Step, s': State)
    requires WellFormed(c) && Inv(c, s) && Next(c, s, step, s')
    ensures Inv(c, s')
  {
    DoneStays(c, s, step, s');
    forall i, j | j in s'.started && i in c.selfUpdating && i in s'.status && Earlier(c, i, j)
      ensures HasTurn(c, s', i, j)
    {
      if j in s.started {
        assert HasTurn(c, s, i, j);
      } else {
        StartNeedsEarlierDone(c, s, j, step.view, i);
      }
    }
  }

  // ─── Runs ────────────────────────────────────────────────────────────────────

  ghost predicate IsRun(c: Cluster, states: seq<State>, steps: seq<Step>)
    requires WellFormed(c)
  {
    && |states| == |steps| + 1
    && forall k {:trigger steps[k]} | 0 <= k < |steps| :: Next(c, states[k], steps[k], states[k + 1])
  }

  lemma {:induction false} RunKeepsInv(c: Cluster, states: seq<State>, steps: seq<Step>, k: nat)
    requires WellFormed(c) && IsRun(c, states, steps) && Inv(c, states[0]) && k < |states|
    ensures Inv(c, states[k])
  {
    if k > 0 {
      RunKeepsInv(c, states, steps, k - 1);
      StepKeepsInv(c, states[k - 1], steps[k - 1], states[k]);
    }
  }

  lemma OneOfTwoIsEarlier(c: Cluster, i: NodeId, j: NodeId)
    requires i in c.order && j in c.order && i != j
    ensures Earlier(c, i, j) || Earlier(c, j, i)
  {
    var a :| 0 <= a < |c.order| && c.order[a] == i;
    var b :| 0 <= b < |c.order| && c.order[b] == j;
  }

  /** Two nodes update at the same time only when the later one had passed over the earlier
      one, as offline for too long or never heard of. However old the adverts are. */
  lemma OnlyOneUpdates(c: Cluster, states: seq<State>, steps: seq<Step>, k: nat, i: NodeId, j: NodeId)
    requires WellFormed(c) && IsRun(c, states, steps) && Init(c, states[0]) && k < |states|
    requires i in c.selfUpdating && j in c.selfUpdating && i != j
    requires i in states[k].status && states[k].status[i] == Updating
    requires j in states[k].status && states[k].status[j] == Updating
    ensures (i, j) in states[k].passed || (j, i) in states[k].passed
  {
    InitHasInv(c, states[0]);
    RunKeepsInv(c, states, steps, k);
    OneOfTwoIsEarlier(c, i, j);
    assert HasTurn(c, states[k], i, j) || !Earlier(c, i, j);
    assert HasTurn(c, states[k], j, i) || !Earlier(c, j, i);
  }

  lemma {:induction false} FailureStays(c: Cluster, states: seq<State>, steps: seq<Step>, i: NodeId, from: nat, k: nat)
    requires WellFormed(c) && IsRun(c, states, steps) && Inv(c, states[0]) && from <= k < |states|
    requires i in c.selfUpdating && i in states[from].status && states[from].status[i] == Failed
    requires forall m {:trigger steps[m]} | from <= m < k :: !(steps[m] == Retry(i))
    ensures i in states[k].status && states[k].status[i] == Failed
  {
    if from < k {
      FailureStays(c, states, steps, i, from, k - 1);
      RunKeepsInv(c, states, steps, k - 1);
      assert steps[k - 1] != Retry(i);
      DoneStays(c, states[k - 1], steps[k - 1], states[k]);
    }
  }

  /** After a node failed, no later node starts until an administrator clears the failure,
      unless it passed over the failed node. */
  lemma FailureStopsTheRollout(c: Cluster, states: seq<State>, steps: seq<Step>, i: NodeId, j: NodeId, from: nat, k: nat)
    requires WellFormed(c) && IsRun(c, states, steps) && Init(c, states[0]) && from <= k < |steps|
    requires i in c.selfUpdating && i in states[from].status && states[from].status[i] == Failed
    requires forall m {:trigger steps[m]} | from <= m < k :: steps[m] != Retry(i)
    requires Earlier(c, i, j) && steps[k].Start? && steps[k].id == j
    ensures (j, i) in states[k + 1].passed
  {
    InitHasInv(c, states[0]);
    FailureStays(c, states, steps, i, from, k);
    RunKeepsInv(c, states, steps, k);
    StartNeedsEarlierDone(c, states[k], j, steps[k].view, i);
  }

  /** The condition is needed: a node without any advert of the one before it takes it for one
      updated by hand, and both update at once. */
  lemma UnheardNodesUpdateTogether(c: Cluster, s: State, a: NodeId, b: NodeId, viewOfB: Nodes, viewOfA: Nodes)
    returns (s1: State, s2: State)
    requires WellFormed(c) && c.order == [a, b] && c.selfUpdating == {a, b} && Init(c, s)
    requires s.status[a] == Idle && s.status[b] == Idle
    requires IsView(c, s, viewOfB, b) && Unheard(viewOfB[a], c.target)
    requires IsView(c, SetStatus(s, b, Updating), viewOfA, a)
    ensures IsRun(c, [s, s1, s2], [Start(b, viewOfB), Start(a, viewOfA)])
    ensures a in s2.status && s2.status[a] == Updating && b in s2.status && s2.status[b] == Updating
  {
    UpdatesExactlyWhenNext(c.order, viewOfB, 1, c.target, c.skipOfflineMs);
    UpdatesExactlyWhenNext(c.order, viewOfA, 0, c.target, c.skipOfflineMs);
    s1 := SetStatus(s, b, Updating).(started := s.started + {b}, passed := s.passed + PassedOver(c, viewOfB, b));
    forall i | i in c.order ensures SeesPeer(c, s1, viewOfA, i) {
      assert SeesPeer(c, SetStatus(s, b, Updating), viewOfA, i);
    }
    assert Next(c, s, Start(b, viewOfB), s1);
    s2 := SetStatus(s1, a, Updating).(started := s1.started + {a}, passed := s1.passed + PassedOver(c, viewOfA, a));
    assert Next(c, s1, Start(a, viewOfA), s2);
  }

  // ─── Progress ────────────────────────────────────────────────────────────────

  /** The view of a node that has heard everybody's present status. */
  ghost predicate IsFresh(c: Cluster, s: State, view: Nodes)
  {
    && (forall i :: i in view <==> i in c.order)
    && forall i {:trigger view[i]} | i in view :: i in s.status && view[i].online && view[i].selfUpdating == (i in c.selfUpdating)
                                                   && Shows(view[i], s.status[i], c.target)
  }

  function NotDone(c: Cluster, s: State): set<NodeId>
  {
    set i | i in c.selfUpdating && i in s.status && s.status[i] != Done
  }

  /** No step makes a finished node unfinished. */
  lemma NotDoneOnlyShrinks(c: Cluster, s: State, step: Step, s': State)
    requires WellFormed(c) && Inv(c, s) && Next(c, s, step, s')
    ensures NotDone(c, s') <= NotDone(c, s)
    ensures step.Finish? && step.id in c.selfUpdating ==> NotDone(c, s') == NotDone(c, s) - {step.id}
  {
    DoneStays(c, s, step, s');
  }

  lemma {:induction false} FirstNotDone(c: Cluster, s: State, upTo: nat) returns (b: nat)
    requires s.status.Keys == (set id | id in c.order) && upTo <= |c.order|
    requires exists k | 0 <= k < upTo :: c.order[k] in NotDone(c, s)
    ensures b < upTo && c.order[b] in NotDone(c, s) && forall k | 0 <= k < b :: c.order[k] !in NotDone(c, s)
  {
    if k :| 0 <= k < upTo - 1 && c.order[k] in NotDone(c, s) {
      b := FirstNotDone(c, s, upTo - 1);
    } else {
      b := upTo - 1;
    }
  }

  /** While nothing failed and somebody is not done, somebody is updating or, once it hears the
      others' present status, starts. */
  lemma NeverStuck(c: Cluster, s: State, view: Nodes) returns (j: NodeId)
    requires WellFormed(c) && Inv(c, s) && IsFresh(c, s, view) && NotDone(c, s) != {}
    requires forall i | i in c.selfUpdating && i in s.status :: s.status[i] != Failed
    ensures j in NotDone(c, s)
    ensures s.status[j] == Updating || ActionOf(c.order, view, j, c.target, c.skipOfflineMs) == Update
  {
    var i :| i in NotDone(c, s);
    var a :| 0 <= a < |c.order| && c.order[a] == i;
    var b := FirstNotDone(c, s, |c.order|);
    j := c.order[b];
    forall k | 0 <= k < b ensures OwnState(view[c.order[k]], c.target, c.skipOfflineMs) in {IsDone, IsManual, IsSkipped} {
      assert c.order[k] in s.status;
    }
    if s.status[j] != Updating {
      assert s.status[j] == Idle && view[j].online;
      UpdatesExactlyWhenNext(c.order, view, b, c.target, c.skipOfflineMs);
    }
  }

  /** A view of present statuses; `previous` is the commit of whoever is not done. */
  function FreshView(c: Cluster, s: State, previous: string): Nodes
    requires s.status.Keys == (set id | id in c.order)
  {
    map i | i in s.status ::
      Node(if s.status[i] == Done then c.target else previous, i in c.selfUpdating, true, 0,
           if s.status[i] == Failed then Some(c.target) else None, s.status[i] == Updating)
  }

  lemma FreshViewIsFresh(c: Cluster, s: State, previous: string, j: NodeId)
    requires s.status.Keys == (set id | id in c.order) && previous != c.target && j in s.status
    requires forall i | i in s.status :: (i, s.status[i]) in s.said
    ensures IsFresh(c, s, FreshView(c, s, previous)) && IsView(c, s, FreshView(c, s, previous), j)
  {
    var view := FreshView(c, s, previous);
    forall i | i in c.order ensures SeesPeer(c, s, view, i) {
      assert (i, s.status[i]) in s.said && Shows(view[i], s.status[i], c.target);
    }
  }

  ghost predicate CanComplete(c: Cluster, s: State)
  {
    && Inv(c, s)
    && (forall i | i in s.status :: (i, s.status[i]) in s.said)
    && (forall i | i in c.selfUpdating && i in s.status :: s.status[i] != Failed)
  }

  /** There always is such a run: from every reachable state without a failure updates one after the
      other end with every self-updating node done. */
  lemma {:induction false} RolloutCompletes(c: Cluster, s: State, previous: string) returns (states: seq<State>, steps: seq<Step>)
    requires WellFormed(c) && CanComplete(c, s) && previous != c.target
    ensures IsRun(c, states, steps) && states[0] == s
    ensures NotDone(c, states[|steps|]) == {}
    decreases |NotDone(c, s)|
  {
    if NotDone(c, s) == {} {
      return [s], [];
    }
    var first, firstSteps, last, done := OneNodeCompletes(c, s, previous);
    var rest, restSteps := RolloutCompletes(c, done, previous);
    states := first + rest;
    steps := firstSteps + [last] + restSteps;
    assert states[|steps|] == rest[|restSteps|];
    JoinRuns(c, first, firstSteps, last, rest, restSteps);
  }

  /** With fresh views everywhere some node is updating or starts. */
  lemma SomebodyMoves(c: Cluster, s: State, previous: string) returns (j: NodeId)
    requires WellFormed(c) && CanComplete(c, s) && previous != c.target && NotDone(c, s) != {}
    ensures var view := FreshView(c, s, previous);
            && j in NotDone(c, s) && IsView(c, s, view, j)
            && (s.status[j] == Updating || ActionOf(c.order, view, j, c.target, c.skipOfflineMs) == Update)
  {
    var any :| any in NotDone(c, s);
    FreshViewIsFresh(c, s, previous, any);
    j := NeverStuck(c, s, FreshView(c, s, previous));
    FreshViewIsFresh(c, s, previous, j);
  }

  /** A node that is updating finishes. */
  lemma FinishOne(c: Cluster, s: State, j: NodeId) returns (done: State)
    requires WellFormed(c) && CanComplete(c, s) && j in NotDone(c, s) && s.status[j] == Updating
    ensures Next(c, s, Finish(j), done) && CanComplete(c, done) && NotDone(c, done) == NotDone(c, s) - {j}
  {
    done := SetStatus(s, j, Done);
    assert Next(c, s, Finish(j), done);
    StepKeepsInv(c, s, Finish(j), done);
    NotDoneOnlyShrinks(c, s, Finish(j), done);
  }

  /** The next node starts and, in `last`, finishes. */
  lemma OneNodeCompletes(c: Cluster, s: State, previous: string)
    returns (first: seq<State>, firstSteps: seq<Step>, last: Step, done: State)
    requires WellFormed(c) && CanComplete(c, s) && previous != c.target && NotDone(c, s) != {}
    ensures IsRun(c, first, firstSteps) && first[0] == s
    ensures Next(c, first[|firstSteps|], last, done) && CanComplete(c, done) && |NotDone(c, done)| < |NotDone(c, s)|
  {
    var j := SomebodyMoves(c, s, previous);
    first, firstSteps := StartOne(c, s, j, FreshView(c, s, previous));
    last := Finish(j);
    done := FinishOne(c, first[|firstSteps|], j);
    Without(NotDone(c, s), NotDone(c, done), j);
  }

  lemma JoinRuns(c: Cluster, first: seq<State>, firstSteps: seq<Step>, step: Step, rest: seq<State>, restSteps: seq<Step>)
    requires WellFormed(c) && IsRun(c, first, firstSteps) && IsRun(c, rest, restSteps)
    requires Next(c, first[|firstSteps|], step, rest[0])
    ensures IsRun(c, first + rest, firstSteps + [step] + restSteps)
  {
    var states, steps := first + rest, firstSteps + [step] + restSteps;
    forall k | 0 <= k < |steps| ensures Next(c, states[k], steps[k], states[k + 1]) {
      if k < |firstSteps| {
        assert steps[k] == firstSteps[k];
      } else if k > |firstSteps| {
        assert steps[k] == restSteps[k - |firstSteps| - 1];
      }
    }
  }

  /** At most one step brings the next node to work. */
  lemma StartOne(c: Cluster, s: State, j: NodeId, view: Nodes) returns (states: seq<State>, steps: seq<Step>)
    requires WellFormed(c) && CanComplete(c, s) && j in NotDone(c, s) && IsView(c, s, view, j)
    requires s.status[j] == Updating || ActionOf(c.order, view, j, c.target, c.skipOfflineMs) == Update
    ensures IsRun(c, states, steps) && states[0] == s && |steps| <= 1
    ensures var busy := states[|steps|]; CanComplete(c, busy) && NotDone(c, busy) == NotDone(c, s) && busy.status[j] == Updating
  {
    if s.status[j] == Updating {
      return [s], [];
    }
    var busy := SetStatus(s, j, Updating).(started := s.started + {j}, passed := s.passed + PassedOver(c, view, j));
    assert Next(c, s, Start(j, view), busy);
    StepKeepsInv(c, s, Start(j, view), busy);
    return [s, busy], [Start(j, view)];
  }

  // ─── Every failure-free run ──────────────────────────────────────────────────

  /** Only starts and finishes of self-updating nodes: nothing fails and nobody is restarted. */
  predicate IsUpdateStep(c: Cluster, step: Step)
  {
    (step.Start? || step.Finish?) && step.id in c.selfUpdating
  }

  /** The self-updating nodes that have not started yet, or have but are not done, are what is left. */
  function Waiting(c: Cluster, s: State): set<NodeId>
  {
    set i | i in NotDone(c, s) && s.status[i] != Updating
  }

  /** Steps left: a start and a finish for each node that waits, a finish for each that updates. */
  function StepsLeft(c: Cluster, s: State): nat
  {
    |NotDone(c, s)| + |Waiting(c, s)|
  }

  lemma Without(a: set<NodeId>, b: set<NodeId>, x: NodeId)
    requires b == a - {x} && x in a
    ensures |b| + 1 == |a|
  {
    assert a == b + {x};
  }

  lemma WaitingIsPart(c: Cluster, s: State)
    ensures |Waiting(c, s)| <= |NotDone(c, s)|
  {
    assert NotDone(c, s) == Waiting(c, s) + (NotDone(c, s) - Waiting(c, s));
  }

  /** Each such step leaves exactly one step less. */
  lemma UpdateStepCounts(c: Cluster, s: State, step: Step, s': State)
    requires WellFormed(c) && Inv(c, s) && Next(c, s, step, s') && IsUpdateStep(c, step)
    ensures StepsLeft(c, s') + 1 == StepsLeft(c, s)
  {
    DoneStays(c, s, step, s');
    if step.Start? {
      assert NotDone(c, s') == NotDone(c, s);
      assert Waiting(c, s') == Waiting(c, s) - {step.id};
      Without(Waiting(c, s), Waiting(c, s'), step.id);
    } else {
      assert NotDone(c, s') == NotDone(c, s) - {step.id};
      assert Waiting(c, s') == Waiting(c, s);
      Without(NotDone(c, s), NotDone(c, s'), step.id);
    }
  }

  lemma UpdateStepKeepsCompletable(c: Cluster, s: State, step: Step, s': State)
    requires WellFormed(c) && CanComplete(c, s) && Next(c, s, step, s') && IsUpdateStep(c, step)
    ensures CanComplete(c, s')
  {
    StepKeepsInv(c, s, step, s');
  }

  lemma StepOfRun(c: Cluster, states: seq<State>, steps: seq<Step>, k: nat)
    requires WellFormed(c) && IsRun(c, states, steps) && k < |steps|
    ensures Next(c, states[k], steps[k], states[k + 1])
  {
  }

  lemma {:induction false} UpdateRunCounts(c: Cluster, states: seq<State>, steps: seq<Step>, k: nat)
    requires WellFormed(c) && IsRun(c, states, steps) && CanComplete(c, states[0]) && k < |states|
    requires forall m {:trigger steps[m]} | 0 <= m < |steps| :: IsUpdateStep(c, steps[m])
    ensures CanComplete(c, states[k]) && k + StepsLeft(c, states[k]) == StepsLeft(c, states[0])
  {
    if k > 0 {
      UpdateRunCounts(c, states, steps, k - 1);
      StepOfRun(c, states, steps, k - 1);
      UpdateStepKeepsCompletable(c, states[k - 1], steps[k - 1], states[k]);
      UpdateStepCounts(c, states[k - 1], steps[k - 1], states[k]);
    }
  }

  ghost predicate Rests(c: Cluster, s: State, view: Nodes, j: NodeId)
    requires (forall id | id in c.order :: id in view) && j in s.status
  {
    s.status[j] != Updating && ActionOf(c.order, view, j, c.target, c.skipOfflineMs) != Update
  }

  /** No self-updating node can finish, and none starts however fresh its knowledge is. */
  ghost predicate AtRest(c: Cluster, s: State, view: Nodes)
    requires forall id | id in c.order :: id in view
  {
    forall j {:trigger j in c.selfUpdating} | j in c.selfUpdating && j in s.status :: Rests(c, s, view, j)
  }

  lemma RestMeansDone(c: Cluster, s: State, view: Nodes)
    requires WellFormed(c) && CanComplete(c, s) && IsFresh(c, s, view)
    ensures AtRest(c, s, view) <==> NotDone(c, s) == {}
  {
    if NotDone(c, s) != {} {
      var j := NeverStuck(c, s, view);
      assert !Rests(c, s, view, j);
    } else {
      forall j | j in c.selfUpdating && j in s.status ensures Rests(c, s, view, j) {
        assert j !in NotDone(c, s);
        assert OwnState(view[j], c.target, c.skipOfflineMs) == IsDone;
      }
    }
  }

  /** Whatever the nodes knew when they started and in whatever order they finished, a run without
      failures has at most two steps for each node that was left, and where nobody is updating and
      nobody starts on fresh adverts any more, every self-updating node is done. */
  lemma EveryRolloutCompletes(c: Cluster, states: seq<State>, steps: seq<Step>, view: Nodes)
    requires WellFormed(c) && IsRun(c, states, steps) && CanComplete(c, states[0])
    requires forall m {:trigger steps[m]} | 0 <= m < |steps| :: IsUpdateStep(c, steps[m])
    requires IsFresh(c, states[|steps|], view)
    ensures |steps| <= 2 * |NotDone(c, states[0])|
    ensures AtRest(c, states[|steps|], view) <==> NotDone(c, states[|steps|]) == {}
  {
    UpdateRunCounts(c, states, steps, |steps|);
    WaitingIsPart(c, states[0]);
    RestMeansDone(c, states[|steps|], view);
  }
}
