/** What introductions do to earlier attempts and to links, when they come one at a time and when
    they overlap (src/cluster/mesh.ts). */
module Attempts {
  import opened Versions
  import opened Introductions

  predicate MadeFor(e: Entry, node: string)
  {
    e.invited == Some(node)
  }

  /** The attempt has its node's id or waits for the node. */
  predicate Stands(e: Entry)
  {
    e.nodeId.Some? || e.status == Pending
  }

  predicate StandsFor(entries: Entries, id: nat, node: string)
  {
    id in entries && MadeFor(entries[id], node) && Stands(entries[id])
  }

  // ─── One introduction at a time ──────────────────────────────────────────────

  /** No call about the node is between its check and its end. */
  predicate NobodyAt(s: State, node: string)
  {
    forall c | c in s.calls :: s.calls[c].node != node
  }

  /** Introductions to the node come one at a time, and none breaks off or loses its entry's window
      between the two writes of a hosting entry. */
  predicate IsOrderly(s: State, step: Step, node: string)
  {
    match step
    case Check(_, about, _) => about == node ==> NobodyAt(s, node)
    case BreakOff(call) => call in s.calls && s.calls[call].node == node ==> s.calls[call].stage.Clearing?
    case Tell(call) =>
      (call in s.calls && s.calls[call].node == node && s.calls[call].stage.Telling? && s.calls[call].stage.id in s.entries)
      ==> Stands(s.entries[s.calls[call].stage.id])
    case _ => true
  }

  /** No exchange ends in an attempt that was closed meanwhile. */
  predicate IsInTime(s: State, step: Step, node: string)
  {
    step.Pair? && step.id in s.entries && MadeFor(s.entries[step.id], node) ==> Stands(s.entries[step.id])
  }

  ghost predicate AllOrderly(s: State, steps: seq<Step>, node: string)
    requires Runs(s, steps)
    decreases |steps|
  {
    steps != [] ==> IsOrderly(s, steps[0], node) && AllOrderly(Next(s, steps[0]), steps[1..], node)
  }

  ghost predicate AllInTime(s: State, steps: seq<Step>, node: string)
    requires Runs(s, steps)
    decreases |steps|
  {
    steps != [] ==> IsInTime(s, steps[0], node) && AllInTime(Next(s, steps[0]), steps[1..], node)
  }

  /** At most one call about the node. */
  predicate OneCall(s: State, node: string)
  {
    forall i, j | i in s.calls && j in s.calls && s.calls[i].node == node && s.calls[j].node == node :: i == j
  }

  /** The attempt names its node, or will as soon as it is told. */
  predicate NamedOrTold(s: State, id: nat, node: string)
  {
    StandsFor(s.entries, id, node) ==>
      || Names(s.entries[id], node)
      || exists c {:trigger c in s.calls} :: c in s.calls && s.calls[c].node == node && s.calls[c].stage == Telling(id)
  }

  /** A closed attempt without its node's id names nobody. */
  predicate ClosedIsNameless(s: State, id: nat, node: string)
  {
    id in s.entries && MadeFor(s.entries[id], node) && !Stands(s.entries[id]) ==> s.entries[id].expects.None?
  }

  ghost predicate Tidy(s: State, node: string)
  {
    && Inv(s) && OneCall(s, node)
    && (forall id {:trigger NamedOrTold(s, id, node)} :: NamedOrTold(s, id, node))
    && (forall id {:trigger ClosedIsNameless(s, id, node)} :: ClosedIsNameless(s, id, node))
  }

  lemma StepKeepsOneCall(s: State, step: Step, node: string)
    requires OneCall(s, node) && Enabled(s, step) && IsOrderly(s, step, node)
    ensures OneCall(Next(s, step), node)
  {
  }

  lemma StepKeepsNamed(s: State, step: Step, node: string, id: nat)
    requires Tidy(s, node) && Enabled(s, step) && IsOrderly(s, step, node)
    ensures NamedOrTold(Next(s, step), id, node)
  {
    var t := Next(s, step);
    assert NamedOrTold(s, id, node) && EntryFine(s, id);
    if step.Tell? { assert CallFine(s, step.call); }
    if step.Create? && id == s.nextId {
      assert step.call in s.calls;
      if s.calls[step.call].role == Host { assert t.calls[step.call].stage == Telling(id); }
    } else if StandsFor(t.entries, id, node) && step.Pair? && step.id == id {
      assert PairingFine(s, id, step.node);
    } else if StandsFor(s.entries, id, node) && !Names(s.entries[id], node) {
      var c :| c in s.calls && s.calls[c].node == node && s.calls[c].stage == Telling(id);
      assert step != Tell(c) ==> c in t.calls && t.calls[c] == s.calls[c];
    }
  }

  lemma StepKeepsNameless(s: State, step: Step, node: string, id: nat)
    requires Tidy(s, node) && Enabled(s, step) && IsOrderly(s, step, node)
    ensures ClosedIsNameless(Next(s, step), id, node)
  {
    assert ClosedIsNameless(s, id, node) && EntryFine(s, id);
    if step.Tell? { assert CallFine(s, step.call); }
  }

  lemma StepKeepsTidy(s: State, step: Step, node: string)
    requires Tidy(s, node) && Enabled(s, step) && IsOrderly(s, step, node)
    ensures Tidy(Next(s, step), node)
  {
    StepKeepsInv(s, step);
    StepKeepsOneCall(s, step, node);
    forall id ensures NamedOrTold(Next(s, step), id, node) { StepKeepsNamed(s, step, node, id); }
    forall id ensures ClosedIsNameless(Next(s, step), id, node) { StepKeepsNameless(s, step, node, id); }
  }

  lemma {:induction false} RunKeepsTidy(s: State, steps: seq<Step>, node: string)
    requires Tidy(s, node) && Runs(s, steps) && AllOrderly(s, steps, node)
    ensures Tidy(After(s, steps), node)
    decreases |steps|
  {
    if steps != [] {
      StepKeepsTidy(s, steps[0], node);
      RunKeepsTidy(Next(s, steps[0]), steps[1..], node);
    }
  }

  lemma StartIsTidy(node: string)
    ensures Tidy(Start, node)
  {
  }

  /** An earlier attempt is found, and cleared away, by the next introduction exactly if it has its
      node's id or still waits: a hosting attempt that expired or was locked is not. */
  lemma GivesWayExactly(steps: seq<Step>, node: string, id: nat)
    requires Runs(Start, steps) && AllOrderly(Start, steps, node) && NobodyAt(After(Start, steps), node)
    requires id in After(Start, steps).entries && MadeFor(After(Start, steps).entries[id], node)
    ensures id in Naming(After(Start, steps).entries, node) <==> Stands(After(Start, steps).entries[id])
  {
    StartIsTidy(node);
    RunKeepsTidy(Start, steps, node);
    var t := After(Start, steps);
    assert NamedOrTold(t, id, node) && ClosedIsNameless(t, id, node) && EntryFine(t, id);
  }

  // ─── At most one attempt stands ──────────────────────────────────────────────

  /** No two attempts for the node stand. */
  ghost predicate AtMostOneStands(entries: Entries, node: string)
  {
    forall i, j {:trigger StandsFor(entries, i, node), StandsFor(entries, j, node)} ::
      StandsFor(entries, i, node) && StandsFor(entries, j, node) ==> i == j
  }

  /** A call about the node has read every standing attempt, or made the one there is. */
  predicate CallKnows(s: State, c: nat, node: string, id: nat)
  {
    c in s.calls && s.calls[c].node == node && StandsFor(s.entries, id, node) ==>
      match s.calls[c].stage
      case Clearing(seen) => id in seen
      case Telling(own) => id == own
  }

  ghost predicate OneStands(s: State, node: string)
  {
    && Tidy(s, node) && AtMostOneStands(s.entries, node)
    && forall c, id {:trigger CallKnows(s, c, node, id)} :: CallKnows(s, c, node, id)
  }

  /** Only a creation makes an attempt stand. */
  lemma NothingStandsUp(s: State, step: Step, node: string, id: nat)
    requires Inv(s) && Enabled(s, step) && IsInTime(s, step, node)
    requires StandsFor(Next(s, step).entries, id, node) && !StandsFor(s.entries, id, node)
    ensures step.Create? && id == s.nextId && s.calls[step.call].node == node
  {
    assert EntryFine(s, id);
  }

  lemma CreationIsAlone(s: State, step: Step, node: string, id: nat)
    requires OneStands(s, node) && Enabled(s, step) && step.Create? && s.calls[step.call].node == node
    ensures !StandsFor(s.entries, id, node)
  {
    assert CallKnows(s, step.call, node, id);
  }

  lemma StepKeepsOneStanding(s: State, step: Step, node: string)
    requires OneStands(s, node) && Enabled(s, step) && IsInTime(s, step, node)
    ensures AtMostOneStands(Next(s, step).entries, node)
  {
    var t := Next(s, step);
    forall i, j | StandsFor(t.entries, i, node) && StandsFor(t.entries, j, node) ensures i == j {
      if !StandsFor(s.entries, i, node) {
        NothingStandsUp(s, step, node, i);
        CreationIsAlone(s, step, node, j);
        if !StandsFor(s.entries, j, node) { NothingStandsUp(s, step, node, j); }
      } else if !StandsFor(s.entries, j, node) {
        NothingStandsUp(s, step, node, j);
        CreationIsAlone(s, step, node, i);
      }
    }
  }

  lemma CreationKnows(s: State, step: Step, node: string, c: nat, id: nat)
    requires OneStands(s, node) && Enabled(s, step) && step.Create? && IsInTime(s, step, node)
    ensures CallKnows(Next(s, step), c, node, id)
  {
    assert CallKnows(s, c, node, id);
    if StandsFor(Next(s, step).entries, id, node) {
      if !StandsFor(s.entries, id, node) {
        NothingStandsUp(s, step, node, id);
      } else if s.calls[step.call].node == node {
        CreationIsAlone(s, step, node, id);
      }
    }
  }

  lemma StepKeepsKnowing(s: State, step: Step, node: string, c: nat, id: nat)
    requires OneStands(s, node) && Enabled(s, step) && IsOrderly(s, step, node) && IsInTime(s, step, node)
    ensures CallKnows(Next(s, step), c, node, id)
  {
    if step.Create? {
      CreationKnows(s, step, node, c, id);
    } else {
      assert CallKnows(s, c, node, id) && NamedOrTold(s, id, node);
      if StandsFor(Next(s, step).entries, id, node) && !StandsFor(s.entries, id, node) { NothingStandsUp(s, step, node, id); }
    }
  }

  lemma {:induction false} RunKeepsOneStanding(s: State, steps: seq<Step>, node: string)
    requires OneStands(s, node) && Runs(s, steps) && AllOrderly(s, steps, node) && AllInTime(s, steps, node)
    ensures OneStands(After(s, steps), node)
    decreases |steps|
  {
    if steps != [] {
      var t := Next(s, steps[0]);
      StepKeepsTidy(s, steps[0], node);
      StepKeepsOneStanding(s, steps[0], node);
      forall c, id ensures CallKnows(t, c, node, id) { StepKeepsKnowing(s, steps[0], node, c, id); }
      RunKeepsOneStanding(t, steps[1..], node);
    }
  }

  /** As long as introductions to a node come one at a time and no exchange ends in an attempt that
      was closed meanwhile, there is never more than one link or open pairing made for it, whatever
      expires, is locked, switched off, removed or deleted. */
  lemma OneLiveWithoutOverlap(steps: seq<Step>, node: string, i: nat, j: nat)
    requires Runs(Start, steps) && AllOrderly(Start, steps, node) && AllInTime(Start, steps, node)
    requires i in After(Start, steps).entries && j in After(Start, steps).entries
    ensures var t := After(Start, steps); var e, f := t.entries[i], t.entries[j];
            MadeFor(e, node) && MadeFor(f, node) && IsLive(e, t.now) && IsLive(f, t.now) ==> i == j
  {
    StartIsTidy(node);
    RunKeepsOneStanding(Start, steps, node);
    var t := After(Start, steps);
    assert EntryFine(t, i) && EntryFine(t, j);
    if IsLive(t.entries[i], t.now) && IsLive(t.entries[j], t.now) && MadeFor(t.entries[i], node) && MadeFor(t.entries[j], node) {
      assert StandsFor(t.entries, i, node) && StandsFor(t.entries, j, node);
    }
  }

  // ─── What nobody clears away ─────────────────────────────────────────────────

  /** The entry names nobody, is closed, and nothing under way concerns it. */
  ghost predicate IsForgotten(s: State, id: nat)
  {
    && id in s.entries && id < s.nextId
    && s.entries[id].nodeId.None? && s.entries[id].expects.None? && s.entries[id].status != Pending
    && (forall node :: (id, node) !in s.pairings)
    && forall c {:trigger s.calls[c]} | c in s.calls ::
         match s.calls[c].stage
         case Clearing(seen) => id !in seen
         case Telling(own) => own != id
  }

  lemma StepKeepsForgotten(s: State, step: Step, id: nat)
    requires IsForgotten(s, id) && Enabled(s, step) && !(step.Delete? && step.id == id)
    ensures IsForgotten(Next(s, step), id)
  {
  }

  /** Such an entry stays until a person deletes it, whatever introductions come. */
  lemma {:induction false} ForgottenStays(s: State, steps: seq<Step>, id: nat)
    requires IsForgotten(s, id) && Runs(s, steps)
    requires forall k | 0 <= k < |steps| :: !(steps[k].Delete? && steps[k].id == id)
    ensures IsForgotten(After(s, steps), id)
    decreases |steps|
  {
    if steps != [] {
      StepKeepsForgotten(s, steps[0], id);
      assert forall k | 0 <= k < |steps[1..]| :: steps[1..][k] == steps[k + 1];
      ForgottenStays(Next(s, steps[0]), steps[1..], id);
    }
  }

  // ─── What links and decisions can rely on ────────────────────────────────────

  /** The entry is a link, or one that was switched off or removed. */
  predicate IsSettled(e: Entry)
  {
    e.nodeId.Some? && (e.status == Active || IsKeptOut(e))
  }

  /** Nothing under way concerns the entry: no call has read it or is to name it, and no exchange
      with its node is under way. */
  ghost predicate IsLeftAlone(s: State, id: nat)
    requires id in s.entries && s.entries[id].nodeId.Some?
  {
    && (forall other, node {:trigger (other, node) in s.pairings} | (other, node) in s.pairings ::
          other != id && Some(node) != s.entries[id].nodeId)
    && forall c {:trigger s.calls[c]} | c in s.calls ::
         match s.calls[c].stage
         case Clearing(seen) => id !in seen
         case Telling(own) => own != id
  }

  /** A step that sets the entry's status, deletes it, or begins an exchange with its node. */
  predicate Concerns(step: Step, id: nat, node: string)
  {
    match step
    case Close(i, _) => i == id
    case Enable(i) => i == id
    case Delete(i) => i == id
    case Meet(i, n) => i == id || n == node
    case _ => false
  }

  lemma StepLeavesAlone(s: State, step: Step, id: nat)
    requires id in s.entries && id < s.nextId && IsSettled(s.entries[id]) && IsLeftAlone(s, id)
    requires Enabled(s, step) && !Concerns(step, id, s.entries[id].nodeId.value)
    ensures var t := Next(s, step); id in t.entries && id < t.nextId && t.entries[id] == s.entries[id] && IsLeftAlone(t, id)
  {
    if step.Check? { SettledIsNotSeen(s.entries, id, step.node, s.now); }
  }

  lemma SettledIsNotSeen(entries: Entries, id: nat, node: string, now: int)
    requires id in entries && (entries[id].status == Active || IsKeptOut(entries[id]))
    ensures Checked(entries, node, now) == Introduced ==> id !in Naming(entries, node)
  {
  }

  /** A link, or one a person switched off or removed, is neither deleted nor changed by
      introductions, overlapping or not, unless a call had read the entry before or an exchange with
      its node is under way or begins. */
  lemma {:induction false} DecisionStands(s: State, steps: seq<Step>, id: nat)
    requires id in s.entries && id < s.nextId && IsSettled(s.entries[id]) && IsLeftAlone(s, id) && Runs(s, steps)
    requires forall k | 0 <= k < |steps| :: !Concerns(steps[k], id, s.entries[id].nodeId.value)
    ensures id in After(s, steps).entries && After(s, steps).entries[id] == s.entries[id]
    decreases |steps|
  {
    if steps != [] {
      StepLeavesAlone(s, steps[0], id);
      assert forall k | 0 <= k < |steps[1..]| :: steps[1..][k] == steps[k + 1];
      DecisionStands(Next(s, steps[0]), steps[1..], id);
    }
  }

  /** A call has read the entry, or an exchange with its node is under way through another one. */
  ghost predicate IsMarked(s: State, id: nat)
    requires id in s.entries && s.entries[id].nodeId.Some?
  {
    || (exists c {:trigger s.calls[c]} :: c in s.calls && s.calls[c].stage.Clearing? && id in s.calls[c].stage.seen)
    || exists other {:trigger (other, s.entries[id].nodeId.value) in s.pairings} ::
         other != id && (other, s.entries[id].nodeId.value) in s.pairings
  }

  /** The other half: exactly then the next step, other than one that concerns the entry, can delete
      it, and whatever it has become meanwhile. */
  lemma GoesExactlyWhenMarked(s: State, id: nat)
    requires id in s.entries && s.entries[id].nodeId.Some?
    ensures IsMarked(s, id) <==>
            exists step :: Enabled(s, step) && !Concerns(step, id, s.entries[id].nodeId.value) && id !in Next(s, step).entries
  {
    var node := s.entries[id].nodeId.value;
    if c :| c in s.calls && s.calls[c].stage.Clearing? && id in s.calls[c].stage.seen {
      assert Enabled(s, Drop(c, id)) && id !in Next(s, Drop(c, id)).entries;
    }
    if other :| other != id && (other, node) in s.pairings {
      assert Enabled(s, Oust(other, node, id)) && id !in Next(s, Oust(other, node, id)).entries;
    }
    if step :| Enabled(s, step) && !Concerns(step, id, node) && id !in Next(s, step).entries {
      if step.Oust? { assert step.node == node && (step.id, node) in s.pairings; }
      if step.Drop? { assert id in s.calls[step.call].stage.seen; }
    }
  }
}
