/** Pairing when activating the host's entry takes time (src/cluster/pairing.ts): between the check of
    a confirmation and the end of its writes the waiting exchange may end or be replaced. */
module SlowConfirm {
  import opened Versions
  import P = Pairing

  /** `writing` are the confirmations that passed the check and whose writes are under way. */
  datatype State = State(pair: P.State, writing: set<P.Key>)

  /** `Other` is every step that writes nothing for a confirmation. */
  datatype Step = Other(step: P.Step) | BeginWrite(key: P.Key) | EndWrite(key: P.Key) | GiveUp(key: P.Key)

  predicate Initial(s: State)
  {
    P.Initial(s.pair) && s.writing == {}
  }

  /** The entry is active, and whatever exchange waits by now is forgotten. */
  function Written(s: P.State, key: P.Key): P.State
  {
    s.(host := s.host.(status := P.Active(key), handshake := None), sent := s.sent + {P.Completed(key)})
  }

  predicate Next(s: State, step: Step, s': State)
  {
    match step
    case Other(other) =>
      && !(other.HandleConfirm? && s.pair.host.handshake == Some(other.key))
      && P.Next(s.pair, other, s'.pair) && s'.writing == if other.HostRestarts? then {} else s.writing
    case BeginWrite(k) =>
      P.Confirm(k) in s.pair.sent && s.pair.host.handshake == Some(k) && s' == s.(writing := s.writing + {k})
    // Several confirmations of one exchange may be under way.
    case EndWrite(k) => k in s.writing && s' == s.(pair := Written(s.pair, k))
    case GiveUp(k) => s' == s.(writing := s.writing - {k})
  }

  predicate IsRun(states: seq<State>, steps: seq<Step>)
  {
    && |states| == |steps| + 1
    && forall i {:trigger steps[i]} | 0 <= i < |steps| :: Next(states[i], steps[i], states[i + 1])
  }

  /** The exchange still waits when its writes are over, or its key is active already. */
  predicate IsInTime(s: State, step: Step)
  {
    step.EndWrite? ==> s.pair.host.handshake == Some(step.key) || s.pair.host.status == P.Active(step.key)
  }

  ghost predicate AllInTime(states: seq<State>, steps: seq<Step>)
    requires |states| == |steps| + 1
  {
    forall i {:trigger steps[i]} | 0 <= i < |steps| :: IsInTime(states[i], steps[i])
  }

  // ─── In time, it is the pairing with confirmations in one step ───────────────

  ghost predicate Fine(s: State)
  {
    && P.Inv(s.pair)
    && (forall k {:trigger k in s.writing} | k in s.writing :: P.Confirm(k) in s.pair.sent)
    && forall k {:trigger P.Active(k)} :: s.pair.host.status == P.Active(k) ==> P.Completed(k) in s.pair.sent
  }

  /** The pairing's step for one taken in time; None when it changes nothing there. */
  function PairStep(s: State, step: Step): Option<P.Step>
  {
    match step
    case Other(other) => Some(other)
    case EndWrite(k) => Some(if s.pair.host.handshake == Some(k) then P.HandleConfirm(k) else P.HandleForeignConfirm)
    case _ => None
  }

  lemma StepRefines(s: State, step: Step, s': State)
    requires Fine(s) && Next(s, step, s') && IsInTime(s, step)
    ensures match PairStep(s, step)
            case Some(p) => P.Next(s.pair, p, s'.pair)
            case None => s'.pair == s.pair
  {
    if step.EndWrite? && s.pair.host.handshake != Some(step.key) {
      assert P.Completed(step.key) in s.pair.sent;
      assert s.pair.sent + {P.Completed(step.key)} == s.pair.sent;
    }
  }

  lemma StepKeepsFine(s: State, step: Step, s': State)
    requires Fine(s) && Next(s, step, s') && IsInTime(s, step)
    ensures Fine(s')
  {
    StepRefines(s, step, s');
    var p := PairStep(s, step);
    if p.Some? { P.StepKeepsInv(s.pair, p.value, s'.pair); }
    forall k | k in s'.writing ensures P.Confirm(k) in s'.pair.sent {
      assert k in s.writing || step == BeginWrite(k);
    }
  }

  /** The run of the pairing behind a run in time, up to its n-th state. */
  lemma {:induction false} RunRefines(states: seq<State>, steps: seq<Step>, n: nat) returns (pairs: seq<P.State>, pairSteps: seq<P.Step>)
    requires IsRun(states, steps) && AllInTime(states, steps) && Initial(states[0]) && n < |states|
    ensures Fine(states[n])
    ensures P.IsRun(pairs, pairSteps) && pairs[0] == states[0].pair && pairs[|pairSteps|] == states[n].pair
  {
    if n == 0 {
      P.InitialHasInv(states[0].pair);
      return [states[0].pair], [];
    }
    pairs, pairSteps := RunRefines(states, steps, n - 1);
    var step := steps[n - 1];
    assert IsInTime(states[n - 1], step);
    StepRefines(states[n - 1], step, states[n]);
    StepKeepsFine(states[n - 1], step, states[n]);
    var p := PairStep(states[n - 1], step);
    if p.Some? {
      pairs, pairSteps := OneMore(pairs, pairSteps, p.value, states[n].pair);
    }
  }

  lemma OneMore(pairs: seq<P.State>, steps: seq<P.Step>, step: P.Step, last: P.State) returns (pairs': seq<P.State>, steps': seq<P.Step>)
    requires P.IsRun(pairs, steps) && P.Next(pairs[|steps|], step, last)
    ensures P.IsRun(pairs', steps') && pairs'[0] == pairs[0] && pairs'[|steps'|] == last
  {
    pairs', steps' := pairs + [last], steps + [step];
    forall i | 0 <= i < |steps'| ensures P.Next(pairs'[i], steps'[i], pairs'[i + 1]) {
      if i < |steps| { assert steps'[i] == steps[i]; }
    }
  }

  /** As long as every exchange still waits when its confirmation is written, the joiner is active only
      with the host active under the same key. */
  lemma SlowPairingAgrees(states: seq<State>, steps: seq<Step>, n: nat)
    requires IsRun(states, steps) && AllInTime(states, steps) && Initial(states[0]) && n < |states|
    ensures states[n].pair.joiner.status.Active? ==> states[n].pair.host.status == states[n].pair.joiner.status
    ensures states[n].pair.host.status.Active? ==> states[n].pair.host.status.key in states[n].pair.persisted
  {
    var pairs, pairSteps := RunRefines(states, steps, n);
    P.PairingAgrees(pairs, pairSteps, |pairSteps|, |pairSteps|);
  }

  // ─── Too late ────────────────────────────────────────────────────────────────

  ghost predicate Reached(s: State)
  {
    exists states, steps :: IsRun(states, steps) && Initial(states[0]) && states[|steps|] == s
  }

  lemma LeadsOn(s: State, step: Step, t: State)
    requires Reached(s) && Next(s, step, t)
    ensures Reached(t)
  {
    var states, steps :| IsRun(states, steps) && Initial(states[0]) && states[|steps|] == s;
    var states', steps' := states + [t], steps + [step];
    forall i | 0 <= i < |steps'| ensures Next(states'[i], steps'[i], states'[i + 1]) {
      if i < |steps| { assert steps'[i] == steps[i]; }
    }
    assert IsRun(states', steps') && states'[0] == states[0] && states'[|steps'|] == t;
  }

  lemma Leads(s: State, step: P.Step, t: State)
    requires Reached(s) && !step.HostRestarts? && !(step.HandleConfirm? && s.pair.host.handshake == Some(step.key))
    requires t.writing == s.writing && P.Next(s.pair, step, t.pair)
    ensures Reached(t)
  {
    LeadsOn(s, Other(step), t);
  }

  const FIRST := P.Key(0, 0)
  const SECOND := P.Key(1, 1)

  /** The joiner stored the first exchange and confirmed it; whether its write is under way. */
  lemma FirstIsConfirmed()
    ensures Reached(State(P.Confirmed(), {FIRST}))
  {
    var states, steps := P.ConfirmationIsSent();
    var s := State(P.Confirmed(), {});
    var slow := seq(|states|, i requires 0 <= i < |states| => State(states[i], {}));
    var same := seq(|steps|, i requires 0 <= i < |steps| => Other(steps[i]));
    SentSlowly(states, steps, slow, same);
    LeadsOn(s, BeginWrite(FIRST), State(P.Confirmed(), {FIRST}));
  }

  lemma SentSlowly(states: seq<P.State>, steps: seq<P.Step>, slow: seq<State>, same: seq<Step>)
    requires P.IsRun(states, steps) && P.Initial(states[0]) && states[|steps|] == P.Confirmed()
    requires forall i | 0 <= i < |steps| :: !steps[i].HandleConfirm?
    requires |slow| == |states| && |same| == |steps|
    requires (forall i | 0 <= i < |states| :: slow[i] == State(states[i], {})) && forall i | 0 <= i < |steps| :: same[i] == Other(steps[i])
    ensures Reached(State(P.Confirmed(), {}))
  {
    forall i | 0 <= i < |same| ensures Next(slow[i], same[i], slow[i + 1]) {
      assert P.Next(states[i], steps[i], states[i + 1]);
    }
    assert IsRun(slow, same) && Initial(slow[0]);
  }

  /** A confirmation from somebody else ended the exchange, and the joiner, told so, gave it up. */
  function GivenUp(): State
  {
    var sent := P.Confirmed().sent + {P.Gone(FIRST)};
    State(P.State(P.HostSide(P.Pending, None, {}), P.JoinerSide(P.Pending, None, None, None), sent, {0}, {0}, {FIRST}, {FIRST}), {FIRST})
  }

  lemma LeadsToGivenUp()
    ensures Reached(GivenUp())
  {
    FirstIsConfirmed();
    var s0 := State(P.Confirmed(), {FIRST});
    var s1 := s0.(pair := s0.pair.(host := P.HostSide(P.Pending, None, {})));
    Leads(s0, P.HandleForeignConfirm, s1);
    var s2 := s1.(pair := s1.pair.(sent := GivenUp().pair.sent));
    Leads(s1, P.HandleConfirm(FIRST), s2);
    Leads(s2, P.GetGone(FIRST, false), GivenUp());
  }

  /** It asked again and was answered. */
  function Answered(): State
  {
    var g := GivenUp();
    g.(pair := P.State(P.HostSide(P.Pending, Some(SECOND), {}), P.JoinerSide(P.Pending, Some(1), None, None),
                       g.pair.sent + {P.Init(1)} + {P.Accept(SECOND)}, {0, 1}, {0, 1}, {FIRST}, {FIRST}))
  }

  lemma LeadsToAnswered()
    ensures Reached(Answered())
  {
    LeadsToGivenUp();
    var s0, s3 := GivenUp(), Answered();
    var s1 := s0.(pair := s0.pair.(joiner := s3.pair.joiner, sent := s0.pair.sent + {P.Init(1)}, joinerKeys := {0, 1}));
    Leads(s0, P.SendInit(1), s1);
    var s2 := s1.(pair := s1.pair.(host := P.HostSide(P.Pending, None, {1})));
    Leads(s1, P.BeginInit(1), s2);
    Leads(s2, P.FinishInit(1, 1), s3);
  }

  /** The second exchange is stored, confirmed and written. */
  function SecondWritten(): State
  {
    var a := Answered();
    State(a.pair.(host := P.HostSide(P.Active(SECOND), None, {}), joiner := P.JoinerSide(P.Pending, None, Some(SECOND), Some(SECOND)),
                  sent := a.pair.sent + {P.Confirm(SECOND)} + {P.Completed(SECOND)}, persisted := {FIRST, SECOND}),
          {FIRST, SECOND})
  }

  lemma LeadsToSecondWritten()
    ensures Reached(SecondWritten())
  {
    LeadsToAnswered();
    var s0 := Answered();
    var s1 := s0.(pair := s0.pair.(joiner := SecondWritten().pair.joiner, persisted := {FIRST, SECOND}));
    Leads(s0, P.Persist(SECOND), s1);
    var s2 := s1.(pair := s1.pair.(sent := s0.pair.sent + {P.Confirm(SECOND)}));
    Leads(s1, P.SendConfirm, s2);
    var s3 := s2.(writing := {FIRST, SECOND});
    LeadsOn(s2, BeginWrite(SECOND), s3);
    LeadsOn(s3, EndWrite(SECOND), SecondWritten());
  }

  /** The first confirmation's writes outlast its exchange and the whole second one: both sides are
      active, with different keys. */
  lemma LateWriteParts() returns (s: State)
    ensures Reached(s) && s.pair.host.status == P.Active(FIRST) && s.pair.joiner.status == P.Active(SECOND) && FIRST != SECOND
  {
    LeadsToSecondWritten();
    var w := SecondWritten();
    var both := w.(pair := w.pair.(joiner := P.JoinerSide(P.Active(SECOND), None, None, None)));
    Leads(w, P.GetCompleted(SECOND), both);
    s := both.(pair := Written(both.pair, FIRST));
    LeadsOn(both, EndWrite(FIRST), s);
  }
}
