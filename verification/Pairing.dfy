/** Pairing two nodes once (src/cluster/pairing.ts, src/cluster/store.ts): a joiner and a
    host over a network that loses, delays and repeats messages, with restarts of either side.

    Keys are symbolic: the link key of an exchange is determined by the joiner's and the host's
    ephemeral key, and only who holds a key can confirm it. */
module Pairing {
  import opened Versions

  datatype Key = Key(joiner: nat, host: nat)

  datatype Status = Pending | Closed | Active(key: Key)

  /** `status` is stored in the database; the exchange waiting for its confirmation and the
      pairing requests whose secret is being stretched live in memory. */
  datatype HostSide = HostSide(status: Status, handshake: Option<Key>, deriving: set<nat>)

  /** `stored` is the exchange persisted before it is confirmed. `waiting`, the ephemeral key of the
      request being answered, and `confirming`, the exchange whose confirmation is being answered,
      live in memory, and no more than one of them is under way. */
  datatype JoinerSide = JoinerSide(status: Status, waiting: Option<nat>, stored: Option<Key>, confirming: Option<Key>)

  datatype Message = Init(ephemeral: nat) | Accept(key: Key) | Confirm(key: Key) | Completed(key: Key) | Gone(key: Key)

  /** `sent` keeps every message for ever: each may arrive at any time, any number of times or
      never. `persisted` and `dropped` are the keys the joiner ever stored and gave up. */
  datatype State = State(host: HostSide, joiner: JoinerSide, sent: set<Message>,
                         joinerKeys: set<nat>, hostKeys: set<nat>, persisted: set<Key>, dropped: set<Key>)

  datatype Step =
    | SendInit(ephemeral: nat)
    | BeginInit(ephemeral: nat)
    | FinishInit(ephemeral: nat, hostEphemeral: nat)
    | Persist(key: Key)
    | Retry(key: Key)
    | SendConfirm
    | HandleConfirm(key: Key)
    | HandleForeignConfirm
    | HandshakeExpires
    | WindowCloses
    | HostRestarts
    | GetCompleted(key: Key)
    | GetGone(key: Key, sessionOpens: bool)
    | NoAnswer
    | JoinerCloses   // its window expired, or too many failures
    | JoinerRestarts

  // ─── Either side by itself ───────────────────────────────────────────────────

  /** A confirmation: activates the entry when it proves the very key of the waiting exchange,
      whatever the entry's status; a wrong one ends the exchange. */
  function AfterConfirm(h: HostSide, key: Key): (HostSide, Message)
  {
    if h.handshake == Some(key) then (h.(status := Active(key), handshake := None), Completed(key))
    else (h.(handshake := None), Gone(key))
  }

  /** A request answered: the exchange now waiting has a key of its own, and the one before it is
      forgotten. */
  function AfterInit(h: HostSide, ephemeral: nat, own: nat): (HostSide, Message)
  {
    (h.(handshake := Some(Key(ephemeral, own)), deriving := h.deriving - {ephemeral}), Accept(Key(ephemeral, own)))
  }

  /** The end of a confirmation. Completed, or gone while a session with the key works: active,
      whatever the entry's status. Gone otherwise: the exchange is dropped. */
  function AfterAnswer(j: JoinerSide, key: Key, works: bool): JoinerSide
  {
    j.(status := if works then Active(key) else j.status, stored := None, confirming := None)
  }

  class Host {
    var status: Status
    var handshake: Option<Key>
    var deriving: set<nat>

    function Value(): HostSide reads this { HostSide(status, handshake, deriving) }

    method HandlePairConfirm(mac: Key) returns (answer: Message)
      modifies this
      ensures (Value(), answer) == AfterConfirm(old(Value()), mac)
      ensures handshake == None && deriving == old(deriving)
      ensures old(handshake) == Some(mac) ==> status == Active(mac) && answer == Completed(mac)
      ensures old(handshake) != Some(mac) ==> status == old(status) && answer == Gone(mac)
    {
      if handshake.None? { return Gone(mac); }
      if handshake.value != mac {
        handshake := None;
        return Gone(mac);
      }
      status := Active(handshake.value);
      handshake := None;
      answer := Completed(mac);
    }

    method FinishPairInit(ephemeral: nat, own: nat) returns (answer: Message)
      modifies this
      ensures (Value(), answer) == AfterInit(old(Value()), ephemeral, own)
      ensures handshake == Some(Key(ephemeral, own)) && answer == Accept(Key(ephemeral, own)) && status == old(status)
    {
      deriving := deriving - {ephemeral};
      handshake := Some(Key(ephemeral, own));
      answer := Accept(handshake.value);
    }
  }

  class Joiner {
    var status: Status
    var waiting: Option<nat>
    var stored: Option<Key>
    var confirming: Option<Key>

    function Value(): JoinerSide reads this { JoinerSide(status, waiting, stored, confirming) }

    /** Acts on the answer to the confirmation under way; without one the exchange is kept. */
    method ConfirmStep(answer: Option<Message>, sessionOpens: bool)
      requires confirming.Some? && (answer.Some? ==> answer.value in {Completed(confirming.value), Gone(confirming.value)})
      modifies this
      ensures answer.None? ==> Value() == old(Value()).(confirming := None)
      ensures answer.Some? ==> Value() == AfterAnswer(old(Value()), old(confirming).value, answer.value.Completed? || sessionOpens)
      ensures confirming == None && waiting == old(waiting)
      ensures answer.None? ==> status == old(status) && stored == old(stored)
      ensures answer.Some? ==> stored == None && status == if answer.value.Completed? || sessionOpens then Active(old(confirming).value) else old(status)
    {
      var key := confirming.value;
      confirming := None;
      if answer.None? { return; }
      if answer.value == Completed(key) || sessionOpens {
        status := Active(key);
      }
      stored := None;
    }
  }

  // ─── The two together ────────────────────────────────────────────────────────

  predicate Initial(s: State)
  {
    && s.host == HostSide(Pending, None, {}) && s.joiner == JoinerSide(Pending, None, None, None)
    && s.sent == {} && s.joinerKeys == {} && s.hostKeys == {} && s.persisted == {} && s.dropped == {}
  }

  predicate Next(s: State, step: Step, s': State)
  {
    match step
    case SendInit(e) =>
      && s.joiner.status == Pending && s.joiner.stored == None && s.joiner.confirming == None && e !in s.joinerKeys
      && s' == s.(joiner := s.joiner.(waiting := Some(e)), sent := s.sent + {Init(e)}, joinerKeys := s.joinerKeys + {e})
    case BeginInit(e) =>
      && Init(e) in s.sent && s.host.status == Pending
      && s' == s.(host := s.host.(deriving := s.host.deriving + {e}))
    case FinishInit(e, f) =>
      && e in s.host.deriving && f !in s.hostKeys
      && s' == s.(host := AfterInit(s.host, e, f).0, sent := s.sent + {AfterInit(s.host, e, f).1}, hostKeys := s.hostKeys + {f})
    // Stored and confirmed even when the window closed meanwhile.
    case Persist(k) =>
      && s.joiner.waiting == Some(k.joiner) && Accept(k) in s.sent
      && s' == s.(joiner := s.joiner.(waiting := None, stored := Some(k), confirming := Some(k)), persisted := s.persisted + {k})
    case Retry(k) =>
      && s.joiner.status == Pending && s.joiner.stored == Some(k) && s.joiner.confirming == None
      && s' == s.(joiner := s.joiner.(confirming := Some(k)))
    case SendConfirm =>
      && s.joiner.confirming.Some?
      && s' == s.(sent := s.sent + {Confirm(s.joiner.confirming.value)})
    case HandleConfirm(k) =>
      && Confirm(k) in s.sent
      && s' == s.(host := AfterConfirm(s.host, k).0, sent := s.sent + {AfterConfirm(s.host, k).1})
    case HandleForeignConfirm => s' == s.(host := s.host.(handshake := None))
    case HandshakeExpires => s' == s.(host := s.host.(handshake := None))
    case WindowCloses => s.host.status == Pending && s' == s.(host := s.host.(status := Closed))
    case HostRestarts => s' == s.(host := s.host.(handshake := None, deriving := {}))
    case GetCompleted(k) =>
      && s.joiner.confirming == Some(k) && Completed(k) in s.sent
      && s' == s.(joiner := AfterAnswer(s.joiner, k, true))
    case GetGone(k, sessionOpens) =>
      && s.joiner.confirming == Some(k) && Gone(k) in s.sent
      && (sessionOpens ==> s.host.status == Active(k))
      && s' == s.(joiner := AfterAnswer(s.joiner, k, sessionOpens),
                  dropped := if sessionOpens then s.dropped else s.dropped + {k})
    case NoAnswer => s.joiner.confirming.Some? && s' == s.(joiner := s.joiner.(confirming := None))
    case JoinerCloses =>
      && s.joiner.status == Pending
      && s' == s.(joiner := s.joiner.(status := Closed, stored := None))
    case JoinerRestarts => s' == s.(joiner := s.joiner.(waiting := None, confirming := None))
  }

  // ─── Invariant ───────────────────────────────────────────────────────────────

  /** Keys come from requests made and answers given; a key in a message was persisted where the
      protocol says so. */
  ghost predicate MessagesAreTrue(s: State)
  {
    && (forall e {:trigger Init(e) in s.sent} | Init(e) in s.sent :: e in s.joinerKeys)
    && (forall k {:trigger Accept(k) in s.sent} | Accept(k) in s.sent :: k.joiner in s.joinerKeys && k.host in s.hostKeys)
    && (forall k {:trigger Confirm(k) in s.sent} | Confirm(k) in s.sent :: k in s.persisted)
    && (forall k {:trigger Completed(k) in s.sent} | Completed(k) in s.sent :: s.host.status == Active(k))
    && (forall k {:trigger Gone(k) in s.sent} | Gone(k) in s.sent :: k in s.persisted && s.host.handshake != Some(k))
  }

  ghost predicate KeysAreFresh(s: State)
  {
    && s.host.deriving <= s.joinerKeys
    && (s.host.handshake.Some? ==> s.host.handshake.value.joiner in s.joinerKeys && s.host.handshake.value.host in s.hostKeys)
    && (s.joiner.waiting.Some? ==> s.joiner.waiting.value in s.joinerKeys)
    && (forall k {:trigger k in s.persisted} | k in s.persisted ::
          k.joiner in s.joinerKeys && k.host in s.hostKeys && s.joiner.waiting != Some(k.joiner))
  }

  /** The key may still become active. */
  predicate IsLive(s: State, k: Key)
  {
    k in s.persisted && k !in s.dropped
  }

  ghost predicate NoneLive(s: State)
  {
    forall k {:trigger IsLive(s, k)} :: !IsLive(s, k)
  }

  /** At most one key is live, none while a request is being answered or could be made, and it is
      what the joiner stores, confirms or is active with. A dropped key is never waited for again. */
  ghost predicate OneLiveKey(s: State)
  {
    && s.dropped <= s.persisted
    && (forall k, l {:trigger IsLive(s, k), IsLive(s, l)} | IsLive(s, k) && IsLive(s, l) :: k == l)
    && (s.joiner.waiting.Some? ==> NoneLive(s) && s.joiner.stored == None && s.joiner.confirming == None)
    && (s.joiner.status == Pending && s.joiner.stored == None && s.joiner.confirming == None ==> NoneLive(s))
    && (s.joiner.status == Pending && s.joiner.confirming.Some? ==> s.joiner.stored == s.joiner.confirming)
    && (s.joiner.stored.Some? ==> IsLive(s, s.joiner.stored.value))
    && (s.joiner.confirming.Some? ==> IsLive(s, s.joiner.confirming.value))
    && (s.joiner.status.Active? ==> IsLive(s, s.joiner.status.key) && s.joiner.stored == None && s.joiner.confirming == None)
    && (forall k {:trigger k in s.dropped} | k in s.dropped :: s.host.handshake != Some(k))
  }

  ghost predicate Agreement(s: State)
  {
    && (s.host.status.Active? ==> s.host.status.key in s.persisted
                                  && forall k {:trigger IsLive(s, k)} | IsLive(s, k) :: k == s.host.status.key)
    && (s.joiner.status.Active? ==> s.host.status == s.joiner.status)
    && (s.host.status.Active? && s.joiner.waiting.Some? ==> Unanswered(s, s.joiner.waiting.value))
  }

  /** The host never answers this request: it came when the entry was no longer open. */
  ghost predicate Unanswered(s: State, e: nat)
  {
    && e !in s.host.deriving
    && (forall k {:trigger Accept(k) in s.sent} | Accept(k) in s.sent :: k.joiner != e)
  }

  ghost predicate Inv(s: State)
  {
    MessagesAreTrue(s) && KeysAreFresh(s) && OneLiveKey(s) && Agreement(s)
  }

  lemma InitialHasInv(s: State)
    requires Initial(s)
    ensures Inv(s)
  {
  }

  /** The key of an exchange that is confirmed while it waits is the live one. */
  lemma ConfirmedKeyIsLive(s: State, k: Key)
    requires Inv(s) && Confirm(k) in s.sent && s.host.handshake == Some(k)
    ensures IsLive(s, k) && (s.host.status.Active? ==> s.host.status == Active(k))
  {
    assert k in s.persisted && k !in s.dropped;
    assert IsLive(s, k);
  }

  /** The host's key never changes once it is active. */
  lemma ActiveHostKeepsItsKey(s: State, step: Step, s': State)
    requires Inv(s) && Next(s, step, s') && s.host.status.Active?
    ensures s'.host.status == s.host.status
  {
    if step.HandleConfirm? && s.host.handshake == Some(step.key) { ConfirmedKeyIsLive(s, step.key); }
  }

  predicate IsHostStep(step: Step)
  {
    step.BeginInit? || step.FinishInit? || step.HandleConfirm? || step.HandleForeignConfirm? || step.HandshakeExpires?
    || step.WindowCloses? || step.HostRestarts?
  }

  lemma HostStepKeepsInv(s: State, step: Step, s': State)
    requires Inv(s) && Next(s, step, s') && IsHostStep(step)
    ensures Inv(s')
  {
    assert forall k {:trigger IsLive(s', k)} :: IsLive(s', k) <==> IsLive(s, k);
    if step.HandleConfirm? && s.host.handshake == Some(step.key) { ConfirmedKeyIsLive(s, step.key); }
  }

  lemma AskingKeepsInv(s: State, step: Step, s': State)
    requires Inv(s) && Next(s, step, s') && (step.SendInit? || step.Persist?)
    ensures Inv(s')
  {
    assert forall k {:trigger IsLive(s', k)} :: IsLive(s', k) <==> IsLive(s, k) || (step.Persist? && k == step.key);
  }

  lemma ConfirmingKeepsInv(s: State, step: Step, s': State)
    requires Inv(s) && Next(s, step, s') && !IsHostStep(step) && !step.SendInit? && !step.Persist?
    ensures Inv(s')
  {
    assert forall k {:trigger IsLive(s', k)} :: IsLive(s', k) ==> IsLive(s, k);
    assert forall k {:trigger IsLive(s, k)} :: IsLive(s, k) ==> IsLive(s', k) || (step.GetGone? && k == step.key);
    if step.GetGone? { assert IsLive(s, step.key); }
  }

  lemma StepKeepsInv(s: State, step: Step, s': State)
    requires Inv(s) && Next(s, step, s')
    ensures Inv(s')
  {
    if IsHostStep(step) {
      HostStepKeepsInv(s, step, s');
    } else if step.SendInit? || step.Persist? {
      AskingKeepsInv(s, step, s');
    } else {
      ConfirmingKeepsInv(s, step, s');
    }
  }

  // ─── Runs ────────────────────────────────────────────────────────────────────

  predicate IsRun(states: seq<State>, steps: seq<Step>)
  {
    && |states| == |steps| + 1
    && forall i {:trigger steps[i]} | 0 <= i < |steps| :: Next(states[i], steps[i], states[i + 1])
  }

  lemma {:induction false} RunKeepsInv(states: seq<State>, steps: seq<Step>, i: nat)
    requires IsRun(states, steps) && Inv(states[0]) && i < |states|
    ensures Inv(states[i])
  {
    if i > 0 {
      RunKeepsInv(states, steps, i - 1);
      StepKeepsInv(states[i - 1], steps[i - 1], states[i]);
    }
  }

  lemma {:induction false} HostStaysActive(states: seq<State>, steps: seq<Step>, i: nat, k: nat)
    requires IsRun(states, steps) && Inv(states[0]) && i <= k < |states| && states[i].host.status.Active?
    ensures states[k].host.status == states[i].host.status
  {
    if i < k {
      HostStaysActive(states, steps, i, k - 1);
      RunKeepsInv(states, steps, k - 1);
      ActiveHostKeepsItsKey(states[k - 1], steps[k - 1], states[k]);
    }
  }

  /** The joiner is active only when the host already is, with the same key; the host only with
      a key the joiner had stored durably; and no two keys are ever active in one run. */
  lemma PairingAgrees(states: seq<State>, steps: seq<Step>, i: nat, k: nat)
    requires IsRun(states, steps) && Initial(states[0]) && i < |states| && k < |states|
    ensures states[i].joiner.status.Active? ==> states[i].host.status == states[i].joiner.status
    ensures states[i].host.status.Active? ==> states[i].host.status.key in states[i].persisted
    ensures states[i].host.status.Active? && states[k].joiner.status.Active? ==> states[i].host.status == states[k].joiner.status
  {
    InitialHasInv(states[0]);
    RunKeepsInv(states, steps, i);
    RunKeepsInv(states, steps, k);
    if states[i].host.status.Active? && states[k].joiner.status.Active? {
      if i <= k { HostStaysActive(states, steps, i, k); } else { HostStaysActive(states, steps, k, i); }
    }
  }

  /** An exchange once answered has a key no other answer ever has: after it ended or was replaced,
      the host never waits for it again. */
  lemma {:induction false} EndedExchangeNeverReturns(states: seq<State>, steps: seq<Step>, i: nat, j: nat, k: Key)
    requires IsRun(states, steps) && Initial(states[0]) && i <= j < |states|
    requires k.host in states[i].hostKeys && states[i].host.handshake != Some(k)
    ensures k.host in states[j].hostKeys && states[j].host.handshake != Some(k)
  {
    if i < j {
      EndedExchangeNeverReturns(states, steps, i, j - 1, k);
      assert Next(states[j - 1], steps[j - 1], states[j]);
    }
  }

  /** The joiner still has the key at hand: stored, or in a confirmation under way. */
  predicate Holds(j: JoinerSide, k: Key)
  {
    j.stored == Some(k) || j.confirming == Some(k)
  }

  /** The host turns active only with the one key that is live; the joiner has it at hand unless its
      own entry was closed meanwhile. */
  lemma HostActivatesWithTheLiveKey(s: State, step: Step, s': State)
    requires Inv(s) && Next(s, step, s') && !s.host.status.Active? && s'.host.status.Active?
    ensures IsLive(s, s'.host.status.key)
    ensures Holds(s.joiner, s'.host.status.key) || s.joiner.status == Closed
  {
    ConfirmedKeyIsLive(s, step.key);
  }

  /** The joiner turns active only after the host did, with the same key, and out of a confirmation
      under way. */
  lemma JoinerActivatesAfterTheHost(s: State, step: Step, s': State)
    requires Inv(s) && Next(s, step, s') && !s.joiner.status.Active? && s'.joiner.status.Active?
    ensures s.host.status == s'.joiner.status && s.joiner.confirming == Some(s'.joiner.status.key)
  {
  }

  // ─── When the joiner still gets there ────────────────────────────────────────

  /** A confirmation is under way, or the next round makes one. */
  predicate StillConfirms(j: JoinerSide)
  {
    j.confirming.Some? || (j.status == Pending && j.stored.Some?)
  }

  /** The host is active and the joiner will not confirm any more. */
  ghost predicate Stranded(s: State)
  {
    s.host.status.Active? && !s.joiner.status.Active? && !StillConfirms(s.joiner)
  }

  lemma StrandedStaysStranded(s: State, step: Step, s': State)
    requires Inv(s) && Stranded(s) && Next(s, step, s')
    ensures Stranded(s')
  {
    ActiveHostKeepsItsKey(s, step, s');
  }

  lemma {:induction false} StrandedForever(states: seq<State>, steps: seq<Step>, i: nat)
    requires IsRun(states, steps) && Inv(states[0]) && Stranded(states[0]) && i < |states|
    ensures Stranded(states[i])
  {
    if i > 0 {
      StrandedForever(states, steps, i - 1);
      RunKeepsInv(states, steps, i - 1);
      StrandedStaysStranded(states[i - 1], steps[i - 1], states[i]);
    }
  }

  /** The steps from a confirmation under way to an active joiner. */
  lemma ConfirmationSucceeds(s: State) returns (states: seq<State>, steps: seq<Step>)
    requires Inv(s) && s.host.status.Active? && s.joiner.confirming.Some?
    ensures IsRun(states, steps) && states[0] == s && states[|steps|].joiner.status == s.host.status
  {
    var k := s.joiner.confirming.value;
    var s1 := s.(sent := s.sent + {Confirm(k)});
    assert Next(s, SendConfirm, s1);
    var s2 := s1.(host := AfterConfirm(s1.host, k).0, sent := s1.sent + {AfterConfirm(s1.host, k).1});
    assert Next(s1, HandleConfirm(k), s2);
    var last := if s1.host.handshake == Some(k) then GetCompleted(k) else GetGone(k, true);
    var s3 := s2.(joiner := AfterAnswer(s2.joiner, k, true));
    assert Next(s2, last, s3);
    return [s, s1, s2, s3], [SendConfirm, HandleConfirm(k), last];
  }

  /** With the host active, the joiner can still become active exactly while it still confirms: a
      lost answer is recovered, an exchange given up or closed is not. */
  lemma LostAnswerIsRecoveredWhileConfirming(s: State) returns (states: seq<State>, steps: seq<Step>)
    requires Inv(s) && s.host.status.Active? && !s.joiner.status.Active?
    ensures IsRun(states, steps) && states[0] == s
    ensures StillConfirms(s.joiner) ==> states[|steps|].joiner.status == s.host.status
    ensures !StillConfirms(s.joiner) ==> Stranded(s)
  {
    if s.joiner.confirming.Some? {
      states, steps := ConfirmationSucceeds(s);
    } else if StillConfirms(s.joiner) {
      var k := s.joiner.stored.value;
      var r := s.(joiner := s.joiner.(confirming := Some(k)));
      assert Next(s, Retry(k), r);
      StepKeepsInv(s, Retry(k), r);
      var rest, restSteps := ConfirmationSucceeds(r);
      states, steps := [s] + rest, [Retry(k)] + restSteps;
      forall i | 0 <= i < |steps| ensures Next(states[i], steps[i], states[i + 1]) {
        if i > 0 { assert steps[i] == restSteps[i - 1]; }
      }
    } else {
      return [s], [];
    }
  }

  // ─── How it is stranded ──────────────────────────────────────────────────────

  function Begin(): State
  {
    State(HostSide(Pending, None, {}), JoinerSide(Pending, None, None, None), {}, {}, {}, {}, {})
  }

  /** The joiner has stored the exchange and sent its confirmation. */
  function Confirmed(): State
  {
    State(HostSide(Pending, Some(Key(0, 0)), {}), JoinerSide(Pending, None, Some(Key(0, 0)), Some(Key(0, 0))),
          {Init(0), Accept(Key(0, 0)), Confirm(Key(0, 0))}, {0}, {0}, {Key(0, 0)}, {})
  }

  lemma ConfirmationIsSent() returns (states: seq<State>, steps: seq<Step>)
    ensures IsRun(states, steps) && states[0] == Begin() && Initial(Begin()) && states[|steps|] == Confirmed()
    ensures forall i | 0 <= i < |steps| :: !steps[i].HandleConfirm?
  {
    var k := Key(0, 0);
    var s1 := Begin().(joiner := JoinerSide(Pending, Some(0), None, None), sent := {Init(0)}, joinerKeys := {0});
    assert Next(Begin(), SendInit(0), s1);
    var s2 := s1.(host := HostSide(Pending, None, {0}));
    assert Next(s1, BeginInit(0), s2);
    var s3 := s2.(host := HostSide(Pending, Some(k), {}), sent := {Init(0), Accept(k)}, hostKeys := {0});
    assert Next(s2, FinishInit(0, 0), s3);
    var s4 := s3.(joiner := JoinerSide(Pending, None, Some(k), Some(k)), persisted := {k});
    assert Next(s3, Persist(k), s4);
    assert Next(s4, SendConfirm, Confirmed());
    return [Begin(), s1, s2, s3, s4, Confirmed()], [SendInit(0), BeginInit(0), FinishInit(0, 0), Persist(k), SendConfirm];
  }

  lemma RunsJoin(a: seq<State>, aSteps: seq<Step>, b: seq<State>, bSteps: seq<Step>)
    requires IsRun(a, aSteps) && IsRun(b, bSteps) && a[|aSteps|] == b[0]
    ensures IsRun(a + b[1..], aSteps + bSteps) && (a + b[1..])[|aSteps + bSteps|] == b[|bSteps|]
  {
    var states, steps := a + b[1..], aSteps + bSteps;
    forall i | 0 <= i < |steps| ensures Next(states[i], steps[i], states[i + 1]) {
      if i < |aSteps| { assert steps[i] == aSteps[i]; } else { assert steps[i] == bSteps[i - |aSteps|]; }
    }
  }

  /** The joiner's window expires while its confirmation is under way, the call ends without an
      answer, and the confirmation arrives after all: the host is active with a key the joiner no
      longer has, for good. */
  lemma ExpiryStrandsTheJoiner() returns (states: seq<State>, steps: seq<Step>)
    ensures IsRun(states, steps) && Initial(states[0]) && Stranded(states[|steps|]) && !Holds(states[|steps|].joiner, Key(0, 0))
  {
    var first, firstSteps := ConfirmationIsSent();
    var s0, k := Confirmed(), Key(0, 0);
    var s1 := s0.(joiner := JoinerSide(Closed, None, None, Some(k)));
    assert Next(s0, JoinerCloses, s1);
    var s2 := s1.(joiner := JoinerSide(Closed, None, None, None));
    assert Next(s1, NoAnswer, s2);
    var s3 := s2.(host := HostSide(Active(k), None, {}), sent := s2.sent + {Completed(k)});
    assert Next(s2, HandleConfirm(k), s3);
    var rest, restSteps := [s0, s1, s2, s3], [JoinerCloses, NoAnswer, HandleConfirm(k)];
    RunsJoin(first, firstSteps, rest, restSteps);
    return first + rest[1..], firstSteps + restSteps;
  }

  /** The host completes the exchange, its answer and the session that would have told so are lost,
      and the joiner starts over: nobody answers its requests any more. */
  lemma LostSessionStrandsTheJoiner() returns (states: seq<State>, steps: seq<Step>)
    ensures IsRun(states, steps) && Initial(states[0]) && Stranded(states[|steps|]) && states[|steps|].joiner.status == Pending
  {
    var first, firstSteps := ConfirmationIsSent();
    var s0, k := Confirmed(), Key(0, 0);
    var s1 := s0.(host := HostSide(Active(k), None, {}), sent := s0.sent + {Completed(k)});
    assert Next(s0, HandleConfirm(k), s1);
    var s2 := s1.(sent := s1.sent + {Gone(k)});
    assert Next(s1, HandleConfirm(k), s2);
    var s3 := s2.(joiner := JoinerSide(Pending, None, None, None), dropped := {k});
    assert Next(s2, GetGone(k, false), s3);
    var rest, restSteps := [s0, s1, s2, s3], [HandleConfirm(k), HandleConfirm(k), GetGone(k, false)];
    RunsJoin(first, firstSteps, rest, restSteps);
    return first + rest[1..], firstSteps + restSteps;
  }
}
