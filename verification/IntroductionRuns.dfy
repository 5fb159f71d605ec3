/** Runs in which an introduced node ends with two entries, or loses a link or a decision
    (src/cluster/mesh.ts, src/cluster/pairing.ts). */
module IntroductionRuns {
  import opened Versions
  import opened Introductions
  import opened Attempts

  lemma {:induction false} RunExtends(s: State, steps: seq<Step>, step: Step, node: string)
    requires Runs(s, steps) && Enabled(After(s, steps), step)
    ensures Runs(s, steps + [step]) && After(s, steps + [step]) == Next(After(s, steps), step)
    ensures AllOrderly(s, steps, node) && IsOrderly(After(s, steps), step, node) ==> AllOrderly(s, steps + [step], node)
    decreases |steps|
  {
    if steps != [] {
      assert (steps + [step])[1..] == steps[1..] + [step];
      RunExtends(Next(s, steps[0]), steps[1..], step, node);
    } else {
      assert [] + [step] == [step] && [step][1..] == [];
    }
  }

  /** A run from the beginning leads to `s`; if `orderly`, introductions to the node come one at a
      time in it. */
  ghost predicate Leads(s: State, node: string, orderly: bool)
  {
    exists steps :: Runs(Start, steps) && After(Start, steps) == s && (orderly ==> AllOrderly(Start, steps, node))
  }

  lemma LeadsNowhere(node: string, orderly: bool)
    ensures Leads(Start, node, orderly)
  {
    assert Runs(Start, []) && After(Start, []) == Start && AllOrderly(Start, [], node);
  }

  lemma LeadsOn(s: State, step: Step, t: State, node: string, orderly: bool)
    requires Leads(s, node, orderly) && Enabled(s, step) && Next(s, step) == t && (orderly ==> IsOrderly(s, step, node))
    ensures Leads(t, node, orderly)
  {
    var steps :| Runs(Start, steps) && After(Start, steps) == s && (orderly ==> AllOrderly(Start, steps, node));
    RunExtends(Start, steps, step, node);
  }

  /** A hosting entry that waits for the node, and what becomes of it. */
  function Waiting(node: string, until: int): Entry
  {
    Entry(Host, None, Some(node), Some(node), Pending, Some(until))
  }

  function Linked(node: string): Entry
  {
    Linking(Waiting(node, 0), node)
  }

  /** After the first write of an introduction. */
  function HalfIntroduced(s: State, node: string, until: int): State
  {
    State(s.entries[s.nextId := Attempt(node, Host, until)], map[0 := Call(node, Host, Telling(s.nextId))], s.pairings, s.nextId + 1, s.now)
  }

  lemma HalfIntroduces(s: State, node: string, until: int, orderly: bool)
    requires Leads(s, node, orderly) && s.calls == map[] && Naming(s.entries, node) == {}
    ensures Leads(HalfIntroduced(s, node, until), node, orderly)
  {
    var checked := s.(calls := map[0 := Call(node, Host, Clearing({}))]);
    LeadsOn(s, Check(0, node, Host), checked, node, orderly);
    LeadsOn(checked, Create(0, until), HalfIntroduced(s, node, until), node, orderly);
  }

  /** One introduction, from its check to its second write. */
  lemma Introduces(s: State, node: string, until: int, orderly: bool)
    requires Leads(s, node, orderly) && s.calls == map[] && s.nextId !in s.entries && Naming(s.entries, node) == {}
    ensures Leads(s.(entries := s.entries[s.nextId := Waiting(node, until)], nextId := s.nextId + 1), node, orderly)
  {
    HalfIntroduces(s, node, until, orderly);
    var b := HalfIntroduced(s, node, until);
    var c := s.(entries := s.entries[s.nextId := Waiting(node, until)], nextId := s.nextId + 1);
    assert b.entries[s.nextId := Waiting(node, until)] == c.entries && b.calls - {0} == map[];
    LeadsOn(b, Tell(0), c, node, orderly);
  }

  /** One hosting attempt, told, until 60. */
  function Once(node: string): State
  {
    State(map[0 := Waiting(node, 60)], map[], {}, 1, 0)
  }

  lemma LeadsToOnce(node: string, orderly: bool)
    ensures Leads(Once(node), node, orderly)
  {
    LeadsNowhere(node, orderly);
    Introduces(Start, node, 60, orderly);
    assert Start.entries[0 := Waiting(node, 60)] == map[0 := Waiting(node, 60)];
  }

  /** The node answered in time, and its confirmation is on its way when the window is over. */
  function Late(node: string): State
  {
    State(map[0 := Waiting(node, 60)], map[], {(0, node)}, 1, 61)
  }

  lemma LeadsToLate(node: string)
    ensures Leads(Late(node), node, true)
  {
    LeadsToOnce(node, true);
    var met := Once(node).(pairings := {(0, node)});
    LeadsOn(Once(node), Meet(0, node), met, node, true);
    LeadsOn(met, Tick(61), Late(node), node, true);
  }

  /** The next introduction has read the attempt; meanwhile it may have become a link. */
  function Read(node: string, linked: bool): State
  {
    State(map[0 := if linked then Linked(node) else Waiting(node, 60)], map[0 := Call(node, Host, Clearing({0}))], {(0, node)}, 1, 61)
  }

  lemma LeadsToRead(node: string)
    ensures Leads(Read(node, false), node, true)
  {
    LeadsToLate(node);
    assert Naming(Late(node).entries, node) == {0};
    LeadsOn(Late(node), Check(0, node, Host), Read(node, false), node, true);
  }

  lemma LeadsToReadLink(node: string)
    ensures Leads(Read(node, true), node, true)
  {
    LeadsToRead(node);
    assert Read(node, false).entries[0 := Linking(Waiting(node, 60), node)] == Read(node, true).entries;
    LeadsOn(Read(node, false), Pair(0, node), Read(node, true), node, true);
  }

  /** A link that comes up between the check that found its window closed and the deletion is deleted
      while it is active. */
  lemma LateLinkIsDropped(node: string) returns (up: State, end: State)
    ensures Leads(up, node, true) && up.entries == map[0 := Linked(node)] && Linked(node).status == Active
    ensures Leads(end, node, true) && end.entries == map[]
  {
    LeadsToReadLink(node);
    up := Read(node, true);
    var step := Drop(0, 0);
    end := Next(up, step);
    LeadsOn(up, step, end, node, true);
  }

  /** The window is over and closed: the attempt names nobody any more. */
  function Expiry(node: string, met: bool): State
  {
    State(map[0 := Closed(Waiting(node, 60), Expired)], map[], if met then {(0, node)} else {}, 1, 61)
  }

  lemma LeadsToExpiry(node: string, met: bool)
    ensures Leads(Expiry(node, met), node, true)
  {
    if met {
      LeadsToLate(node);
      LeadsOn(Late(node), Close(0, Expired), Expiry(node, true), node, true);
    } else {
      LeadsToOnce(node, true);
      var waited := Once(node).(now := 61);
      LeadsOn(Once(node), Tick(61), waited, node, true);
      LeadsOn(waited, Close(0, Expired), Expiry(node, false), node, true);
    }
  }

  /** The same node introduced again. */
  function Again(node: string, met: bool): State
  {
    Expiry(node, met).(entries := map[0 := Closed(Waiting(node, 60), Expired), 1 := Waiting(node, 120)], nextId := 2)
  }

  lemma LeadsToAgain(node: string, met: bool)
    ensures Leads(Again(node, met), node, true)
  {
    LeadsToExpiry(node, met);
    Introduces(Expiry(node, met), node, 120, true);
    assert Expiry(node, met).entries[1 := Waiting(node, 120)] == Again(node, met).entries;
  }

  /** Introductions one at a time, and yet an expired hosting attempt does not give way to the next
      one: two entries made for the node, and the first stays until a person deletes it. */
  lemma ExpiredAttemptStays(node: string) returns (t: State)
    ensures Leads(t, node, true) && NobodyAt(t, node) && t.entries.Keys == {0, 1}
    ensures MadeFor(t.entries[0], node) && MadeFor(t.entries[1], node) && t.entries[0].status == Expired && IsOpen(t.entries[1], t.now)
    ensures IsForgotten(t, 0)
  {
    t := Again(node, false);
    LeadsToAgain(node, false);
  }

  /** Introductions one at a time, but a confirmation arrives after the attempt was closed: a link and
      an open pairing with one node. */
  lemma LateLinkBesideAttempt(node: string) returns (t: State)
    ensures Leads(t, node, true) && t.entries.Keys == {0, 1}
    ensures MadeFor(t.entries[0], node) && MadeFor(t.entries[1], node) && t.entries[0].status == Active && IsOpen(t.entries[1], t.now)
  {
    var s := Again(node, true);
    LeadsToAgain(node, true);
    t := s.(entries := s.entries[0 := Linking(s.entries[0], node)]);
    LeadsOn(s, Pair(0, node), t, node, true);
  }

  /** Two introductions to one node that both make their check first. */
  function Twice(node: string): State
  {
    State(map[0 := Waiting(node, 60), 1 := Waiting(node, 60)], map[], {}, 2, 0)
  }

  /** Both calls have made their entry. */
  function BothCreated(node: string): State
  {
    State(map[0 := Attempt(node, Host, 60), 1 := Attempt(node, Host, 60)],
          map[0 := Call(node, Host, Telling(0)), 1 := Call(node, Host, Telling(1))], {}, 2, 0)
  }

  /** Both calls have found no entry of the node. */
  function BothChecked(node: string): State
  {
    Start.(calls := map[0 := Call(node, Host, Clearing({})), 1 := Call(node, Host, Clearing({}))])
  }

  lemma LeadsToBothChecked(node: string)
    ensures Leads(BothChecked(node), node, false)
  {
    LeadsNowhere(node, false);
    var a := Start.(calls := map[0 := Call(node, Host, Clearing({}))]);
    assert Naming(Start.entries, node) == {};
    LeadsOn(Start, Check(0, node, Host), a, node, false);
    LeadsOn(a, Check(1, node, Host), BothChecked(node), node, false);
  }

  lemma LeadsToBothCreated(node: string)
    ensures Leads(BothCreated(node), node, false)
  {
    LeadsToBothChecked(node);
    var one := State(map[0 := Attempt(node, Host, 60)], map[0 := Call(node, Host, Telling(0)), 1 := Call(node, Host, Clearing({}))], {}, 1, 0);
    LeadsOn(BothChecked(node), Create(0, 60), one, node, false);
    LeadsOn(one, Create(1, 60), BothCreated(node), node, false);
  }

  /** Two open entries wait for one node. */
  lemma TwoAtOnce(node: string)
    ensures Leads(Twice(node), node, false)
    ensures var t := Twice(node); forall id | id in {0, 1} :: Names(t.entries[id], node) && IsLive(t.entries[id], t.now)
  {
    LeadsToBothCreated(node);
    var b := BothCreated(node);
    var half := State(b.entries[0 := Waiting(node, 60)], map[1 := Call(node, Host, Telling(1))], {}, 2, 0);
    assert b.calls - {0} == half.calls;
    LeadsOn(b, Tell(0), half, node, false);
    assert half.calls - {1} == map[];
    assert half.entries[1 := Waiting(node, 60)] == Twice(node).entries;
    LeadsOn(half, Tell(1), Twice(node), node, false);
  }

  /** Linked through the first, and the link switched off. */
  function SwitchedOff(node: string, pairings: set<(nat, string)>): State
  {
    State(map[0 := Closed(Linked(node), Disabled), 1 := Waiting(node, 60)], map[], pairings, 2, 0)
  }

  function LinkedOnce(node: string): State
  {
    State(map[0 := Linked(node), 1 := Waiting(node, 60)], map[], {(0, node)}, 2, 0)
  }

  lemma LeadsToLinkedOnce(node: string)
    ensures Leads(LinkedOnce(node), node, false)
  {
    TwoAtOnce(node);
    var met := Twice(node).(pairings := {(0, node)});
    LeadsOn(Twice(node), Meet(0, node), met, node, false);
    assert met.entries[0 := Linking(Waiting(node, 60), node)] == LinkedOnce(node).entries;
    LeadsOn(met, Pair(0, node), LinkedOnce(node), node, false);
  }

  lemma LeadsToSwitchedOff(node: string)
    ensures Leads(SwitchedOff(node, {(0, node)}), node, false)
  {
    LeadsToLinkedOnce(node);
    assert LinkedOnce(node).entries[0 := Closed(Linked(node), Disabled)] == SwitchedOff(node, {(0, node)}).entries;
    LeadsOn(LinkedOnce(node), Close(0, Disabled), SwitchedOff(node, {(0, node)}), node, false);
  }

  /** The exchange with the first has ended, and one with the second begins. */
  lemma LeadsToSecondExchange(node: string)
    ensures Leads(SwitchedOff(node, {}), node, false) && Leads(SwitchedOff(node, {(1, node)}), node, false)
  {
    LeadsToSwitchedOff(node);
    LeadsOn(SwitchedOff(node, {(0, node)}), EndPairing(0, node), SwitchedOff(node, {}), node, false);
    LeadsOn(SwitchedOff(node, {}), Meet(1, node), SwitchedOff(node, {(1, node)}), node, false);
  }

  /** The node pairs with the first of the two, a person switches that link off, and the node pairs
      with the second: the switched-off entry is deleted although no call had read it. */
  lemma SwitchedOffLinkGoes(node: string) returns (off: State, end: State)
    ensures Leads(off, node, false) && off.calls == map[] && off.pairings == {}
    ensures off.entries.Keys == {0, 1} && off.entries[0].status == Disabled && off.entries[0].nodeId == Some(node)
    ensures Leads(end, node, false) && end.entries == map[1 := Linked(node)]
  {
    LeadsToSecondExchange(node);
    off := SwitchedOff(node, {});
    var met := SwitchedOff(node, {(1, node)});
    var alone := met.(entries := map[1 := Waiting(node, 60)]);
    assert met.entries - {0} == alone.entries;
    LeadsOn(met, Oust(1, node, 0), alone, node, false);
    end := met.(entries := map[1 := Linked(node)]);
    assert alone.entries[1 := Linking(Waiting(node, 60), node)] == end.entries;
    LeadsOn(alone, Pair(1, node), end, node, false);
  }
}
