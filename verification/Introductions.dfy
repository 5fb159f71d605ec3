/** Being introduced to another node (src/cluster/mesh.ts): what happens to the entries this node
    keeps of its peers, by one call alone and by calls that overlap with each other, with pairings
    (src/cluster/pairing.ts), with windows that expire and with what a person does. */
module Introductions {
  import opened Versions

  datatype Role = Host | Join

  datatype Status = Pending | Active | Disabled | Expired | Locked | Removed

  /** `nodeId` is the unique column, set from the beginning in a joining entry and by the pairing in
      a hosting one; `expects` is the node a hosting entry waits for. `invited` is the only node
      given the entry's secret; it is None for a person's own entries and not stored. */
  datatype Entry = Entry(role: Role, nodeId: Option<string>, expects: Option<string>, invited: Option<string>,
                         status: Status, expiresAt: Option<int>)

  type Entries = map<nat, Entry>

  datatype Reply = Off | Itself | Linked | Refused | Busy | Unusable | Introduced

  predicate Names(e: Entry, node: string)
  {
    e.nodeId == Some(node) || e.expects == Some(node)
  }

  predicate IsOpen(e: Entry, now: int)
  {
    e.status == Pending && e.expiresAt.Some? && e.expiresAt.value > now
  }

  predicate IsKeptOut(e: Entry)
  {
    e.status == Removed || e.status == Disabled
  }

  /** A link, or one being made. */
  predicate IsLive(e: Entry, now: int)
  {
    e.status == Active || IsOpen(e, now)
  }

  function Naming(entries: Entries, node: string): set<nat>
  {
    set id | id in entries && Names(entries[id], node)
  }

  /** The check: what the entries naming the node are answered with. */
  function Checked(entries: Entries, node: string, now: int): Reply
  {
    var named := Naming(entries, node);
    if exists id :: id in named && entries[id].status == Active then Linked
    else if exists id :: id in named && IsKeptOut(entries[id]) then Refused
    else if exists id :: id in named && IsOpen(entries[id], now) then Busy
    else Introduced
  }

  /** The entry of an introduction, by its first write. */
  function Attempt(node: string, role: Role, until: int): Entry
  {
    Entry(role, if role == Join then Some(node) else None, None, Some(node), Pending, Some(until))
  }

  /** The second write of a hosting entry; it fails if the entry is gone. */
  function Told(entries: Entries, id: nat, node: string): Entries
  {
    if id in entries then entries[id := entries[id].(expects := Some(node))] else entries
  }

  // ─── One call ────────────────────────────────────────────────────────────────

  class Peers {
    const self: string
    var entries: Entries
    var nextId: nat

    constructor (self: string)
      ensures this.self == self && entries == map[] && nextId == 0
    {
      this.self := self;
      entries := map[];
      nextId := 0;
    }

    /** One deletion for each entry of the list that was read. */
    method GiveWay(seen: set<nat>)
      modifies this`entries
      ensures entries == old(entries) - seen
    {
      var left := seen;
      while left != {}
        invariant left <= seen && entries == old(entries) - (seen - left)
        decreases left
      {
        var id :| id in left;
        entries := entries - {id};
        left := left - {id};
      }
    }

    method CreatePendingPeer(node: string, role: Role, until: int) returns (id: nat)
      modifies this
      ensures id == old(nextId) && nextId == id + 1 && entries == old(entries)[id := Attempt(node, role, until)]
    {
      id := nextId;
      nextId := nextId + 1;
      entries := entries[id := Entry(role, if role == Join then Some(node) else None, None, Some(node), Pending, Some(until))];
    }

    /** A whole call that nothing interrupts. `usable` says whether the introduced address and
        certificate can be used. */
    method HandleIntroduce(autoMesh: bool, node: string, role: Role, usable: bool, now: int, until: int) returns (reply: Reply)
      requires forall id | id in entries :: id < nextId
      modifies this
      ensures reply == Off <==> !autoMesh
      ensures reply == Itself <==> autoMesh && node == self
      ensures var asked, named := autoMesh && node != self,
                                  set id | id in old(entries) && (old(entries)[id].nodeId == Some(node) || old(entries)[id].expects == Some(node));
              && (reply == Linked <==> asked && exists id :: id in named && old(entries)[id].status == Active)
              && (reply == Refused <==> asked && (forall id | id in named :: old(entries)[id].status != Active)
                                        && exists id :: id in named && old(entries)[id].status in {Removed, Disabled})
              && (reply == Busy <==> asked && (forall id | id in named :: old(entries)[id].status !in {Active, Removed, Disabled})
                                     && exists id :: id in named && old(entries)[id].status == Pending
                                                     && old(entries)[id].expiresAt.Some? && old(entries)[id].expiresAt.value > now)
              && (reply == Introduced ==> usable) && (reply == Unusable ==> !usable)
      ensures reply !in {Introduced, Unusable} ==> entries == old(entries)
      ensures reply == Unusable ==> entries == old(entries) - Naming(old(entries), node)
      ensures reply == Introduced ==>
                && entries.Keys == old(entries).Keys - Naming(old(entries), node) + {old(nextId)}
                && IsOpen(entries[old(nextId)], until - 1) && entries[old(nextId)].role == role && Names(entries[old(nextId)], node)
                && (entries[old(nextId)].nodeId.Some? <==> role == Join)
                && forall id | id in entries && id != old(nextId) :: entries[id] == old(entries)[id] && !Names(entries[id], node)
    {
      if !autoMesh { return Off; }
      if node == self { return Itself; }
      reply := Checked(entries, node, now);
      if reply != Introduced { return; }
      GiveWay(Naming(entries, node));
      if !usable { return Unusable; }
      var id := CreatePendingPeer(node, role, until);
      if role == Host { entries := Told(entries, id, node); }
    }
  }

  // ─── Everything that overlaps ────────────────────────────────────────────────

  /** Where a call is after its check: it clears away the entries it read, or its hosting entry
      does not say yet whom it expects. */
  datatype Stage = Clearing(seen: set<nat>) | Telling(id: nat)

  datatype Call = Call(node: string, role: Role, stage: Stage)

  /** `pairings` are the exchanges under way: entry and the node at the other end. */
  datatype State = State(entries: Entries, calls: map<nat, Call>, pairings: set<(nat, string)>, nextId: nat, now: int)

  /** `BreakOff` is unusable input, a refused creation or a crash. An exchange begins with `Meet`
      while the window is open; what it leads to may come at any later time, or never: first the
      other entries of the node go one by one (`Oust`), then its own becomes active (`Pair`). `Close`
      is an expired window, a lockout, a link switched off or removed; the status it acts on was read
      before. `Enable`, `Delete` and `Invite` are a person's. */
  datatype Step =
    | Check(call: nat, node: string, role: Role)
    | Drop(call: nat, id: nat)
    | Create(call: nat, until: int)
    | Tell(call: nat)
    | BreakOff(call: nat)
    | Tick(now: int)
    | Meet(id: nat, node: string)
    | Oust(id: nat, node: string, other: nat)
    | Pair(id: nat, node: string)
    | EndPairing(id: nat, node: string)
    | Close(id: nat, status: Status)
    | Enable(id: nat)
    | Delete(id: nat)
    | Invite(role: Role, nodeId: Option<string>, until: int)

  /** No entry but `id` has this node id: the column is unique. */
  predicate IsFree(entries: Entries, node: string, id: nat)
  {
    forall other | other in entries && other != id :: entries[other].nodeId != Some(node)
  }

  /** The entry takes part in an exchange with this node. */
  predicate Accepts(e: Entry, node: string, now: int)
  {
    && IsOpen(e, now) && (e.invited.Some? ==> e.invited == Some(node))
    && if e.role == Host then e.expects.None? || e.expects == Some(node) else e.nodeId.None? || e.nodeId == Some(node)
  }

  predicate Enabled(s: State, step: Step)
  {
    match step
    case Check(call, node, _) => call !in s.calls && Checked(s.entries, node, s.now) == Introduced
    case Drop(call, id) => call in s.calls && s.calls[call].stage.Clearing? && id in s.calls[call].stage.seen
    case Create(call, _) =>
      && call in s.calls && s.calls[call].stage == Clearing({})
      && (s.calls[call].role == Join ==> IsFree(s.entries, s.calls[call].node, s.nextId))
    case Tell(call) => call in s.calls && s.calls[call].stage.Telling?
    case BreakOff(call) => call in s.calls
    case Tick(now) => s.now <= now
    case Meet(id, node) => id in s.entries && Accepts(s.entries[id], node, s.now)
    case Oust(id, node, other) => (id, node) in s.pairings && other in s.entries && other != id && s.entries[other].nodeId == Some(node)
    case Pair(id, node) => (id, node) in s.pairings && id in s.entries && IsFree(s.entries, node, id)
    case EndPairing(id, node) => true
    case Close(id, status) => id in s.entries && status != Pending && status != Active
    case Enable(id) => id in s.entries && s.entries[id].nodeId.Some?
    case Delete(id) => id in s.entries
    case Invite(role, nodeId, _) => nodeId.Some? ==> role == Join && IsFree(s.entries, nodeId.value, s.nextId)
  }

  function Closed(e: Entry, status: Status): Entry
  {
    e.(status := status, expects := None, expiresAt := None)
  }

  function Linking(e: Entry, node: string): Entry
  {
    e.(nodeId := Some(node), status := Active, expects := None, expiresAt := None)
  }

  function Next(s: State, step: Step): State
    requires Enabled(s, step)
  {
    match step
    case Check(call, node, role) => s.(calls := s.calls[call := Call(node, role, Clearing(Naming(s.entries, node)))])
    case Drop(call, id) =>
      var c := s.calls[call];
      s.(entries := s.entries - {id}, calls := s.calls[call := c.(stage := Clearing(c.stage.seen - {id}))])
    case Create(call, until) =>
      var c := s.calls[call];
      s.(entries := s.entries[s.nextId := Attempt(c.node, c.role, until)],
         calls := if c.role == Join then s.calls - {call} else s.calls[call := c.(stage := Telling(s.nextId))],
         nextId := s.nextId + 1)
    case Tell(call) => s.(entries := Told(s.entries, s.calls[call].stage.id, s.calls[call].node), calls := s.calls - {call})
    case BreakOff(call) => s.(calls := s.calls - {call})
    case Tick(now) => s.(now := now)
    case Meet(id, node) => s.(pairings := s.pairings + {(id, node)})
    case Oust(id, node, other) => s.(entries := s.entries - {other})
    case Pair(id, node) => s.(entries := s.entries[id := Linking(s.entries[id], node)])
    case EndPairing(id, node) => s.(pairings := s.pairings - {(id, node)})
    case Close(id, status) => s.(entries := s.entries[id := Closed(s.entries[id], status)])
    case Enable(id) => s.(entries := s.entries[id := s.entries[id].(status := Active)])
    case Delete(id) => s.(entries := s.entries - {id})
    case Invite(role, nodeId, until) =>
      s.(entries := s.entries[s.nextId := Entry(role, nodeId, None, None, Pending, Some(until))], nextId := s.nextId + 1)
  }

  ghost predicate Runs(s: State, steps: seq<Step>)
    decreases |steps|
  {
    steps == [] || (Enabled(s, steps[0]) && Runs(Next(s, steps[0]), steps[1..]))
  }

  ghost function After(s: State, steps: seq<Step>): State
    requires Runs(s, steps)
    decreases |steps|
  {
    if steps == [] then s else After(Next(s, steps[0]), steps[1..])
  }

  const Start := State(map[], map[], {}, 0, 0)

  // ─── What every run keeps ────────────────────────────────────────────────────

  /** An entry made for a node never gets another one, and an active one has its node's id. */
  predicate EntryFine(s: State, id: nat)
  {
    id in s.entries ==>
      var e := s.entries[id];
      && id < s.nextId && (e.status == Active ==> e.nodeId.Some?)
      && (e.invited.Some? ==> (e.nodeId.Some? ==> e.nodeId == e.invited) && (e.expects.Some? ==> e.expects == e.invited))
      && (e.role == Join && e.invited.Some? ==> e.nodeId.Some?)
  }

  predicate PairingFine(s: State, id: nat, node: string)
  {
    (id, node) in s.pairings ==> id < s.nextId && (id in s.entries && s.entries[id].invited.Some? ==> s.entries[id].invited == Some(node))
  }

  predicate CallFine(s: State, c: nat)
  {
    c in s.calls ==>
      match s.calls[c].stage
      case Clearing(seen) => forall id | id in seen :: id < s.nextId
      case Telling(id) => id < s.nextId && (id in s.entries ==> s.entries[id].invited == Some(s.calls[c].node))
  }

  /** No two entries have one node id. */
  predicate NodeIdsDiffer(entries: Entries)
  {
    forall i, j | i in entries && j in entries && entries[i].nodeId.Some? && entries[i].nodeId == entries[j].nodeId :: i == j
  }

  ghost predicate Inv(s: State)
  {
    && NodeIdsDiffer(s.entries)
    && (forall id {:trigger EntryFine(s, id)} :: EntryFine(s, id))
    && (forall id, node {:trigger PairingFine(s, id, node)} :: PairingFine(s, id, node))
    && (forall c {:trigger CallFine(s, c)} :: CallFine(s, c))
  }

  lemma StepKeepsEntries(s: State, step: Step, id: nat)
    requires Inv(s) && Enabled(s, step)
    ensures EntryFine(Next(s, step), id)
  {
    assert EntryFine(s, id);
    if step.Pair? { assert PairingFine(s, step.id, step.node); }
    if step.Tell? { assert CallFine(s, step.call); }
  }

  lemma StepKeepsPairings(s: State, step: Step, id: nat, node: string)
    requires Inv(s) && Enabled(s, step)
    ensures PairingFine(Next(s, step), id, node)
  {
    assert PairingFine(s, id, node) && EntryFine(s, id);
  }

  lemma StepKeepsCalls(s: State, step: Step, c: nat)
    requires Inv(s) && Enabled(s, step)
    ensures CallFine(Next(s, step), c)
  {
    assert CallFine(s, c);
    if step.Check? {
      forall id | id in Naming(s.entries, step.node) ensures id < s.nextId { assert EntryFine(s, id); }
    }
  }

  lemma StepKeepsNodeIds(s: State, step: Step)
    requires Inv(s) && Enabled(s, step)
    ensures NodeIdsDiffer(Next(s, step).entries)
  {
  }

  lemma StepKeepsInv(s: State, step: Step)
    requires Inv(s) && Enabled(s, step)
    ensures Inv(Next(s, step))
  {
    StepKeepsNodeIds(s, step);
    forall id ensures EntryFine(Next(s, step), id) { StepKeepsEntries(s, step, id); }
    forall id, node ensures PairingFine(Next(s, step), id, node) { StepKeepsPairings(s, step, id, node); }
    forall c ensures CallFine(Next(s, step), c) { StepKeepsCalls(s, step, c); }
  }

  lemma {:induction false} RunKeepsInv(s: State, steps: seq<Step>)
    requires Inv(s) && Runs(s, steps)
    ensures Inv(After(s, steps))
    decreases |steps|
  {
    if steps != [] {
      StepKeepsInv(s, steps[0]);
      RunKeepsInv(Next(s, steps[0]), steps[1..]);
    }
  }

  lemma StartHasInv()
    ensures Inv(Start)
  {
  }

  /** Whatever overlaps, no node is ever linked twice. */
  lemma OneLinkPerNode(steps: seq<Step>, i: nat, j: nat)
    requires Runs(Start, steps)
    requires i in After(Start, steps).entries && j in After(Start, steps).entries
    ensures var e, f := After(Start, steps).entries[i], After(Start, steps).entries[j];
            e.status == f.status == Active ==> e.nodeId.Some? && (e.nodeId == f.nodeId ==> i == j)
  {
    StartHasInv();
    RunKeepsInv(Start, steps);
    assert EntryFine(After(Start, steps), i);
  }

  /** Nor are there ever two joining entries made for one node, overlapping introductions or not. */
  lemma OneJoiningAttempt(steps: seq<Step>, node: string, i: nat, j: nat)
    requires Runs(Start, steps)
    requires i in After(Start, steps).entries && j in After(Start, steps).entries
    ensures var e, f := After(Start, steps).entries[i], After(Start, steps).entries[j];
            e.role == f.role == Join && e.invited == f.invited == Some(node) ==> i == j
  {
    StartHasInv();
    RunKeepsInv(Start, steps);
    assert EntryFine(After(Start, steps), i) && EntryFine(After(Start, steps), j);
  }
}
