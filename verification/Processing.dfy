/** How a push is worked through (src/cluster/applier.ts): every received row gets exactly one
    result letter, through the whole-package attempt, the row-by-row attempts, the retries and
    the groups of rows that collide with each other.

    What the database answers is a parameter: each attempt is numbered and may turn out in any
    way. What the attempts do to the data is modelled elsewhere. */
module Processing {
  import opened Versions

  /** `id` is the item's identity: two items may name the same row. */
  datatype Item = Item(id: nat, table: string, rank: nat, hash: string, deleted: bool, setAside: bool, uniques: nat)

  datatype Letter = Applied | Stale | Rejected | Deferred

  datatype Reason = ForeignKey | Race | Unique | OtherReason

  /** The unique index of a collision and the key of the row in the way. */
  datatype Collision = Collision(index: nat, hash: string)

  datatype Outcome = WasApplied | WasStale | Conflict(with: Collision) | Defer(reason: Reason) | Reject

  /** The answers of the database, by item and number of the call, and what is known of the sender. */
  datatype World = World(package: seq<Item> -> Option<Item -> bool>, attempt: (Item, nat) -> Outcome,
                         otherRow: (Item, nat, nat) -> Option<string>, group: (seq<Item>, nat) -> bool,
                         duplicate: (Item, Collision, nat) -> bool, senderDone: Item -> bool)

  datatype Waiting = Waiting(item: Item, reason: Reason)

  // ─── Order ───────────────────────────────────────────────────────────────────

  /** Deletions by falling rank, then rows by rising rank. */
  predicate NotAfter(a: Item, b: Item)
  {
    if a.deleted != b.deleted then a.deleted
    else if a.deleted then a.rank >= b.rank else a.rank <= b.rank
  }

  function Insert(x: Item, sorted: seq<Item>): (r: seq<Item>)
    ensures multiset(r) == multiset(sorted) + multiset{x}
  {
    if sorted == [] || NotAfter(x, sorted[0]) then [x] + sorted
    else
      assert sorted == [sorted[0]] + sorted[1..];
      [sorted[0]] + Insert(x, sorted[1..])
  }

  function Sorted(items: seq<Item>): (r: seq<Item>)
    ensures multiset(r) == multiset(items)
  {
    if items == [] then []
    else
      assert items == [items[0]] + items[1..];
      Insert(items[0], Sorted(items[1..]))
  }

  ghost predicate IsSorted(items: seq<Item>)
  {
    forall i, j | 0 <= i < j < |items| :: NotAfter(items[i], items[j])
  }

  lemma {:induction false} InsertKeepsSorted(x: Item, sorted: seq<Item>)
    requires IsSorted(sorted)
    ensures IsSorted(Insert(x, sorted))
  {
    if sorted != [] && !NotAfter(x, sorted[0]) {
      InsertKeepsSorted(x, sorted[1..]);
      var rest := Insert(x, sorted[1..]);
      forall j | 0 <= j < |rest| ensures NotAfter(sorted[0], rest[j]) {
        assert rest[j] in multiset(rest);
        assert rest[j] == x || rest[j] in sorted[1..];
      }
    }
  }

  /** Deletions come first, by falling rank, and then rows, by rising rank. */
  lemma {:induction false} SortedIsSorted(items: seq<Item>)
    ensures IsSorted(Sorted(items))
    ensures forall i, j | 0 <= i < j < |Sorted(items)| :: var a, b := Sorted(items)[i], Sorted(items)[j];
              (b.deleted ==> a.deleted && a.rank >= b.rank) && (!a.deleted ==> !b.deleted && a.rank <= b.rank)
  {
    if items != [] {
      SortedIsSorted(items[1..]);
      InsertKeepsSorted(items[0], Sorted(items[1..]));
    }
  }

  // ─── One pass ────────────────────────────────────────────────────────────────

  ghost predicate Distinct(items: seq<Item>)
  {
    forall i, j | 0 <= i < j < |items| :: items[i] != items[j]
  }

  ghost function Elements(items: seq<Item>): set<Item>
  {
    set x | x in items
  }

  ghost function Waits(waiting: seq<Waiting>): set<Item>
  {
    set w | w in waiting :: w.item
  }

  ghost predicate DistinctWaiting(waiting: seq<Waiting>)
  {
    forall i, j | 0 <= i < j < |waiting| :: waiting[i].item != waiting[j].item
  }

  function Without(waiting: seq<Waiting>, entry: Waiting): (r: seq<Waiting>)
    ensures forall w | w in r :: w in waiting
  {
    if waiting == [] then []
    else if waiting[0] == entry then waiting[1..] else [waiting[0]] + Without(waiting[1..], entry)
  }

  lemma {:induction false} WithoutIsRest(waiting: seq<Waiting>, entry: Waiting)
    requires DistinctWaiting(waiting) && entry in waiting
    ensures DistinctWaiting(Without(waiting, entry))
    ensures forall w :: w in Without(waiting, entry) <==> w in waiting && w != entry
  {
    if waiting[0] == entry {
      assert waiting == [entry] + waiting[1..];
      assert forall w | w in waiting[1..] :: w.item != entry.item;
    } else {
      WithoutIsRest(waiting[1..], entry);
      assert waiting == [waiting[0]] + waiting[1..];
      var rest := Without(waiting[1..], entry);
      forall j | 0 <= j < |rest| ensures rest[j].item != waiting[0].item {
        assert rest[j] in waiting[1..];
      }
    }
  }

  lemma OneReason(waiting: seq<Waiting>, entry: Waiting)
    requires DistinctWaiting(waiting) && entry in waiting
    ensures forall r {:trigger Waiting(entry.item, r)} :: Waiting(entry.item, r) in waiting ==> r == entry.reason
  {
    forall r | Waiting(entry.item, r) in waiting ensures r == entry.reason {
      var i :| 0 <= i < |waiting| && waiting[i] == entry;
      var j :| 0 <= j < |waiting| && waiting[j] == Waiting(entry.item, r);
    }
  }

  lemma WithoutTakesOne(waiting: seq<Waiting>, entry: Waiting)
    requires DistinctWaiting(waiting) && entry in waiting
    ensures DistinctWaiting(Without(waiting, entry))
    ensures forall w :: w in Without(waiting, entry) <==> w in waiting && w != entry
    ensures Waits(Without(waiting, entry)) == Waits(waiting) - {entry.item}
  {
    WithoutIsRest(waiting, entry);
    forall w | w in waiting && w.item == entry.item ensures w == entry {
      var i :| 0 <= i < |waiting| && waiting[i] == w;
      var j :| 0 <= j < |waiting| && waiting[j] == entry;
    }
    forall x | x in Waits(waiting) - {entry.item} ensures x in Waits(Without(waiting, entry)) {
      var w :| w in waiting && w.item == x;
      assert w in Without(waiting, entry);
    }
  }

  /** Each item seen so far is in exactly one place: answered, waiting or open, where the open
      ones are those that collided and have not had their second turn. */
  ghost predicate Placed(results: map<Item, Letter>, waiting: seq<Waiting>, colliding: seq<Item>, handled: set<Item>,
                         open: set<Item>, seen: set<Item>)
  {
    && DistinctWaiting(waiting) && Distinct(colliding) && open == Elements(colliding) - handled
    && results.Keys + Waits(waiting) + open == seen
    && results.Keys !! Waits(waiting) && results.Keys !! open && Waits(waiting) !! open
  }

  /** The letters so far tell what was stored; none says it was set aside yet. */
  ghost predicate Truthful(results: map<Item, Letter>, stored: set<Item>)
  {
    && stored <= results.Keys
    && forall x {:trigger results[x]} | x in results :: results[x] != Deferred && (results[x] == Applied <==> x in stored)
  }

  // ─── What the database was asked ─────────────────────────────────────────────

  /** The calls made: the attempts at each item by number, the groups tried, and the verdicts asked
      for. What each was answered is the world's. */
  datatype Trace = Trace(tries: map<Item, seq<nat>>, groups: set<(seq<Item>, nat)>, verdicts: set<(Item, Collision, nat)>)

  function Attempted(t: Trace, x: Item, call: nat): Trace
  {
    t.(tries := t.tries[x := (if x in t.tries then t.tries[x] else []) + [call]])
  }

  /** The answer to the item's last attempt. */
  function Last(world: World, t: Trace, x: Item): Outcome
    requires x in t.tries && t.tries[x] != []
  {
    world.attempt(x, t.tries[x][|t.tries[x]| - 1])
  }

  predicate Tried(t: Trace, x: Item)
  {
    x in t.tries && t.tries[x] != []
  }

  /** The answer to the attempt before the last one. */
  function Previous(world: World, t: Trace, x: Item): Option<Outcome>
    requires Tried(t, x)
  {
    if |t.tries[x]| == 1 then None else Some(world.attempt(x, t.tries[x][|t.tries[x]| - 2]))
  }

  /** The last attempt was the first one or followed a collision; any other is one more try of an
      item that waits. */
  predicate InTurn(world: World, t: Trace, x: Item)
    requires Tried(t, x)
  {
    Previous(world, t, x).None? || Previous(world, t, x).value.Conflict?
  }

  /** Some transaction stored the item: its own, one for a group it was in, or the one after a
      verdict. */
  ghost predicate WasStored(world: World, t: Trace, x: Item)
  {
    || (Tried(t, x) && Last(world, t, x) == WasApplied)
    || (exists g, n {:trigger (g, n) in t.groups} :: (g, n) in t.groups && world.group(g, n) && x in g)
    || (exists c, n {:trigger (x, c, n) in t.verdicts} :: (x, c, n) in t.verdicts && world.duplicate(x, c, n))
  }

  /** The item was put off for this reason, and if it was tried once more, put off or refused again. */
  predicate WaitsFor(world: World, t: Trace, x: Item, reason: Reason)
    requires Tried(t, x)
  {
    || (InTurn(world, t, x) && Last(world, t, x) == Defer(reason))
    || (Previous(world, t, x) == Some(Defer(reason)) && (Last(world, t, x).Defer? || Last(world, t, x).Reject?))
  }

  /** The item collided twice, and if its sender has nothing more a verdict was asked for. */
  ghost predicate StaysColliding(world: World, t: Trace, x: Item)
    requires Tried(t, x)
  {
    && Last(world, t, x).Conflict? && Previous(world, t, x).Some? && Previous(world, t, x).value.Conflict?
    && (world.senderDone(x) ==> exists c, n {:trigger (x, c, n) in t.verdicts} :: (x, c, n) in t.verdicts)
  }

  predicate Refused(world: World, t: Trace, x: Item)
    requires Tried(t, x)
  {
    InTurn(world, t, x) && Last(world, t, x) == Reject
  }

  /** The places after an attempt at an item that is in none of them. */
  function Turned(p: Places, x: Item, outcome: Outcome): Places
  {
    match outcome
    case WasApplied => p.(results := p.results[x := Applied], stored := p.stored + {x})
    case WasStale => p.(results := p.results[x := Stale])
    case Conflict(_) => p.(open := p.open + {x})
    case Defer(reason) => p.(waiting := p.waiting + [Waiting(x, reason)])
    case Reject => p.(results := p.results[x := Rejected])
  }

  /** The item is in none of the places. */
  ghost predicate Absent(p: Places, x: Item)
  {
    x !in p.results && x !in p.open && x !in p.stored && x !in Waits(p.waiting)
  }

  lemma TurnExplained(world: World, t: Trace, p: Places, x: Item, call: nat)
    requires AllExplained(world, t, p) && Absent(p, x) && (Tried(t, x) ==> Last(world, t, x).Conflict?)
    ensures AllExplained(world, Attempted(t, x, call), Turned(p, x, world.attempt(x, call)))
  {
    var p' := Turned(p, x, world.attempt(x, call));
    assert Explained(world, t, p, x);
    AttemptedThis(world, t, x, call);
    assert forall r {:trigger Waiting(x, r)} :: Waiting(x, r) in p.waiting ==> x in Waits(p.waiting);
    assert Explained(world, Attempted(t, x, call), p', x);
    AttemptExplained(world, t, p, p', x, call);
  }

  /** The places after one more attempt at a waiting item. */
  function Retaken(p: Places, entry: Waiting, outcome: Outcome): Places
  {
    if outcome.Defer? || outcome.Reject? then p else Turned(p.(waiting := Without(p.waiting, entry)), entry.item, outcome)
  }

  lemma RetryExplained(world: World, t: Trace, p: Places, entry: Waiting, call: nat)
    requires AllExplained(world, t, p) && DistinctWaiting(p.waiting) && entry in p.waiting && PutOff(world, t, entry)
    requires entry.item !in p.results && entry.item !in p.open && entry.item !in p.stored
    ensures AllExplained(world, Attempted(t, entry.item, call), Retaken(p, entry, world.attempt(entry.item, call)))
  {
    var x, p' := entry.item, Retaken(p, entry, world.attempt(entry.item, call));
    assert Explained(world, t, p, x);
    AttemptedThis(world, t, x, call);
    OneReason(p.waiting, entry);
    WithoutTakesOne(p.waiting, entry);
    assert forall r {:trigger Waiting(x, r)} :: Waiting(x, r) in Without(p.waiting, entry) ==> x in Waits(Without(p.waiting, entry));
    assert Explained(world, Attempted(t, x, call), p', x);
    AttemptExplained(world, t, p, p', x, call);
  }

  /** Collided when it was tried before and again now. */
  predicate CollidedTwice(world: World, t: Trace, x: Item)
  {
    Tried(t, x) && Last(world, t, x).Conflict? && Previous(world, t, x).Some? && Previous(world, t, x).value.Conflict?
  }

  /** The second turn of a colliding item. */
  lemma SecondTurnExplained(world: World, t: Trace, p: Places, x: Item, call: nat)
    requires AllExplained(world, t, p) && x in p.open && Absent(p.(open := p.open - {x}), x)
    ensures AllExplained(world, Attempted(t, x, call), Turned(p.(open := p.open - {x}), x, world.attempt(x, call)))
    ensures world.attempt(x, call).Conflict? ==>
              CollidedTwice(world, Attempted(t, x, call), x) && Turned(p.(open := p.open - {x}), x, world.attempt(x, call)) == p
  {
    var without := p.(open := p.open - {x});
    assert Explained(world, t, p, x);
    forall y ensures Explained(world, t, without, y) {
      assert Explained(world, t, p, y);
      StaysExplained(world, t, t, p, without, y);
    }
    TurnExplained(world, t, without, x, call);
    AttemptedThis(world, t, x, call);
    assert (p.open - {x}) + {x} == p.open;
  }

  /** The places after a group was stored. */
  ghost function Grouped(p: Places, group: seq<Item>): Places
  {
    p.(results := map x | x in p.results.Keys + Elements(group) :: if x in Elements(group) then Applied else p.results[x],
       open := p.open - Elements(group), stored := p.stored + Elements(group))
  }

  lemma GroupExplained(world: World, t: Trace, p: Places, group: seq<Item>, call: nat)
    requires AllExplained(world, t, p) && Elements(group) <= p.open
    requires forall x | x in group :: x !in p.results && x !in Waits(p.waiting)
    ensures var t' := t.(groups := t.groups + {(group, call)});
            AllExplained(world, t', if world.group(group, call) then Grouped(p, group) else p)
  {
    var t' := t.(groups := t.groups + {(group, call)});
    var p' := if world.group(group, call) then Grouped(p, group) else p;
    forall y ensures Explained(world, t', p', y) {
      assert Explained(world, t, p, y);
      if y in group && world.group(group, call) {
        assert (group, call) in t'.groups;
        assert forall r {:trigger Waiting(y, r)} :: Waiting(y, r) in p.waiting ==> y in Waits(p.waiting);
      } else {
        OtherGroup(world, t, group, call, y);
        StaysExplained(world, t, t', p, p', y);
      }
    }
  }

  lemma OtherGroup(world: World, t: Trace, group: seq<Item>, call: nat, y: Item)
    requires y !in group || !world.group(group, call)
    ensures WasStored(world, t.(groups := t.groups + {(group, call)}), y) <==> WasStored(world, t, y)
  {
    var t' := t.(groups := t.groups + {(group, call)});
    if g, n :| (g, n) in t.groups && world.group(g, n) && y in g { assert (g, n) in t'.groups; }
    if g, n :| (g, n) in t'.groups && world.group(g, n) && y in g { assert (g, n) in t.groups; }
  }

  /** The places after a verdict on a colliding item. */
  function Judged(p: Places, x: Item): Places
  {
    p.(results := p.results[x := Applied], open := p.open - {x}, stored := p.stored + {x})
  }

  lemma VerdictExplained(world: World, t: Trace, p: Places, x: Item, c: Collision, call: nat)
    requires AllExplained(world, t, p) && x in p.open && x !in p.results && x !in Waits(p.waiting)
    ensures var t' := t.(verdicts := t.verdicts + {(x, c, call)});
            AllExplained(world, t', if world.duplicate(x, c, call) then Judged(p, x) else p)
  {
    var t' := t.(verdicts := t.verdicts + {(x, c, call)});
    var p' := if world.duplicate(x, c, call) then Judged(p, x) else p;
    forall y ensures Explained(world, t', p', y) {
      assert Explained(world, t, p, y);
      if y == x && world.duplicate(x, c, call) {
        assert (x, c, call) in t'.verdicts;
        assert forall r {:trigger Waiting(y, r)} :: Waiting(y, r) in p.waiting ==> y in Waits(p.waiting);
      } else {
        OtherVerdict(world, t, x, c, call, y);
        StaysExplained(world, t, t', p, p', y);
      }
    }
  }

  lemma OtherVerdict(world: World, t: Trace, x: Item, c: Collision, call: nat, y: Item)
    requires y != x || !world.duplicate(x, c, call)
    ensures WasStored(world, t.(verdicts := t.verdicts + {(x, c, call)}), y) <==> WasStored(world, t, y)
  {
    var t' := t.(verdicts := t.verdicts + {(x, c, call)});
    if d, n :| (y, d, n) in t.verdicts && world.duplicate(y, d, n) { assert (y, d, n) in t'.verdicts; }
    if d, n :| (y, d, n) in t'.verdicts && world.duplicate(y, d, n) { assert (y, d, n) in t.verdicts; }
  }

  /** A colliding item that stays where it is starts to wait. */
  lemma WaitExplained(world: World, t: Trace, p: Places, x: Item)
    requires AllExplained(world, t, p) && x in p.open && x !in Waits(p.waiting) && CollidedTwice(world, t, x)
    requires world.senderDone(x) ==> exists c, n {:trigger (x, c, n) in t.verdicts} :: (x, c, n) in t.verdicts
    ensures AllExplained(world, t, p.(open := p.open - {x}, waiting := p.waiting + [Waiting(x, Unique)]))
  {
    var p' := p.(open := p.open - {x}, waiting := p.waiting + [Waiting(x, Unique)]);
    forall y ensures Explained(world, t, p', y) {
      assert Explained(world, t, p, y);
      if y == x {
        assert forall r {:trigger Waiting(y, r)} :: Waiting(y, r) in p.waiting ==> y in Waits(p.waiting);
      } else {
        StaysExplained(world, t, t, p, p', y);
      }
    }
  }

  lemma NotTwice(world: World, t: Trace, x: Item, call: nat)
    requires !world.attempt(x, call).Conflict?
    ensures !CollidedTwice(world, Attempted(t, x, call), x)
  {
  }

  /** Put off by its first attempt, for this reason. */
  predicate PutOff(world: World, t: Trace, w: Waiting)
  {
    Tried(t, w.item) && Previous(world, t, w.item).None? && Last(world, t, w.item) == Defer(w.reason)
  }

  /** So far every item was tried once, and whoever waits was put off. */
  ghost predicate FirstTurnsOnly(world: World, t: Trace, waiting: seq<Waiting>)
  {
    && (forall w {:trigger PutOff(world, t, w)} | w in waiting :: PutOff(world, t, w))
    && forall x {:trigger Retried(world, t, x)} :: Retried(world, t, x) || x in Waits(waiting)
  }

  lemma StillFirstTurns(world: World, t: Trace, p: Places, x: Item, call: nat)
    requires FirstTurnsOnly(world, t, p.waiting) && x !in t.tries
    ensures FirstTurnsOnly(world, Attempted(t, x, call), Turned(p, x, world.attempt(x, call)).waiting)
  {
    var t', outcome := Attempted(t, x, call), world.attempt(x, call);
    var waiting := Turned(p, x, outcome).waiting;
    forall w | w in waiting ensures PutOff(world, t', w) {
      if w in p.waiting { assert PutOff(world, t, w); }
    }
    forall y ensures Retried(world, t', y) || y in Waits(waiting) {
      assert Retried(world, t, y) || y in Waits(p.waiting);
      if y in Waits(p.waiting) {
        var w :| w in p.waiting && w.item == y;
        assert w in waiting;
      } else if y == x && outcome.Defer? {
        assert Waiting(x, outcome.reason) in waiting;
      }
    }
  }

  ghost predicate AllRetried(world: World, t: Trace)
  {
    forall x {:trigger Retried(world, t, x)} :: Retried(world, t, x)
  }

  lemma StaysRetried(world: World, t: Trace, x: Item, call: nat)
    requires AllRetried(world, t) && Tried(t, x)
    ensures AllRetried(world, Attempted(t, x, call))
  {
    forall y ensures Retried(world, Attempted(t, x, call), y) {
      assert Retried(world, t, y);
    }
  }

  lemma SameTriesRetried(world: World, t: Trace, t': Trace)
    requires AllRetried(world, t) && t'.tries == t.tries
    ensures AllRetried(world, t')
  {
    forall x ensures Retried(world, t', x) {
      assert Retried(world, t, x);
    }
  }

  lemma AgainIsRetried(world: World, t: Trace, x: Item, call: nat)
    requires Tried(t, x)
    ensures Retried(world, Attempted(t, x, call), x)
  {
  }

  /** An item put off for its parent or a race was tried again. */
  predicate Retried(world: World, t: Trace, x: Item)
  {
    Tried(t, x) && Previous(world, t, x).None? ==> Last(world, t, x) != Defer(ForeignKey) && Last(world, t, x) != Defer(Race)
  }

  /** Where the items of a pass are. */
  datatype Places = Places(results: map<Item, Letter>, waiting: seq<Waiting>, open: set<Item>, stored: set<Item>)

  /** Where an item is agrees with what was answered for it. */
  ghost predicate Explained(world: World, t: Trace, p: Places, x: Item)
  {
    && (x in p.stored <==> WasStored(world, t, x))
    && (x in p.results ==> Tried(t, x) && (p.results[x] == Stale ==> Last(world, t, x) == WasStale)
                           && (p.results[x] == Rejected ==> Refused(world, t, x)))
    && (x in p.open ==> Tried(t, x) && Last(world, t, x).Conflict?)
    && (forall r {:trigger Waiting(x, r)} :: Waiting(x, r) in p.waiting ==>
          Tried(t, x) && (WaitsFor(world, t, x, r) || (r == Unique && StaysColliding(world, t, x))))
  }

  /** The item is nowhere it was not before. */
  ghost predicate NoNewPlace(p: Places, p': Places, y: Item)
  {
    && (y in p'.stored <==> y in p.stored)
    && (y in p'.results ==> y in p.results && p'.results[y] == p.results[y])
    && (y in p'.open ==> y in p.open)
    && forall r {:trigger Waiting(y, r)} :: Waiting(y, r) in p'.waiting ==> Waiting(y, r) in p.waiting
  }

  lemma StaysExplained(world: World, t: Trace, t': Trace, p: Places, p': Places, y: Item)
    requires Explained(world, t, p, y) && NoNewPlace(p, p', y)
    requires (y in t'.tries <==> y in t.tries) && (y in t.tries ==> t'.tries[y] == t.tries[y])
    requires t.verdicts <= t'.verdicts && (WasStored(world, t', y) <==> WasStored(world, t, y))
    ensures Explained(world, t', p', y)
  {
    if y in t.tries && t.tries[y] != [] && StaysColliding(world, t, y) && world.senderDone(y) {
      var c, n :| (y, c, n) in t.verdicts;
      assert (y, c, n) in t'.verdicts;
    }
  }

  lemma AttemptedOthers(world: World, t: Trace, x: Item, call: nat, y: Item)
    requires y != x
    ensures var t' := Attempted(t, x, call);
            (y in t'.tries <==> y in t.tries) && (y in t.tries ==> t'.tries[y] == t.tries[y])
            && (WasStored(world, t', y) <==> WasStored(world, t, y))
  {
  }

  ghost predicate AllExplained(world: World, t: Trace, p: Places)
  {
    forall x {:trigger Explained(world, t, p, x)} :: Explained(world, t, p, x)
  }

  /** After an attempt the other items are explained as before. */
  lemma AttemptExplained(world: World, t: Trace, p: Places, p': Places, x: Item, call: nat)
    requires AllExplained(world, t, p) && Explained(world, Attempted(t, x, call), p', x)
    requires forall y {:trigger NoNewPlace(p, p', y)} | y != x :: NoNewPlace(p, p', y)
    ensures AllExplained(world, Attempted(t, x, call), p')
  {
    forall y ensures Explained(world, Attempted(t, x, call), p', y) {
      if y != x {
        assert Explained(world, t, p, y) && NoNewPlace(p, p', y);
        AttemptedOthers(world, t, x, call, y);
        StaysExplained(world, t, Attempted(t, x, call), p, p', y);
      }
    }
  }

  /** What one more attempt adds to an item's history. */
  lemma AttemptedThis(world: World, t: Trace, x: Item, call: nat)
    requires !WasStored(world, t, x)
    ensures var t' := Attempted(t, x, call);
            && Tried(t', x) && Last(world, t', x) == world.attempt(x, call)
            && Previous(world, t', x) == (if Tried(t, x) then Some(Last(world, t, x)) else None)
            && (WasStored(world, t', x) <==> world.attempt(x, call) == WasApplied)
  {
  }

  class Pass {
    const world: World
    var calls: nat
    var results: map<Item, Letter>
    var colliding: seq<Item>
    var waiting: seq<Waiting>
    var handled: set<Item>
    ghost var open: set<Item>
    /** What some transaction of this pass has stored. */
    ghost var stored: set<Item>
    ghost var trace: Trace

    constructor (world: World)
      ensures this.world == world && Holds({}) && colliding == [] && waiting == [] && handled == {}
      ensures trace == Trace(map[], {}, {})
    {
      this.world := world;
      calls, results, colliding, waiting, handled := 0, map[], [], [], {};
      open, stored, trace := {}, {}, Trace(map[], {}, {});
    }

    ghost predicate Holds(seen: set<Item>)
      reads this
    {
      Placed(results, waiting, colliding, handled, open, seen) && Truthful(results, stored)
      && trace.tries.Keys == seen && AllExplained(world, trace, Now())
    }

    ghost function Now(): Places
      reads this
    {
      Places(results, waiting, open, stored)
    }

    /** One attempt in its own transaction. */
    method Attempt(item: Item) returns (outcome: Outcome)
      modifies `calls, `stored, `trace
      ensures outcome == world.attempt(item, old(calls)) && trace == Attempted(old(trace), item, old(calls))
      ensures stored == if outcome == WasApplied then old(stored) + {item} else old(stored)
    {
      outcome := world.attempt(item, calls);
      trace := Attempted(trace, item, calls);
      calls := calls + 1;
      if outcome == WasApplied { stored := stored + {item}; }
    }

    /** Gives an item its letter, once and for all. */
    method Answer(item: Item, letter: Letter)
      requires item !in results
      modifies `results
      ensures results == old(results)[item := letter]
    {
      results := results[item := letter];
    }

    /** One place for an item that has none, by the outcome of its attempt. */
    method PutAway(item: Item, outcome: Outcome, ghost before: set<Item>, ghost seen: set<Item>)
      requires Placed(results, waiting, colliding, {}, open, seen) && Truthful(results, before) && item !in seen
      requires stored == if outcome == WasApplied then before + {item} else before
      modifies `results, `colliding, `waiting, `open
      ensures Placed(results, waiting, colliding, {}, open, seen + {item}) && Truthful(results, stored)
      ensures Now() == Turned(old(Now()).(stored := before), item, outcome)
    {
      assert item !in before;
      match outcome {
        case WasApplied => Answer(item, Applied);
        case WasStale => Answer(item, Stale);
        case Conflict(_) =>
          colliding := colliding + [item];
          open := open + {item};
        case Defer(reason) => waiting := waiting + [Waiting(item, reason)];
        case Reject => Answer(item, Rejected);
      }
    }

    method FirstTurn(item: Item, ghost seen: set<Item>)
      requires Holds(seen) && item !in seen && handled == {} && FirstTurnsOnly(world, trace, waiting)
      modifies this
      ensures Holds(seen + {item}) && handled == {} && FirstTurnsOnly(world, trace, waiting)
    {
      ghost var was, before, call := trace, Now(), calls;
      assert Absent(before, item);
      var outcome := Attempt(item);
      PutAway(item, outcome, before.stored, seen);
      TurnExplained(world, was, before, item, call);
      StillFirstTurns(world, was, before, item, call);
    }

    /** Out of the waiting ones and into its new place. */
    method TakeBack(entry: Waiting, outcome: Outcome, ghost before: set<Item>, ghost seen: set<Item>)
      requires Placed(results, waiting, colliding, {}, open, seen) && Truthful(results, before) && entry in waiting
      requires stored == if outcome == WasApplied then before + {entry.item} else before
      modifies `results, `colliding, `waiting, `open
      ensures Placed(results, waiting, colliding, {}, open, seen) && Truthful(results, stored)
      ensures Now() == Retaken(old(Now()).(stored := before), entry, outcome)
      ensures forall w | w in old(waiting) && w != entry :: w in waiting
    {
      assert entry.item in Waits(waiting);
      WithoutTakesOne(waiting, entry);
      if outcome == WasApplied || outcome == WasStale {
        Answer(entry.item, if outcome == WasApplied then Applied else Stale);
        waiting := Without(waiting, entry);
      } else if outcome.Conflict? {
        colliding := colliding + [entry.item];
        open := open + {entry.item};
        waiting := Without(waiting, entry);
      }
    }

    /** One more attempt at a waiting row. */
    method AskWaiting(entry: Waiting, ghost seen: set<Item>)
      requires Holds(seen) && entry in waiting && handled == {} && PutOff(world, trace, entry)
      modifies this
      ensures Holds(seen) && handled == {} && forall w | w in old(waiting) && w != entry :: w in waiting
      ensures trace == Attempted(old(trace), entry.item, old(calls))
    {
      ghost var was, before, call := trace, Now(), calls;
      assert entry.item in Waits(waiting);
      RetryExplained(world, was, before, entry, call);
      var outcome := Attempt(entry.item);
      TakeBack(entry, outcome, before.stored, seen);
    }

    /** A second attempt for a row that lacked its parent: a row after it may have brought it. */
    method RetryWaiting(entry: Waiting, ghost rest: seq<Waiting>, ghost seen: set<Item>)
      requires Holds(seen) && entry in waiting && handled == {} && LeftToRetry(world, trace, [entry] + rest)
      requires forall w | w in rest :: w in waiting
      modifies this
      ensures Holds(seen) && handled == {} && (forall w | w in rest :: w in waiting) && LeftToRetry(world, trace, rest)
    {
      ghost var was, call := trace, calls;
      RestDiffers(world, was, entry, rest);
      if entry.reason == ForeignKey || entry.reason == Race {
        AskWaiting(entry, seen);
        AgainIsRetried(world, was, entry.item, call);
      }
      OneLessToRetry(world, was, trace, entry, rest);
    }

    /** A row and those its collisions lead to: follows each row in the way
        to the row of this pass that will move it. Closed when every row in the way of a member is
        itself a member; otherwise `blocker` is one that stays. */
    method CollectGroup(entry: Item, first: Collision, pending: map<(string, string), Item>)
      returns (group: seq<Item>, closed: bool, blocker: Collision)
      requires entry in open && Distinct(colliding) && open == Elements(colliding) - handled
      requires IsPending(pending, colliding)
      modifies `calls
      ensures IsGroup(group, entry, open)
      ensures closed ==> blocker == first && forall k | 0 <= k < |group| :: WaysLeadInside(world, group, group[k], group[k].uniques)
      ensures !closed ==> exists member :: member in group && Stays(world, member, pending, handled, group, blocker)
    {
      group, closed, blocker := [entry], true, first;
      var cursor := 0;
      while cursor < |group| && closed
        invariant 0 <= cursor <= |group| && IsGroup(group, entry, open)
        invariant closed ==> blocker == first && forall k | 0 <= k < cursor :: WaysLeadInside(world, group, group[k], group[k].uniques)
        invariant !closed ==> exists member :: member in group && Stays(world, member, pending, handled, group, blocker)
        decreases |open| + 1 - cursor, closed
      {
        GroupIsBounded(group, entry, open);
        group, closed, blocker := FollowMember(entry, group, cursor, first, pending);
        cursor := cursor + 1;
      }
      GroupIsBounded(group, entry, open);
    }

    /** The rows in the way of one member, one unique index after the other. */
    method FollowMember(entry: Item, before: seq<Item>, cursor: nat, first: Collision, pending: map<(string, string), Item>)
      returns (group: seq<Item>, closed: bool, blocker: Collision)
      requires open == Elements(colliding) - handled && IsPending(pending, colliding)
      requires IsGroup(before, entry, open) && cursor < |before|
      requires forall k | 0 <= k < cursor :: WaysLeadInside(world, before, before[k], before[k].uniques)
      modifies `calls
      ensures IsGroup(group, entry, open) && |before| <= |group| && group[..|before|] == before
      ensures closed ==> blocker == first && forall k | 0 <= k <= cursor :: WaysLeadInside(world, group, group[k], group[k].uniques)
      ensures !closed ==> before[cursor] in group && Stays(world, before[cursor], pending, handled, group, blocker)
    {
      group, closed, blocker := before, true, first;
      var member := before[cursor];
      var index := 0;
      while index < member.uniques
        invariant 0 <= index <= member.uniques && closed && blocker == first
        invariant IsGroup(group, entry, open) && |before| <= |group| && group[..|before|] == before
        invariant forall k | 0 <= k < cursor :: WaysLeadInside(world, group, group[k], group[k].uniques)
        invariant WaysLeadInside(world, group, member, index)
      {
        var other := world.otherRow(member, index, calls);
        calls := calls + 1;
        if other.Some? && !InGroup(group, member.table, other.value) {
          var key := (member.table, other.value);
          if key in pending && pending[key] !in handled && !pending[key].deleted {
            GroupGrows(world, group, pending[key], cursor);
            WaysStayInside(world, group, pending[key], member, index);
            group := group + [pending[key]];
            assert group[|group| - 1].table == member.table && group[|group| - 1].hash == other.value;
          } else {
            assert group[cursor] == member;
            closed, blocker := false, Collision(index, other.value);
            return;
          }
        }
        assert WayLeadsInside(world, group, member, index, other);
        index := index + 1;
      }
      assert group[cursor] == member;
    }

    /** A group in one transaction: all of its rows or none. */
    method TryGroup(group: seq<Item>, entry: Item, ghost seen: set<Item>) returns (done: bool)
      requires Holds(seen) && IsGroup(group, entry, open)
      modifies `calls, `results, `handled, `open, `stored, `trace
      ensures Holds(seen) && old(handled) <= handled && (done ==> entry in handled) && (!done ==> Now() == old(Now()) && handled == old(handled))
      ensures trace == old(trace).(groups := old(trace).groups + {(group, old(calls))}) && done == world.group(group, old(calls))
    {
      ghost var was, before := trace, Now();
      GroupExplained(world, was, before, group, calls);
      done := world.group(group, calls);
      trace := trace.(groups := trace.groups + {(group, calls)});
      calls := calls + 1;
      if done { StoreGroup(group, entry, seen); }
    }

    /** The letters of a group that was stored. */
    method StoreGroup(group: seq<Item>, entry: Item, ghost seen: set<Item>)
      requires Placed(results, waiting, colliding, handled, open, seen) && Truthful(results, stored) && IsGroup(group, entry, open)
      modifies `results, `handled, `open, `stored
      ensures Placed(results, waiting, colliding, handled, open, seen) && Truthful(results, stored)
      ensures Now() == Grouped(old(Now()), group) && handled == old(handled) + Elements(group) && entry in handled
    {
      AnswerGroup(group);
      assert group[0] in Elements(group);
      stored := stored + Elements(group);
      open := open - Elements(group);
    }

    method AnswerGroup(group: seq<Item>)
      requires Distinct(group) && results.Keys !! Elements(group)
      modifies `results, `handled
      ensures handled == old(handled) + Elements(group) && results.Keys == old(results.Keys) + Elements(group)
      ensures forall x {:trigger results[x]} | x in results ::
                results[x] == if x in Elements(group) then Applied else old(results)[x]
    {
      var i := 0;
      while i < |group|
        invariant 0 <= i <= |group|
        invariant handled == old(handled) + Elements(group[..i])
        invariant results.Keys == old(results.Keys) + Elements(group[..i])
        invariant forall x {:trigger results[x]} | x in results ::
                    if x in old(results) then results[x] == old(results)[x] else results[x] == Applied
      {
        GroupMemberIsNew(group, i);
        handled := handled + {group[i]};
        Answer(group[i], Applied);
        i := i + 1;
      }
      assert group[..i] == group;
    }

    /** The second turn of a row that collided. One that keeps waiting for its unique value either has
        a row in its way, directly or through others, that nothing of this pass will move, or its
        group was tried in vain, or nothing was found in its way. */
    method SecondTurn(entry: Item, pending: map<(string, string), Item>, ghost seen: set<Item>)
      requires Holds(seen) && entry in colliding && IsPending(pending, colliding) && AllRetried(world, trace)
      modifies `calls, `results, `waiting, `handled, `open, `stored, `trace
      ensures Holds(seen) && old(handled) <= handled && entry in handled && AllRetried(world, trace)
      ensures entry !in old(handled) && entry !in results && CollidedTwice(world, trace, entry) ==>
                exists group {:trigger IsGroup(group, entry, old(open))} :: IsGroup(group, entry, old(open)) && WasBlocked(world, trace, group, pending, old(handled))
    {
      if entry in handled { return; }
      var retry := AskAgain(entry, seen);
      if retry.Conflict? {
        ghost var asked := trace;
        GroupOrWait(entry, retry.with, pending, seen);
        SameTriesRetried(world, asked, trace);
      }
    }

    /** The way may be clear by now: rows were stored or moved since the first attempt. */
    method AskAgain(entry: Item, ghost seen: set<Item>) returns (retry: Outcome)
      requires Holds(seen) && entry in open && AllRetried(world, trace)
      modifies `calls, `results, `waiting, `handled, `open, `stored, `trace
      ensures Holds(seen) && AllRetried(world, trace) && (CollidedTwice(world, trace, entry) <==> retry.Conflict?)
      ensures if retry.Conflict? then Now() == old(Now()) && handled == old(handled) else handled == old(handled) + {entry}
    {
      ghost var was, before, call := trace, Now(), calls;
      assert Absent(before.(open := before.open - {entry}), entry);
      assert Explained(world, was, before, entry);
      SecondTurnExplained(world, was, before, entry, call);
      StaysRetried(world, was, entry, call);
      retry := Attempt(entry);
      if !retry.Conflict? {
        NotTwice(world, was, entry, call);
        AfterRetry(entry, retry, before.stored, seen);
      }
    }

    /** Follows what is in the way of a row that still collides. */
    method GroupOrWait(entry: Item, first: Collision, pending: map<(string, string), Item>, ghost seen: set<Item>)
      requires Holds(seen) && entry in open && IsPending(pending, colliding) && CollidedTwice(world, trace, entry)
      modifies `calls, `results, `waiting, `handled, `open, `stored, `trace
      ensures Holds(seen) && old(handled) <= handled && entry in handled && trace.tries == old(trace).tries
      ensures entry !in results ==>
                exists group {:trigger IsGroup(group, entry, old(open))} :: IsGroup(group, entry, old(open)) && WasBlocked(world, trace, group, pending, old(handled))
    {
      var group, closed, blocker := CollectGroup(entry, first, pending);
      if closed && |group| > 1 {
        ghost var call := calls;
        var done := TryGroup(group, entry, seen);
        if done { return; }
        assert (group, call) in trace.groups;
      }
      ghost var tried := trace;
      assert WasBlocked(world, tried, group, pending, old(handled));
      ResolveOrWait(entry, blocker, seen);
      BlockedStill(world, tried, trace, group, pending, old(handled));
    }

    method AfterRetry(entry: Item, retry: Outcome, ghost before: set<Item>, ghost seen: set<Item>)
      requires Placed(results, waiting, colliding, handled, open, seen) && entry in open && !retry.Conflict?
      requires Truthful(results, before) && entry !in before
      requires stored == if retry == WasApplied then before + {entry} else before
      modifies `results, `waiting, `handled, `open
      ensures Placed(results, waiting, colliding, handled, open, seen) && Truthful(results, stored) && handled == old(handled) + {entry}
      ensures Now() == Turned(old(Now()).(stored := before, open := old(open) - {entry}), entry, retry)
    {
      handled, open := handled + {entry}, open - {entry};
      match retry {
        case WasApplied => Answer(entry, Applied);
        case WasStale => Answer(entry, Stale);
        case Reject => Answer(entry, Rejected);
        case Defer(reason) => waiting := waiting + [Waiting(entry, reason)];
        case Conflict(_) =>
      }
    }

    /** A row whose way stays blocked: a true duplicate once its sender has nothing more, otherwise
        it waits. */
    method ResolveOrWait(entry: Item, blocker: Collision, ghost seen: set<Item>)
      requires Holds(seen) && entry in open && CollidedTwice(world, trace, entry)
      modifies `calls, `results, `waiting, `handled, `open, `stored, `trace
      ensures Holds(seen) && handled == old(handled) + {entry}
      ensures old(trace).groups == trace.groups && old(trace).tries == trace.tries
      ensures trace == if world.senderDone(entry) then old(trace).(verdicts := old(trace).verdicts + {(entry, blocker, old(calls))}) else old(trace)
    {
      ghost var before, call := Now(), calls;
      if world.senderDone(entry) {
        VerdictExplained(world, trace, before, entry, blocker, call);
        var resolved := world.duplicate(entry, blocker, calls);
        trace := trace.(verdicts := trace.verdicts + {(entry, blocker, calls)});
        calls := calls + 1;
        if resolved {
          StoreJudged(entry, seen);
          return;
        }
        assert (entry, blocker, call) in trace.verdicts;
      }
      WaitExplained(world, trace, before, entry);
      PutToWait(entry, seen);
    }

    method StoreJudged(entry: Item, ghost seen: set<Item>)
      requires Placed(results, waiting, colliding, handled, open, seen) && Truthful(results, stored) && entry in open
      modifies `results, `handled, `open, `stored
      ensures Placed(results, waiting, colliding, handled, open, seen) && Truthful(results, stored)
      ensures Now() == Judged(old(Now()), entry) && handled == old(handled) + {entry}
    {
      handled, open, stored := handled + {entry}, open - {entry}, stored + {entry};
      Answer(entry, Applied);
    }

    method PutToWait(entry: Item, ghost seen: set<Item>)
      requires Placed(results, waiting, colliding, handled, open, seen) && Truthful(results, stored) && entry in open
      modifies `waiting, `handled, `open
      ensures Placed(results, waiting, colliding, handled, open, seen) && Truthful(results, stored)
      ensures Now() == old(Now()).(open := old(open) - {entry}, waiting := old(waiting) + [Waiting(entry, Unique)])
      ensures handled == old(handled) + {entry}
    {
      handled, open := handled + {entry}, open - {entry};
      waiting := waiting + [Waiting(entry, Unique)];
    }

    /** What still waits: dropped with its parent when nothing more can come, else set aside. */
    method SetAside(ghost seen: set<Item>) returns (saved: set<Item>)
      requires Holds(seen) && open == {}
      modifies `results
      ensures results.Keys == seen && saved <= seen && LettersTell(results, stored, saved)
      ensures forall x {:trigger LetterFits(world, trace, x, results[x])} | x in results :: LetterFits(world, trace, x, results[x])
    {
      ghost var before := Now();
      WithLastIs(world, results, waiting);
      LastLettersTell(world, results, waiting, stored);
      assert forall w | w in waiting :: w.item in Waits(waiting);
      saved := GiveLastLetters();
      AllLettersFit(world, trace, before, results);
    }

    method GiveLastLetters() returns (saved: set<Item>)
      requires DistinctWaiting(waiting) && results.Keys !! Waits(waiting)
      modifies `results
      ensures results == WithLast(world, old(results), waiting) && saved == Aside(world, waiting)
    {
      saved := {};
      var i := 0;
      while i < |waiting|
        invariant 0 <= i <= |waiting|
        invariant results == WithLast(world, old(results), waiting[..i]) && saved == Aside(world, waiting[..i])
        invariant results.Keys == old(results).Keys + Waits(waiting[..i])
      {
        var entry := waiting[i];
        NextWaiter(waiting, i);
        NextLetter(world, old(results), waiting, i);
        if entry.reason == ForeignKey && world.senderDone(entry.item) {
          Answer(entry.item, Stale);
        } else {
          Answer(entry.item, Deferred);
          saved := saved + {entry.item};
        }
        i := i + 1;
      }
      assert waiting[..i] == waiting;
    }
  }

  /** The letters with those of the waiting items. */
  function WithLast(world: World, results: map<Item, Letter>, waiting: seq<Waiting>): map<Item, Letter>
  {
    if waiting == [] then results
    else
      var last := waiting[|waiting| - 1];
      WithLast(world, results, waiting[..|waiting| - 1])[last.item := LastLetter(world, last)]
  }

  ghost function Aside(world: World, waiting: seq<Waiting>): set<Item>
  {
    set w | w in waiting && LastLetter(world, w) == Deferred :: w.item
  }

  lemma NextLetter(world: World, results: map<Item, Letter>, waiting: seq<Waiting>, i: nat)
    requires i < |waiting|
    ensures WithLast(world, results, waiting[..i + 1]) == WithLast(world, results, waiting[..i])[waiting[i].item := LastLetter(world, waiting[i])]
    ensures Aside(world, waiting[..i + 1]) == Aside(world, waiting[..i]) + if LastLetter(world, waiting[i]) == Deferred then {waiting[i].item} else {}
  {
    assert waiting[..i + 1] == waiting[..i] + [waiting[i]] && waiting[..i + 1][..i] == waiting[..i];
  }

  lemma LastWaits(front: seq<Waiting>, last: Waiting)
    requires DistinctWaiting(front + [last])
    ensures DistinctWaiting(front) && last.item !in Waits(front) && Waits(front + [last]) == Waits(front) + {last.item}
  {
    var all := front + [last];
    assert all[|front|] == last && forall k | 0 <= k < |front| :: all[k] == front[k];
    forall w | w in front ensures w.item != last.item {
      var k :| 0 <= k < |front| && front[k] == w;
      assert all[k] == w;
    }
    assert last in all;
  }

  lemma {:induction false} WithLastIs(world: World, results: map<Item, Letter>, waiting: seq<Waiting>)
    requires DistinctWaiting(waiting)
    ensures var all := WithLast(world, results, waiting);
            && all.Keys == results.Keys + Waits(waiting)
            && (forall x | x in results && x !in Waits(waiting) :: all[x] == results[x])
            && forall w | w in waiting :: all[w.item] == LastLetter(world, w)
  {
    if waiting != [] {
      var front, last := waiting[..|waiting| - 1], waiting[|waiting| - 1];
      assert waiting == front + [last];
      LastWaits(front, last);
      WithLastIs(world, results, front);
      var before, all := WithLast(world, results, front), WithLast(world, results, waiting);
      assert all == before[last.item := LastLetter(world, last)];
      forall w | w in waiting ensures all[w.item] == LastLetter(world, w) {
        if w in front { assert w.item in Waits(front) && before[w.item] == LastLetter(world, w); }
      }
    }
  }

  lemma LastLettersTell(world: World, results: map<Item, Letter>, waiting: seq<Waiting>, stored: set<Item>)
    requires DistinctWaiting(waiting) && results.Keys !! Waits(waiting) && Truthful(results, stored)
    ensures LettersTell(WithLast(world, results, waiting), stored, Aside(world, waiting))
  {
    WithLastIs(world, results, waiting);
    var all := WithLast(world, results, waiting);
    forall x | x in all ensures (all[x] == Applied <==> x in stored) && (all[x] == Deferred <==> x in Aside(world, waiting)) {
      if x in Waits(waiting) {
        var w :| w in waiting && w.item == x;
        assert all[w.item] == LastLetter(world, w);
        if x in Aside(world, waiting) {
          var v :| v in waiting && LastLetter(world, v) == Deferred && v.item == x;
          assert all[v.item] == LastLetter(world, v);
        }
      } else {
        assert forall w | w in waiting :: w.item in Waits(waiting);
      }
    }
  }

  /** The letter of an item that still waits at the end of the pass. */
  function LastLetter(world: World, w: Waiting): Letter
  {
    if w.reason == ForeignKey && world.senderDone(w.item) then Stale else Deferred
  }

  /** An item's letter, by what was answered for it: applied if some transaction stored it; stale if
      its last attempt found it so, or if it waits for its parent and its sender has nothing more;
      rejected if its last attempt in turn was refused; and otherwise set aside, being put off or
      still colliding. */
  ghost predicate LetterFits(world: World, t: Trace, x: Item, letter: Letter)
  {
    && Tried(t, x)
    && (letter == Applied <==> WasStored(world, t, x))
    && (letter == Stale <==> !WasStored(world, t, x)
                             && (Last(world, t, x) == WasStale || (WaitsFor(world, t, x, ForeignKey) && world.senderDone(x))))
    && (letter == Rejected <==> !WasStored(world, t, x) && Refused(world, t, x))
    && (letter == Deferred ==> StaysColliding(world, t, x) || exists r :: WaitsFor(world, t, x, r))
  }

  lemma AllLettersFit(world: World, t: Trace, p: Places, results: map<Item, Letter>)
    requires AllExplained(world, t, p) && Truthful(p.results, p.stored) && p.stored !! Waits(p.waiting)
    requires results.Keys == p.results.Keys + Waits(p.waiting) && p.results.Keys !! Waits(p.waiting)
    requires forall x | x in p.results :: results[x] == p.results[x]
    requires forall w | w in p.waiting :: results[w.item] == LastLetter(world, w)
    ensures forall x {:trigger LetterFits(world, t, x, results[x])} | x in results :: LetterFits(world, t, x, results[x])
  {
    forall x | x in results ensures LetterFits(world, t, x, results[x]) {
      assert Explained(world, t, p, x);
      if x in Waits(p.waiting) {
        var w :| w in p.waiting && w.item == x;
        assert w == Waiting(x, w.reason);
        OneReasonWaited(world, t, x, w.reason);
      }
    }
  }

  lemma OneReasonWaited(world: World, t: Trace, x: Item, reason: Reason)
    requires Tried(t, x) && (WaitsFor(world, t, x, reason) || (reason == Unique && StaysColliding(world, t, x)))
    ensures WaitsFor(world, t, x, ForeignKey) <==> reason == ForeignKey
    ensures Last(world, t, x) != WasStale && !Refused(world, t, x)
  {
  }

  /** The colliding rows by name. */
  ghost predicate IsPending(pending: map<(string, string), Item>, colliding: seq<Item>)
  {
    forall key {:trigger pending[key]} | key in pending :: pending[key] in colliding && key == (pending[key].table, pending[key].hash)
  }

  predicate InGroup(group: seq<Item>, table: string, hash: string)
  {
    exists i | 0 <= i < |group| :: group[i].table == table && group[i].hash == hash
  }

  /** Nothing is in the way of the member there, or a member of the group. */
  ghost predicate WayLeadsInside(world: World, group: seq<Item>, member: Item, index: nat, answer: Option<string>)
  {
    && (exists call: nat :: world.otherRow(member, index, call) == answer)
    && (answer.Some? ==> InGroup(group, member.table, answer.value))
  }

  ghost predicate WaysLeadInside(world: World, group: seq<Item>, member: Item, upTo: nat)
  {
    forall index: nat {:trigger WayClear(world, group, member, index)} | index < upTo :: WayClear(world, group, member, index)
  }

  ghost predicate WayClear(world: World, group: seq<Item>, member: Item, index: nat)
  {
    exists answer :: WayLeadsInside(world, group, member, index, answer)
  }

  /** A row in some member's way stays, or the group was tried in vain, or it is the row alone. */
  ghost predicate WasBlocked(world: World, t: Trace, group: seq<Item>, pending: map<(string, string), Item>, handled: set<Item>)
  {
    || (exists member, blocker {:trigger Stays(world, member, pending, handled, group, blocker)} ::
          member in group && Stays(world, member, pending, handled, group, blocker))
    || ((forall k | 0 <= k < |group| :: WaysLeadInside(world, group, group[k], group[k].uniques))
        && (|group| > 1 ==> exists n {:trigger (group, n) in t.groups} :: (group, n) in t.groups && !world.group(group, n)))
  }

  lemma BlockedStill(world: World, t: Trace, t': Trace, group: seq<Item>, pending: map<(string, string), Item>, handled: set<Item>)
    requires WasBlocked(world, t, group, pending, handled) && t'.groups == t.groups
    ensures WasBlocked(world, t', group, pending, handled)
  {
  }

  /** The row in the way is no member and nothing of this pass will move it. */
  ghost predicate Stays(world: World, member: Item, pending: map<(string, string), Item>, handled: set<Item>, group: seq<Item>,
                        blocker: Collision)
  {
    var key := (member.table, blocker.hash);
    && (exists call: nat :: world.otherRow(member, blocker.index, call) == Some(blocker.hash))
    && !InGroup(group, member.table, blocker.hash)
    && (key !in pending || pending[key] in handled || pending[key].deleted)
  }

  lemma WaysStayInside(world: World, group: seq<Item>, more: Item, member: Item, upTo: nat)
    requires WaysLeadInside(world, group, member, upTo)
    ensures WaysLeadInside(world, group + [more], member, upTo)
  {
    forall index: nat | index < upTo ensures WayClear(world, group + [more], member, index) {
      assert WayClear(world, group, member, index);
      var answer :| WayLeadsInside(world, group, member, index, answer);
      if answer.Some? {
        var i :| 0 <= i < |group| && group[i].table == member.table && group[i].hash == answer.value;
        assert (group + [more])[i] == group[i];
      }
      assert WayLeadsInside(world, group + [more], member, index, answer);
    }
  }

  lemma GroupGrows(world: World, group: seq<Item>, more: Item, cursor: nat)
    requires cursor <= |group| && forall k | 0 <= k < cursor :: WaysLeadInside(world, group, group[k], group[k].uniques)
    ensures forall k | 0 <= k < cursor :: WaysLeadInside(world, group + [more], (group + [more])[k], (group + [more])[k].uniques)
  {
    forall k | 0 <= k < cursor ensures WaysLeadInside(world, group + [more], (group + [more])[k], (group + [more])[k].uniques) {
      WaysStayInside(world, group, more, group[k], group[k].uniques);
    }
  }

  ghost predicate IsGroup(group: seq<Item>, entry: Item, open: set<Item>)
  {
    && group != [] && group[0] == entry && Distinct(group) && Elements(group) <= open
    && OfOneTable(group, entry.table)
  }

  /** Rows of one table, each named once. */
  ghost predicate OfOneTable(group: seq<Item>, table: string)
  {
    && (forall i | 0 <= i < |group| :: group[i].table == table)
    && forall i, j | 0 <= i < j < |group| :: group[i].hash != group[j].hash
  }

  lemma {:induction false} DistinctSize(items: seq<Item>)
    requires Distinct(items)
    ensures |Elements(items)| == |items|
  {
    if items != [] {
      var front, last := items[..|items| - 1], items[|items| - 1];
      DistinctSize(front);
      assert items == front + [last];
      assert Elements(items) == Elements(front) + {last};
      assert last !in Elements(front);
    }
  }

  lemma GroupIsBounded(group: seq<Item>, entry: Item, open: set<Item>)
    requires IsGroup(group, entry, open)
    ensures |group| <= |open|
  {
    DistinctSize(group);
    assert open == Elements(group) + (open - Elements(group));
  }

  lemma GroupMemberIsNew(group: seq<Item>, i: nat)
    requires Distinct(group) && i < |group|
    ensures group[i] !in Elements(group[..i]) && Elements(group[..i + 1]) == Elements(group[..i]) + {group[i]}
  {
    assert group[..i + 1] == group[..i] + [group[i]];
  }

  lemma NextWaiter(waiting: seq<Waiting>, i: nat)
    requires DistinctWaiting(waiting) && i < |waiting|
    ensures waiting[i].item in Waits(waiting) && waiting[i].item !in Waits(waiting[..i])
    ensures Waits(waiting[..i + 1]) == Waits(waiting[..i]) + {waiting[i].item}
  {
    assert waiting[..i + 1] == waiting[..i] + [waiting[i]];
    assert waiting[i] in waiting;
    forall w | w in waiting[..i] ensures w.item != waiting[i].item {
    }
  }

  // ─── The whole set ───────────────────────────────────────────────────────────

  /** What the letters say: applied items are those some transaction stored, deferred ones those
      set aside to be tried again. */
  ghost predicate LettersTell(results: map<Item, Letter>, stored: set<Item>, saved: set<Item>)
  {
    forall x {:trigger results[x]} | x in results :: (results[x] == Applied <==> x in stored) && (results[x] == Deferred <==> x in saved)
  }

  function Pending(colliding: seq<Item>): map<(string, string), Item>
  {
    if colliding == [] then map[]
    else
      var last := colliding[|colliding| - 1];
      Pending(colliding[..|colliding| - 1])[(last.table, last.hash) := last]
  }

  lemma {:induction false} PendingIsPending(colliding: seq<Item>)
    ensures IsPending(Pending(colliding), colliding)
  {
    if colliding != [] {
      var front := colliding[..|colliding| - 1];
      PendingIsPending(front);
      assert colliding == front + [colliding[|colliding| - 1]];
    }
  }

  /** Nothing was set aside before, and the whole package passed. */
  predicate TookPackage(world: World, items: seq<Item>)
  {
    items != [] && (forall x | x in items :: !x.setAside) && world.package(Sorted(items)).Some?
  }

  /** Every item gets exactly one letter, and what the database answered decides which. */
  method ProcessItems(world: World, items: seq<Item>)
    returns (results: map<Item, Letter>, ghost stored: set<Item>, saved: set<Item>, ghost trace: Trace)
    requires Distinct(items)
    ensures results.Keys == Elements(items)
    ensures LettersTell(results, stored, saved)
    ensures TookPackage(world, items) ==>
              saved == {} && forall x | x in items :: results[x] == if world.package(Sorted(items)).value(x) then Applied else Stale
    ensures !TookPackage(world, items) ==>
              (forall x {:trigger LetterFits(world, trace, x, results[x])} | x in items :: LetterFits(world, trace, x, results[x]))
              && AllRetried(world, trace)
    ensures !TookPackage(world, items) ==> forall x | x in items ::
              && (results[x] == Stale ==> || (exists n :: world.attempt(x, n) == WasStale)
                                          || (world.senderDone(x) && exists n :: world.attempt(x, n) == Defer(ForeignKey)))
              && (results[x] == Rejected ==> exists n :: world.attempt(x, n) == Reject)
  {
    var ordered := Sorted(items);
    SameElements(items, ordered);
    trace := Trace(map[], {}, {});
    if ordered != [] && !exists i | 0 <= i < |ordered| :: ordered[i].setAside {
      var done := world.package(ordered);
      if done.Some? {
        results := map x | x in ordered :: if done.value(x) then Applied else Stale;
        stored := set x | x in ordered && done.value(x);
        saved := {};
        WholePackage(world, items, ordered);
        return;
      }
    }
    NoWholePackage(world, items, ordered);
    var pass := new Pass(world);
    FirstTurns(pass, ordered);
    RetryAll(pass, Elements(ordered));
    SecondTurns(pass, Elements(ordered));
    saved := pass.SetAside(Elements(ordered));
    results, stored, trace := pass.results, pass.stored, pass.trace;
    forall x | x in items && results[x] in {Stale, Rejected} ensures Caused(world, x, results[x]) {
      assert LetterFits(world, trace, x, results[x]);
      FitsIsCaused(world, trace, x, results[x]);
    }
  }

  /** Some call gave reason for this letter. */
  ghost predicate Caused(world: World, x: Item, letter: Letter)
  {
    && (letter == Stale ==> || (exists n :: world.attempt(x, n) == WasStale)
                            || (world.senderDone(x) && exists n :: world.attempt(x, n) == Defer(ForeignKey)))
    && (letter == Rejected ==> exists n :: world.attempt(x, n) == Reject)
  }

  lemma FitsIsCaused(world: World, t: Trace, x: Item, letter: Letter)
    requires LetterFits(world, t, x, letter)
    ensures Caused(world, x, letter)
  {
    var calls := t.tries[x];
    assert Last(world, t, x) == world.attempt(x, calls[|calls| - 1]);
    if |calls| > 1 { assert Previous(world, t, x) == Some(world.attempt(x, calls[|calls| - 2])); }
  }

  lemma WholePackage(world: World, items: seq<Item>, ordered: seq<Item>)
    requires ordered == Sorted(items) && Elements(items) == Elements(ordered) && ordered != [] && world.package(ordered).Some?
    requires !exists i | 0 <= i < |ordered| :: ordered[i].setAside
    ensures TookPackage(world, items)
  {
    assert ordered[0] in Elements(items);
    forall x | x in items ensures !x.setAside {
      assert x in Elements(ordered);
      var i :| 0 <= i < |ordered| && ordered[i] == x;
    }
  }

  lemma NoElements(items: seq<Item>)
    ensures Elements(items) == {} ==> items == []
  {
    if items != [] { assert items[0] in Elements(items); }
  }

  lemma NoWholePackage(world: World, items: seq<Item>, ordered: seq<Item>)
    requires ordered == Sorted(items) && Elements(items) == Elements(ordered)
    requires ordered == [] || (exists i | 0 <= i < |ordered| :: ordered[i].setAside) || world.package(ordered).None?
    ensures !TookPackage(world, items)
  {
    if ordered == [] {
      NoElements(items);
    } else if i :| 0 <= i < |ordered| && ordered[i].setAside {
      assert ordered[i] in Elements(items);
    }
  }

  lemma SameElements(items: seq<Item>, ordered: seq<Item>)
    requires multiset(ordered) == multiset(items) && Distinct(items)
    ensures Elements(ordered) == Elements(items) && Distinct(ordered)
  {
    forall x ensures x in ordered <==> x in items {
      assert x in multiset(ordered) <==> x in multiset(items);
    }
    forall i, j | 0 <= i < j < |ordered| ensures ordered[i] != ordered[j] {
      if ordered[i] == ordered[j] {
        CountedTwice(ordered, i, j);
        CountedOnce(items, ordered[i]);
      }
    }
  }

  lemma CountedTwice(items: seq<Item>, i: nat, j: nat)
    requires i < j < |items| && items[i] == items[j]
    ensures multiset(items)[items[i]] >= 2
  {
    assert items == items[..j] + [items[j]] + items[j + 1..];
    assert items[i] in items[..j];
  }

  lemma {:induction false} CountedOnce(items: seq<Item>, x: Item)
    requires Distinct(items)
    ensures multiset(items)[x] <= 1
  {
    if items != [] {
      var front, last := items[..|items| - 1], items[|items| - 1];
      CountedOnce(front, x);
      assert items == front + [last];
      assert last !in front;
    }
  }

  method FirstTurns(pass: Pass, ordered: seq<Item>)
    requires pass.Holds({}) && pass.handled == {} && Distinct(ordered) && pass.waiting == [] && pass.trace.tries == map[]
    modifies pass
    ensures pass.Holds(Elements(ordered)) && pass.handled == {} && FirstTurnsOnly(pass.world, pass.trace, pass.waiting)
  {
    var i := 0;
    while i < |ordered|
      invariant 0 <= i <= |ordered| && pass.Holds(Elements(ordered[..i])) && pass.handled == {}
      invariant FirstTurnsOnly(pass.world, pass.trace, pass.waiting)
    {
      GroupMemberIsNew(ordered, i);
      pass.FirstTurn(ordered[i], Elements(ordered[..i]));
      i := i + 1;
    }
    assert ordered[..i] == ordered;
  }

  method RetryAll(pass: Pass, ghost seen: set<Item>)
    requires pass.Holds(seen) && pass.handled == {} && FirstTurnsOnly(pass.world, pass.trace, pass.waiting)
    modifies pass
    ensures pass.Holds(seen) && pass.handled == {} && AllRetried(pass.world, pass.trace)
  {
    var left := pass.waiting;
    while left != []
      invariant pass.Holds(seen) && pass.handled == {}
      invariant LeftToRetry(pass.world, pass.trace, left) && forall w | w in left :: w in pass.waiting
      decreases |left|
    {
      assert left == [left[0]] + left[1..];
      pass.RetryWaiting(left[0], left[1..], seen);
      left := left[1..];
    }
  }

  /** Those still to be tried again: they were put off, and all others need not be. */
  ghost predicate LeftToRetry(world: World, t: Trace, left: seq<Waiting>)
  {
    && DistinctWaiting(left) && (forall j | 0 <= j < |left| :: PutOff(world, t, left[j]))
    && forall x {:trigger Retried(world, t, x)} :: Retried(world, t, x) || x in Waits(left)
  }

  lemma RestDiffers(world: World, t: Trace, entry: Waiting, rest: seq<Waiting>)
    requires LeftToRetry(world, t, [entry] + rest)
    ensures PutOff(world, t, entry) && forall w | w in rest :: w != entry
    ensures entry.reason != ForeignKey && entry.reason != Race ==> Retried(world, t, entry.item)
  {
    var all := [entry] + rest;
    assert all[0] == entry && PutOff(world, t, all[0]);
    forall w | w in rest ensures w != entry {
      var k :| 0 <= k < |rest| && rest[k] == w;
      assert all[k + 1] == w;
    }
  }

  lemma OneLessToRetry(world: World, t: Trace, t': Trace, entry: Waiting, rest: seq<Waiting>)
    requires LeftToRetry(world, t, [entry] + rest) && Retried(world, t', entry.item)
    requires t' == t || exists call :: t' == Attempted(t, entry.item, call)
    ensures LeftToRetry(world, t', rest)
  {
    var all := [entry] + rest;
    forall j | 0 <= j < |rest| ensures PutOff(world, t', rest[j]) && rest[j].item != entry.item {
      assert all[j + 1] == rest[j] && all[0] == entry;
      assert PutOff(world, t, all[j + 1]);
    }
    forall i, j | 0 <= i < j < |rest| ensures rest[i].item != rest[j].item {
      assert all[i + 1] == rest[i] && all[j + 1] == rest[j];
    }
    forall x ensures Retried(world, t', x) || x in Waits(rest) {
      assert Retried(world, t, x) || x in Waits(all);
      if x in Waits(all) && x != entry.item {
        var w :| w in all && w.item == x;
        assert w in rest;
      }
    }
  }

  method SecondTurns(pass: Pass, ghost seen: set<Item>)
    requires pass.Holds(seen) && pass.handled == {} && AllRetried(pass.world, pass.trace)
    modifies pass
    ensures pass.Holds(seen) && pass.open == {} && AllRetried(pass.world, pass.trace)
  {
    var entries := pass.colliding;
    var pending := Pending(entries);
    PendingIsPending(entries);
    var i := 0;
    while i < |entries|
      invariant 0 <= i <= |entries| && pass.Holds(seen) && pass.colliding == entries && AllRetried(pass.world, pass.trace)
      invariant forall j | 0 <= j < i :: entries[j] in pass.handled
    {
      pass.SecondTurn(entries[i], pending, seen);
      i := i + 1;
    }
    assert pass.open == Elements(entries) - pass.handled;
  }

  // ─── A push ──────────────────────────────────────────────────────────────────

  datatype Batch = Batch(table: string, wires: seq<string>)

  datatype Wire = Wire(table: string, text: string)

  /** The rows of a push in the order they were sent. */
  function Sent(batches: seq<Batch>): seq<Wire>
  {
    if batches == [] then []
    else Sent(batches[..|batches| - 1]) + WiresOf(batches[|batches| - 1], |batches[|batches| - 1].wires|)
  }

  function WiresOf(batch: Batch, n: nat): seq<Wire>
    requires n <= |batch.wires|
  {
    seq(n, i requires 0 <= i < n => Wire(batch.table, batch.wires[i]))
  }

  /** The number of rows in the first batches. */
  function Count(batches: seq<Batch>): nat
  {
    if batches == [] then 0 else Count(batches[..|batches| - 1]) + |batches[|batches| - 1].wires|
  }

  /** A row's place in a push: behind the rows of the batches before its own and those before it. */
  lemma {:induction false} SentAt(batches: seq<Batch>, b: nat, k: nat)
    requires b < |batches| && k < |batches[b].wires|
    ensures |Sent(batches)| == Count(batches) && Count(batches[..b]) + k < |Sent(batches)|
    ensures Sent(batches)[Count(batches[..b]) + k] == Wire(batches[b].table, batches[b].wires[k])
    decreases |batches|
  {
    var n := |batches| - 1;
    SentLength(batches);
    SentLength(batches[..n]);
    if b < n {
      SentAt(batches[..n], b, k);
      assert batches[..n][..b] == batches[..b];
    }
  }

  lemma {:induction false} SentLength(batches: seq<Batch>)
    ensures |Sent(batches)| == Count(batches)
  {
    if batches != [] { SentLength(batches[..|batches| - 1]); }
  }

  /** The work item of the row sent in `slot`: none for a table this node does not have or a row
      it cannot read. */
  function ItemFor(tables: set<string>, build: Wire -> Option<Item>, wire: Wire, slot: nat): Option<Item>
  {
    if wire.table !in tables || build(wire).None? then None else Some(build(wire).value.(id := slot))
  }

  ghost predicate Collected(tables: set<string>, build: Wire -> Option<Item>, sent: seq<Wire>, items: seq<Item>)
  {
    && (forall i, j | 0 <= i < j < |items| :: items[i].id < items[j].id)
    && forall x :: x in items <==> x.id < |sent| && ItemFor(tables, build, sent[x.id], x.id) == Some(x)
  }

  ghost predicate LetterOf(tables: set<string>, build: Wire -> Option<Item>, sent: seq<Wire>, slots: seq<Letter>, i: nat,
                           results: map<Item, Letter>)
    requires i < |sent| && i < |slots|
  {
    if sent[i].table !in tables || build(sent[i]).None? then slots[i] == Rejected
    else
      var item := build(sent[i]).value.(id := i);
      item in results && slots[i] == results[item]
  }

  /** One letter per row, in the order the rows were sent. */
  method ApplyPush(world: World, tables: set<string>, build: Wire -> Option<Item>, batches: seq<Batch>)
    returns (slots: seq<Letter>, ghost results: map<Item, Letter>, ghost stored: set<Item>, ghost saved: set<Item>)
    ensures |slots| == |Sent(batches)| && LettersTell(results, stored, saved)
    ensures forall i {:trigger LetterOf(tables, build, Sent(batches), slots, i, results)} | 0 <= i < |slots| ::
              LetterOf(tables, build, Sent(batches), slots, i, results)
  {
    var items;
    slots, items := Collect(tables, build, batches);
    var letters, aside;
    ghost var trace;
    letters, stored, aside, trace := ProcessItems(world, items);
    results, saved := letters, aside;
    slots := FillSlots(tables, build, Sent(batches), slots, items, letters);
  }

  method Collect(tables: set<string>, build: Wire -> Option<Item>, batches: seq<Batch>) returns (slots: seq<Letter>, items: seq<Item>)
    ensures |slots| == |Sent(batches)| && Collected(tables, build, Sent(batches), items)
    ensures Distinct(items) && forall i | 0 <= i < |slots| :: slots[i] == Rejected
  {
    slots, items := [], [];
    var b := 0;
    while b < |batches|
      invariant forall i | 0 <= i < |slots| :: slots[i] == Rejected
      invariant 0 <= b <= |batches| && |slots| == |Sent(batches[..b])| && Collected(tables, build, Sent(batches[..b]), items)
    {
      var batch := batches[b];
      ghost var before := Sent(batches[..b]);
      assert batches[..b + 1][..b] == batches[..b];
      slots, items := CollectBatch(tables, build, batch, before, slots, items);
      b := b + 1;
    }
    assert batches[..b] == batches;
  }

  method CollectBatch(tables: set<string>, build: Wire -> Option<Item>, batch: Batch, ghost before: seq<Wire>,
                      slotsBefore: seq<Letter>, itemsBefore: seq<Item>)
    returns (slots: seq<Letter>, items: seq<Item>)
    requires |slotsBefore| == |before| && Collected(tables, build, before, itemsBefore)
    requires forall i | 0 <= i < |slotsBefore| :: slotsBefore[i] == Rejected
    ensures |slots| == |before| + |batch.wires| && forall i | 0 <= i < |slots| :: slots[i] == Rejected
    ensures Collected(tables, build, before + WiresOf(batch, |batch.wires|), items)
  {
    slots, items := slotsBefore, itemsBefore;
    assert before + WiresOf(batch, 0) == before;
    var k := 0;
    while k < |batch.wires|
      invariant 0 <= k <= |batch.wires| && |slots| == |before| + k && forall i | 0 <= i < |slots| :: slots[i] == Rejected
      invariant Collected(tables, build, before + WiresOf(batch, k), items)
    {
      var slot := |slots|;
      var wire := Wire(batch.table, batch.wires[k]);
      NextWire(before, batch, k);
      OneMoreRow(tables, build, before + WiresOf(batch, k), items, wire);
      slots := slots + [Rejected];
      var built := ItemFor(tables, build, wire, slot);
      if built.Some? { items := items + [built.value]; }
      k := k + 1;
    }
  }

  lemma NextWire(before: seq<Wire>, batch: Batch, k: nat)
    requires k < |batch.wires|
    ensures before + WiresOf(batch, k + 1) == (before + WiresOf(batch, k)) + [Wire(batch.table, batch.wires[k])]
  {
  }

  lemma RowsStay(tables: set<string>, build: Wire -> Option<Item>, sent: seq<Wire>, wire: Wire, x: Item)
    ensures x.id < |sent| ==> ItemFor(tables, build, (sent + [wire])[x.id], x.id) == ItemFor(tables, build, sent[x.id], x.id)
    ensures x.id == |sent| ==> (sent + [wire])[x.id] == wire
  {
  }

  lemma OneMoreRow(tables: set<string>, build: Wire -> Option<Item>, sent: seq<Wire>, items: seq<Item>, wire: Wire)
    requires Collected(tables, build, sent, items)
    ensures var built := ItemFor(tables, build, wire, |sent|);
            Collected(tables, build, sent + [wire], if built.Some? then items + [built.value] else items)
  {
    var built := ItemFor(tables, build, wire, |sent|);
    var more := if built.Some? then items + [built.value] else items;
    var longer := sent + [wire];
    forall x ensures x in more <==> x.id < |longer| && ItemFor(tables, build, longer[x.id], x.id) == Some(x) {
      RowsStay(tables, build, sent, wire, x);
      assert x in more <==> x in items || built == Some(x);
    }
    forall i | 0 <= i < |items| ensures items[i].id < |sent| {
      assert items[i] in items;
    }
  }

  /** Puts each item's letter into its slot; the rows without an item keep theirs. */
  method FillSlots(tables: set<string>, build: Wire -> Option<Item>, ghost sent: seq<Wire>, empty: seq<Letter>, items: seq<Item>,
                   results: map<Item, Letter>)
    returns (slots: seq<Letter>)
    requires |empty| == |sent| && forall i | 0 <= i < |empty| :: empty[i] == Rejected
    requires Collected(tables, build, sent, items) && results.Keys == Elements(items)
    ensures |slots| == |sent| && forall i {:trigger LetterOf(tables, build, sent, slots, i, results)} | 0 <= i < |slots| ::
              LetterOf(tables, build, sent, slots, i, results)
  {
    slots := empty;
    var i := 0;
    while i < |items|
      invariant 0 <= i <= |items| && |slots| == |sent|
      invariant forall k {:trigger Filled(slots, items[..i], results, k)} | 0 <= k < |slots| :: Filled(slots, items[..i], results, k)
    {
      assert items[i] in items;
      OneMoreSlot(slots, items, results, i);
      slots := slots[items[i].id := results[items[i]]];
      i := i + 1;
    }
    assert items[..i] == items;
    forall k | 0 <= k < |slots| ensures LetterOf(tables, build, sent, slots, k, results) {
      assert Filled(slots, items, results, k);
      var item := ItemFor(tables, build, sent[k], k);
      if item.Some? { assert item.value in items; }
    }
  }

  lemma OneMoreSlot(slots: seq<Letter>, items: seq<Item>, results: map<Item, Letter>, i: nat)
    requires i < |items| && items[i] in results && items[i].id < |slots|
    requires forall m, n | 0 <= m < n < |items| :: items[m].id < items[n].id
    requires forall k {:trigger Filled(slots, items[..i], results, k)} | 0 <= k < |slots| :: Filled(slots, items[..i], results, k)
    ensures var more := slots[items[i].id := results[items[i]]];
            forall k {:trigger Filled(more, items[..i + 1], results, k)} | 0 <= k < |more| :: Filled(more, items[..i + 1], results, k)
  {
    var more, upTo := slots[items[i].id := results[items[i]]], items[..i + 1];
    assert upTo == items[..i] + [items[i]];
    forall x | x in upTo && x.id == items[i].id ensures x == items[i] {
      var m :| 0 <= m < |upTo| && upTo[m] == x;
      assert upTo[m] == items[m];
    }
    assert upTo[i] == items[i];
    forall k | 0 <= k < |more| ensures Filled(more, upTo, results, k) {
      assert Filled(slots, items[..i], results, k);
      assert items[i] in upTo && forall x | x in items[..i] :: x in upTo;
    }
  }

  ghost predicate Filled(slots: seq<Letter>, items: seq<Item>, results: map<Item, Letter>, k: int)
    requires 0 <= k < |slots|
  {
    && (forall x {:trigger x in items} | x in items && x.id == k :: x in results && slots[k] == results[x])
    && ((forall x {:trigger x in items} | x in items :: x.id != k) ==> slots[k] == Rejected)
  }
}
