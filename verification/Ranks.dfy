/** The order in which tables are transferred, parents first (src/cluster/catalog.ts): a
    depth-first search over the foreign keys that remembers ranks, on any graph of tables. */
module Ranks {

  type Table = string
  type Parents = map<Table, seq<Table>>

  datatype ForeignKey = ForeignKey(table: Table, referenced: Table)

  function ParentsOf(parents: Parents, t: Table): seq<Table>
  {
    if t in parents then parents[t] else []
  }

  ghost predicate NoRepeats(s: seq<Table>)
  {
    forall i, j | 0 <= i < j < |s| :: s[i] != s[j]
  }

  /** A foreign key between two different replicated tables. */
  predicate Refers(tables: set<Table>, keys: seq<ForeignKey>, t: Table, p: Table)
  {
    t in tables && p in tables && p != t && ForeignKey(t, p) in keys
  }

  /** Collects the parents of every table: keys onto itself or onto a table that is not
      replicated do not count, and no parent is listed twice. */
  method CollectParents(tables: set<Table>, keys: seq<ForeignKey>) returns (parents: Parents)
    ensures forall t, p {:trigger p in ParentsOf(parents, t)} {:trigger Refers(tables, keys, t, p)} ::
              p in ParentsOf(parents, t) <==> Refers(tables, keys, t, p)
    ensures forall t, p :: p in ParentsOf(parents, t) <==> t in tables && p in tables && p != t && ForeignKey(t, p) in keys
    ensures forall t {:trigger ParentsOf(parents, t)} :: NoRepeats(ParentsOf(parents, t))
  {
    parents := map[];
    var i := 0;
    while i < |keys|
      invariant 0 <= i <= |keys|
      invariant forall t, p {:trigger p in ParentsOf(parents, t)} {:trigger Refers(tables, keys[..i], t, p)} ::
                  p in ParentsOf(parents, t) <==> Refers(tables, keys[..i], t, p)
      invariant forall t {:trigger ParentsOf(parents, t)} :: NoRepeats(ParentsOf(parents, t))
    {
      var key := keys[i];
      OneMoreKey(tables, keys, i);
      i := i + 1;
      if key.table !in tables { continue; }
      if key.referenced !in tables || key.referenced == key.table { continue; }
      ghost var before := parents;
      assert NoRepeats(ParentsOf(before, key.table));
      parents := parents[key.table := AddOnce(ParentsOf(parents, key.table), key.referenced)];
      forall t ensures NoRepeats(ParentsOf(parents, t)) {
        assert NoRepeats(ParentsOf(before, t));
      }
    }
    assert keys[..i] == keys;
  }

  function AddOnce(list: seq<Table>, p: Table): (r: seq<Table>)
    ensures NoRepeats(list) ==> NoRepeats(r)
    ensures forall x :: x in r <==> x in list || x == p
  {
    if p in list then list else list + [p]
  }

  lemma OneMoreKey(tables: set<Table>, keys: seq<ForeignKey>, i: nat)
    requires i < |keys|
    ensures forall t, p {:trigger Refers(tables, keys[..i + 1], t, p)} :: Refers(tables, keys[..i + 1], t, p) <==>
              Refers(tables, keys[..i], t, p) || (keys[i] == ForeignKey(t, p) && t in tables && p in tables && p != t)
  {
    assert keys[..i + 1] == keys[..i] + [keys[i]];
  }

  // ─── Chains of parents ───────────────────────────────────────────────────────

  predicate Hop(parents: Parents, chain: seq<Table>, i: int)
    requires 0 <= i < |chain| - 1
  {
    chain[i + 1] in ParentsOf(parents, chain[i])
  }

  /** Each table of the chain is a parent of the one before it. */
  ghost predicate IsChain(parents: Parents, chain: seq<Table>)
  {
    |chain| > 0 && forall i {:trigger Hop(parents, chain, i)} | 0 <= i < |chain| - 1 :: Hop(parents, chain, i)
  }

  ghost predicate LeadsTo(parents: Parents, from: Table, to: Table)
  {
    exists chain :: IsChain(parents, chain) && chain[0] == from && chain[|chain| - 1] == to
  }

  /** The foreign key of `t` onto `p` lies on a cycle. */
  ghost predicate OnCycle(parents: Parents, t: Table, p: Table)
  {
    p in ParentsOf(parents, t) && LeadsTo(parents, p, t)
  }

  ghost predicate Acyclic(parents: Parents)
  {
    forall t, p {:trigger OnCycle(parents, t, p)} :: !OnCycle(parents, t, p)
  }

  lemma LeadsFurther(parents: Parents, from: Table, t: Table, p: Table)
    requires LeadsTo(parents, from, t) && p in ParentsOf(parents, t)
    ensures LeadsTo(parents, from, p)
  {
    var chain :| IsChain(parents, chain) && chain[0] == from && chain[|chain| - 1] == t;
    var longer := chain + [p];
    forall i | 0 <= i < |longer| - 1 ensures Hop(parents, longer, i) {
      if i < |chain| - 1 { assert Hop(parents, chain, i); }
    }
    assert IsChain(parents, longer);
  }

  lemma LeadsToItself(parents: Parents, t: Table)
    ensures LeadsTo(parents, t, t)
  {
    assert IsChain(parents, [t]);
  }

  // ─── The search ──────────────────────────────────────────────────────────────

  function RankIn(rank: map<Table, nat>, t: Table): nat
  {
    if t in rank then rank[t] else 0
  }

  /** The rank of `t` is final: above its parent's, or the key between them lies on a cycle. */
  ghost predicate Above(parents: Parents, rank: map<Table, nat>, done: set<Table>, t: Table, p: Table)
  {
    (p in done && RankIn(rank, p) < RankIn(rank, t)) || OnCycle(parents, t, p)
  }

  /** The rank is no higher than some parent asks for. */
  ghost predicate AskedBy(parents: Parents, rank: map<Table, nat>, done: set<Table>, value: nat, t: Table, p: Table)
  {
    p in ParentsOf(parents, t) && ((p in done && value == RankIn(rank, p) + 1) || (value == 1 && OnCycle(parents, t, p)))
  }

  ghost predicate Settled(parents: Parents, rank: map<Table, nat>, done: set<Table>, t: Table)
  {
    && (forall p {:trigger Above(parents, rank, done, t, p)} | p in ParentsOf(parents, t) :: Above(parents, rank, done, t, p))
    && (ParentsOf(parents, t) == [] ==> RankIn(rank, t) == 0)
    && (ParentsOf(parents, t) != [] ==> exists p :: AskedBy(parents, rank, done, RankIn(rank, t), t, p))
  }

  /** Nothing that was final changed. */
  ghost predicate OnlyAdds(rank: map<Table, nat>, done: set<Table>, rank': map<Table, nat>, done': set<Table>)
  {
    done <= done' && forall t {:trigger RankIn(rank', t)} {:trigger RankIn(rank, t)} | t in done :: RankIn(rank', t) == RankIn(rank, t)
  }

  lemma OnlyAddsChains(r0: map<Table, nat>, d0: set<Table>, r1: map<Table, nat>, d1: set<Table>, r2: map<Table, nat>, d2: set<Table>)
    requires OnlyAdds(r0, d0, r1, d1) && OnlyAdds(r1, d1, r2, d2)
    ensures OnlyAdds(r0, d0, r2, d2)
  {
    forall t | t in d0 ensures RankIn(r2, t) == RankIn(r0, t) {
      assert RankIn(r1, t) == RankIn(r0, t);
    }
  }

  lemma SettledStays(parents: Parents, rank: map<Table, nat>, done: set<Table>, rank': map<Table, nat>, done': set<Table>, t: Table)
    requires OnlyAdds(rank, done, rank', done') && t in done && Settled(parents, rank, done, t)
    ensures Settled(parents, rank', done', t)
  {
    forall p | p in ParentsOf(parents, t) ensures Above(parents, rank', done', t, p) {
      assert Above(parents, rank, done, t, p);
    }
    if p :| AskedBy(parents, rank, done, RankIn(rank, t), t, p) {
      assert AskedBy(parents, rank', done', RankIn(rank', t), t, p);
    }
  }

  ghost predicate WithinTables(tables: set<Table>, parents: Parents)
  {
    forall t {:trigger ParentsOf(parents, t)} :: forall p | p in ParentsOf(parents, t) :: t in tables && p in tables
  }

  /** What the search has established: `done` are the tables whose rank is final. A table being
      visited a second time has no parents. */
  ghost predicate Consistent(tables: set<Table>, parents: Parents, rank: map<Table, nat>, visiting: set<Table>, done: set<Table>)
  {
    && WithinTables(tables, parents) && rank.Keys == tables && visiting <= tables && done <= tables
    && (forall t {:trigger ParentsOf(parents, t)} | t in visiting && t in done :: ParentsOf(parents, t) == [])
    && (forall t {:trigger Settled(parents, rank, done, t)} | t in done :: Settled(parents, rank, done, t))
    && (forall t {:trigger RankIn(rank, t)} | t !in done :: RankIn(rank, t) == 0)
  }

  ghost predicate Covered(parents: Parents, rank: map<Table, nat>, done: set<Table>, name: Table, i: nat, highest: nat)
    requires i < |ParentsOf(parents, name)|
  {
    var p := ParentsOf(parents, name)[i];
    (p in done && RankIn(rank, p) < highest) || OnCycle(parents, name, p)
  }

  /** `highest` so far, after the first `n` parents of a table being visited. */
  ghost predicate HighestOf(parents: Parents, rank: map<Table, nat>, done: set<Table>, name: Table, n: nat, highest: nat)
    requires n <= |ParentsOf(parents, name)|
  {
    && (forall i {:trigger Covered(parents, rank, done, name, i, highest)} | 0 <= i < n :: Covered(parents, rank, done, name, i, highest))
    && (n == 0 ==> highest == 0)
    && (n > 0 ==> exists p :: AskedBy(parents, rank, done, highest, name, p))
  }

  lemma NextParent(parents: Parents, rank: map<Table, nat>, done: set<Table>, rank': map<Table, nat>, done': set<Table>,
                   name: Table, n: nat, highest: nat)
    requires n < |ParentsOf(parents, name)| && HighestOf(parents, rank, done, name, n, highest)
    requires OnlyAdds(rank, done, rank', done')
    requires var p := ParentsOf(parents, name)[n]; p in done' || (OnCycle(parents, name, p) && RankIn(rank', p) == 0)
    ensures var up := RankIn(rank', ParentsOf(parents, name)[n]) + 1;
            HighestOf(parents, rank', done', name, n + 1, if up > highest then up else highest)
  {
    var p := ParentsOf(parents, name)[n];
    var higher := if RankIn(rank', p) + 1 > highest then RankIn(rank', p) + 1 else highest;
    forall i | 0 <= i < n + 1 ensures Covered(parents, rank', done', name, i, higher) {
      if i < n { assert Covered(parents, rank, done, name, i, highest); }
    }
    if RankIn(rank', p) + 1 > highest {
      assert AskedBy(parents, rank', done', RankIn(rank', p) + 1, name, p);
    } else {
      var q :| AskedBy(parents, rank, done, highest, name, q);
      assert AskedBy(parents, rank', done', highest, name, q);
    }
  }

  lemma Finish(tables: set<Table>, parents: Parents, rank: map<Table, nat>, visiting: set<Table>, done: set<Table>, name: Table, highest: nat)
    requires Consistent(tables, parents, rank, visiting, done) && name in visiting
    requires HighestOf(parents, rank, done, name, |ParentsOf(parents, name)|, highest)
    ensures Consistent(tables, parents, rank[name := highest], visiting - {name}, done + {name})
    ensures OnlyAdds(rank, done, rank[name := highest], done + {name})
  {
    var rank', done' := rank[name := highest], done + {name};
    assert name in done ==> Settled(parents, rank, done, name);
    assert rank'.Keys == rank.Keys + {name} == tables;
    assert OnlyAdds(rank, done, rank', done');
    forall t | t !in done' ensures RankIn(rank', t) == 0 {
      assert RankIn(rank, t) == 0;
    }
    forall t | t in done' ensures Settled(parents, rank', done', t) {
      if t in done {
        SettledStays(parents, rank, done, rank', done', t);
      } else {
        forall p | p in ParentsOf(parents, name) ensures Above(parents, rank', done', name, p) {
          var i :| 0 <= i < |ParentsOf(parents, name)| && ParentsOf(parents, name)[i] == p;
          assert Covered(parents, rank, done, name, i, highest);
        }
        if ParentsOf(parents, name) != [] {
          var q :| AskedBy(parents, rank, done, highest, name, q);
          assert AskedBy(parents, rank', done', RankIn(rank', t), t, q);
        }
      }
    }
  }

  lemma StartVisit(tables: set<Table>, parents: Parents, rank: map<Table, nat>, visiting: set<Table>, done: set<Table>, name: Table)
    requires Consistent(tables, parents, rank, visiting, done) && name in tables && RankIn(rank, name) == 0
    ensures Consistent(tables, parents, rank, visiting + {name}, done)
  {
    assert name in done ==> Settled(parents, rank, done, name);
  }

  lemma ParentIsReached(parents: Parents, visiting: set<Table>, name: Table, p: Table)
    requires p in ParentsOf(parents, name)
    requires forall v {:trigger LeadsTo(parents, v, name)} | v in visiting :: LeadsTo(parents, v, name)
    ensures forall v {:trigger LeadsTo(parents, v, p)} | v in visiting :: LeadsTo(parents, v, p)
    ensures p in visiting ==> OnCycle(parents, name, p)
  {
    forall v | v in visiting ensures LeadsTo(parents, v, p) {
      assert LeadsTo(parents, v, name);
      LeadsFurther(parents, v, name, p);
    }
    assert p in visiting ==> LeadsTo(parents, p, name);
  }

  /** A parent found visiting has rank 0 so far. */
  lemma VisitedOrDone(tables: set<Table>, parents: Parents, rank: map<Table, nat>, visiting: set<Table>, done: set<Table>, name: Table, p: Table)
    requires Consistent(tables, parents, rank, visiting, done) && p in ParentsOf(parents, name)
    requires p in done || p in visiting
    ensures p in done || (p in visiting && RankIn(rank, p) == 0)
  {
  }

  class Catalog {
    const tables: set<Table>
    const parents: Parents
    var rank: map<Table, nat>
    var visiting: set<Table>
    ghost var done: set<Table>

    ghost predicate Valid()
      reads this
    {
      Consistent(tables, parents, rank, visiting, done)
    }

    constructor (tables: set<Table>, parents: Parents)
      requires WithinTables(tables, parents)
      ensures Valid() && this.tables == tables && this.parents == parents && visiting == {}
    {
      this.tables := tables;
      this.parents := parents;
      rank := map t | t in tables :: 0;
      visiting := {};
      done := {};
    }

    /** The rank of one table, and of every table it leads to. Ends on every graph: each call
        adds a table to those being visited. */
    method RankOf(name: Table) returns (r: nat)
      requires Valid() && forall v {:trigger LeadsTo(parents, v, name)} | v in visiting :: LeadsTo(parents, v, name)
      modifies `rank, `visiting, `done
      ensures Valid() && visiting == old(visiting) && OnlyAdds(old(rank), old(done), rank, done)
      ensures r == RankIn(rank, name)
      ensures name in tables && name !in visiting ==> name in done
      decreases tables - visiting, 0
    {
      if name !in tables { return 0; }
      if rank[name] > 0 || name in visiting { return rank[name]; }
      StartVisit(tables, parents, rank, visiting, done, name);
      visiting := visiting + {name};
      LeadsToItself(parents, name);
      var highest := HighestParent(name);
      Finish(tables, parents, rank, visiting, done, name, highest);
      visiting := visiting - {name};
      rank := rank[name := highest];
      done := done + {name};
      return highest;
    }

    /** The loop over the parents of a table being visited. */
    method HighestParent(name: Table) returns (highest: nat)
      requires Valid() && name in visiting && forall v {:trigger LeadsTo(parents, v, name)} | v in visiting :: LeadsTo(parents, v, name)
      modifies `rank, `visiting, `done
      ensures Valid() && visiting == old(visiting) && OnlyAdds(old(rank), old(done), rank, done)
      ensures HighestOf(parents, rank, done, name, |ParentsOf(parents, name)|, highest)
      decreases tables - visiting, 2
    {
      highest := 0;
      var list := ParentsOf(parents, name);
      var i := 0;
      while i < |list|
        invariant 0 <= i <= |list|
        invariant Valid() && visiting == old(visiting) && OnlyAdds(old(rank), old(done), rank, done)
        invariant HighestOf(parents, rank, done, name, i, highest)
      {
        ghost var rankBefore, doneBefore := rank, done;
        highest := VisitParent(name, i, highest);
        OnlyAddsChains(old(rank), old(done), rankBefore, doneBefore, rank, done);
        i := i + 1;
      }
    }

    /** One parent: its rank, and the highest asked for so far. */
    method VisitParent(name: Table, i: nat, before: nat) returns (highest: nat)
      requires Valid() && name in visiting && forall v {:trigger LeadsTo(parents, v, name)} | v in visiting :: LeadsTo(parents, v, name)
      requires i < |ParentsOf(parents, name)| && HighestOf(parents, rank, done, name, i, before)
      modifies `rank, `visiting, `done
      ensures Valid() && visiting == old(visiting) && OnlyAdds(old(rank), old(done), rank, done)
      ensures HighestOf(parents, rank, done, name, i + 1, highest)
      decreases tables - visiting, 1
    {
      var p := ParentsOf(parents, name)[i];
      ParentIsReached(parents, visiting, name, p);
      var up := RankOf(p);
      VisitedOrDone(tables, parents, rank, visiting, done, name, p);
      NextParent(parents, old(rank), old(done), rank, done, name, i, before);
      highest := if up + 1 > before then up + 1 else before;
    }

    /** Ranks every table. */
    method RankAll(names: seq<Table>)
      requires Valid() && visiting == {} && forall t :: t in names <==> t in tables
      modifies `rank, `visiting, `done
      ensures Ranked(tables, parents, rank)
    {
      var i := 0;
      while i < |names|
        invariant 0 <= i <= |names| && Valid() && visiting == {}
        invariant forall t | t in names[..i] :: t in done
      {
        var _ := RankOf(names[i]);
        assert names[..i + 1] == names[..i] + [names[i]];
        i := i + 1;
      }
      assert names[..i] == names;
      assert done == tables;
    }
  }

  /** Every rank is final. */
  ghost predicate Ranked(tables: set<Table>, parents: Parents, rank: map<Table, nat>)
  {
    && rank.Keys == tables && WithinTables(tables, parents)
    && forall t {:trigger Settled(parents, rank, tables, t)} | t in tables :: Settled(parents, rank, tables, t)
  }

  // ─── What the ranks mean ─────────────────────────────────────────────────────

  /** A foreign key outside every cycle leads to a lower rank, whatever the rest of the graph
      looks like. */
  lemma ParentsRankLower(tables: set<Table>, parents: Parents, rank: map<Table, nat>, t: Table, p: Table)
    requires Ranked(tables, parents, rank) && p in ParentsOf(parents, t) && !OnCycle(parents, t, p)
    ensures rank[p] < rank[t]
  {
    assert Settled(parents, rank, tables, t);
    assert Above(parents, rank, tables, t, p);
  }

  /** No chain of parents is longer than the rank. */
  lemma {:induction false} ChainsAreNoLonger(tables: set<Table>, parents: Parents, rank: map<Table, nat>, chain: seq<Table>)
    requires Ranked(tables, parents, rank) && Acyclic(parents) && IsChain(parents, chain) && chain[0] in tables
    ensures |chain| - 1 <= rank[chain[0]]
    decreases |chain|
  {
    if |chain| > 1 {
      assert Hop(parents, chain, 0);
      var rest := chain[1..];
      forall i | 0 <= i < |rest| - 1 ensures Hop(parents, rest, i) {
        assert Hop(parents, chain, i + 1);
      }
      assert !OnCycle(parents, chain[0], chain[1]);
      ParentsRankLower(tables, parents, rank, chain[0], chain[1]);
      ChainsAreNoLonger(tables, parents, rank, rest);
    }
  }

  /** Some chain of parents is exactly as long as the rank. */
  lemma {:induction false} SomeChainIsAsLong(tables: set<Table>, parents: Parents, rank: map<Table, nat>, t: Table) returns (chain: seq<Table>)
    requires Ranked(tables, parents, rank) && Acyclic(parents) && t in tables
    ensures IsChain(parents, chain) && chain[0] == t && |chain| - 1 == rank[t]
    decreases rank[t]
  {
    assert Settled(parents, rank, tables, t);
    if ParentsOf(parents, t) == [] {
      chain := [t];
    } else {
      var p :| AskedBy(parents, rank, tables, RankIn(rank, t), t, p);
      assert !OnCycle(parents, t, p);
      var rest := SomeChainIsAsLong(tables, parents, rank, p);
      chain := [t] + rest;
      forall i | 0 <= i < |chain| - 1 ensures Hop(parents, chain, i) {
        if i > 0 { assert Hop(parents, rest, i - 1); }
      }
    }
  }

  /** All tables once, by rank; tables of one rank in any order. */
  ghost predicate IsOrdered(tables: set<Table>, rank: map<Table, nat>, ordered: seq<Table>)
    requires rank.Keys == tables
  {
    && (forall t :: t in ordered <==> t in tables) && NoRepeats(ordered)
    && forall i, j | 0 <= i < j < |ordered| :: rank[ordered[i]] <= rank[ordered[j]]
  }

  /** Each table comes after every table it refers to, unless that key lies on a cycle. */
  lemma ParentsComeFirst(tables: set<Table>, parents: Parents, rank: map<Table, nat>, ordered: seq<Table>, i: nat, j: nat)
    requires Ranked(tables, parents, rank) && IsOrdered(tables, rank, ordered) && i < |ordered| && j < |ordered|
    requires ordered[j] in ParentsOf(parents, ordered[i]) && !OnCycle(parents, ordered[i], ordered[j])
    ensures j < i
  {
    ParentsRankLower(tables, parents, rank, ordered[i], ordered[j]);
  }

  /** In an order with every parent first, a chain only goes back. */
  lemma {:induction false} ChainsGoBack(parents: Parents, place: map<Table, int>, chain: seq<Table>)
    requires IsChain(parents, chain) && chain[0] in place
    requires forall t, p {:trigger p in ParentsOf(parents, t)} | t in place && p in ParentsOf(parents, t) :: p in place && place[p] < place[t]
    ensures chain[|chain| - 1] in place && place[chain[|chain| - 1]] <= place[chain[0]]
    decreases |chain|
  {
    if |chain| > 1 {
      var front := chain[..|chain| - 1];
      forall i | 0 <= i < |front| - 1 ensures Hop(parents, front, i) {
        assert Hop(parents, chain, i);
      }
      ChainsGoBack(parents, place, front);
      assert Hop(parents, chain, |chain| - 2);
    }
  }

  ghost predicate Topological(parents: Parents, ordered: seq<Table>)
  {
    forall i, j | 0 <= i < |ordered| && 0 <= j < |ordered| && ordered[j] in ParentsOf(parents, ordered[i]) :: j < i
  }

  lemma AcyclicIsTopological(tables: set<Table>, parents: Parents, rank: map<Table, nat>, ordered: seq<Table>)
    requires Ranked(tables, parents, rank) && IsOrdered(tables, rank, ordered) && Acyclic(parents)
    ensures Topological(parents, ordered)
  {
    forall i, j | 0 <= i < |ordered| && 0 <= j < |ordered| && ordered[j] in ParentsOf(parents, ordered[i]) ensures j < i {
      assert !OnCycle(parents, ordered[i], ordered[j]);
      ParentsComeFirst(tables, parents, rank, ordered, i, j);
    }
  }

  /** The place of every table in an order that has every parent first. */
  lemma PlacesGoBack(tables: set<Table>, parents: Parents, ordered: seq<Table>) returns (place: map<Table, int>)
    requires WithinTables(tables, parents) && Topological(parents, ordered) && forall t :: t in ordered <==> t in tables
    ensures place.Keys == tables
    ensures forall t, p {:trigger p in ParentsOf(parents, t)} | t in place && p in ParentsOf(parents, t) :: p in place && place[p] < place[t]
  {
    place := map t | t in tables :: Place(ordered, t);
  }

  /** `ordered` lists every parent before its children exactly when no foreign keys form a cycle. */
  lemma OrderedIsTopological(tables: set<Table>, parents: Parents, rank: map<Table, nat>, ordered: seq<Table>)
    requires Ranked(tables, parents, rank) && IsOrdered(tables, rank, ordered)
    ensures Topological(parents, ordered) <==> Acyclic(parents)
  {
    if Acyclic(parents) { AcyclicIsTopological(tables, parents, rank, ordered); }
    if Topological(parents, ordered) {
      var place := PlacesGoBack(tables, parents, ordered);
      forall t, p ensures !OnCycle(parents, t, p) {
        if OnCycle(parents, t, p) { NoWayBack(tables, parents, place, t, p); }
      }
    }
  }

  lemma NoWayBack(tables: set<Table>, parents: Parents, place: map<Table, int>, t: Table, p: Table)
    requires WithinTables(tables, parents) && place.Keys == tables && p in ParentsOf(parents, t)
    requires forall t, p {:trigger p in ParentsOf(parents, t)} | t in place && p in ParentsOf(parents, t) :: p in place && place[p] < place[t]
    ensures !LeadsTo(parents, p, t)
  {
    forall chain | IsChain(parents, chain) && chain[0] == p ensures chain[|chain| - 1] != t {
      ChainsGoBack(parents, place, chain);
    }
  }

  ghost function Place(ordered: seq<Table>, t: Table): (i: int)
    requires t in ordered
    ensures 0 <= i < |ordered| && ordered[i] == t
  {
    var i :| 0 <= i < |ordered| && ordered[i] == t;
    i
  }
}
