/** Runs of the replication on three nodes in a line a - b - c, from empty nodes, that end settled
    with two nodes disagreeing for good: two writes tie on the version number. */
module TieOnALine {
  import opened Versions
  import opened Replication
  import opened Settling

  lemma {:induction false} RunExtends(s: Cluster, steps: seq<Step>, step: Step)
    requires Runnable(s, steps) && Enabled(Run(s, steps), step)
    ensures Runnable(s, steps + [step]) && Run(s, steps + [step]) == Apply(Run(s, steps), step)
    decreases |steps|
  {
    if steps != [] {
      assert (steps + [step])[1..] == steps[1..] + [step];
      RunExtends(Apply(s, steps[0]), steps[1..], step);
    } else {
      assert [] + [step] == [step] && [step][1..] == [];
    }
  }

  /** Some run leads from `s` to `t`. */
  ghost predicate Leads(s: Cluster, t: Cluster)
  {
    exists steps :: Runnable(s, steps) && Run(s, steps) == t
  }

  lemma LeadsNowhere(s: Cluster)
    ensures Leads(s, s)
  {
    assert Runnable(s, []) && Run(s, []) == s;
  }

  lemma LeadsOn(s: Cluster, t: Cluster, step: Step, u: Cluster)
    requires Leads(s, t) && Enabled(t, step) && Apply(t, step) == u
    ensures Leads(s, u)
  {
    var steps :| Runnable(s, steps) && Run(s, steps) == t;
    RunExtends(s, steps, step);
  }

  /** What a write under this version number leaves behind. */
  function Wrote(s: Cluster, n: NodeId, row: RowKey, version: int, content: Content): Cluster
    requires n in s.nodes && n in s.next
  {
    var tag := RowVersion(version, n);
    Put(s, n, row, tag, content, None).(history := s.history[(row, tag) := content])
  }

  /** What reading, loading and delivering an entry leaves behind. */
  function Took(s: Cluster, e: Entry, content: Content): Cluster
    requires e.to in s.nodes && e.to in s.next
  {
    Put(Done(s.(entries := s.entries + {e}, messages := s.messages + {Message(e, content)}), e),
        e.to, e.row, e.tag, content, Some(e.from))
  }

  lemma Writes(s: Cluster, t: Cluster, n: NodeId, row: RowKey, version: int, content: Content)
    requires Leads(s, t) && n in t.nodes && n in t.next && (row in t.nodes[n] ==> t.nodes[n][row].tag.version < version)
    ensures Leads(s, Wrote(t, n, row, version, content))
  {
    LeadsOn(s, t, Write(n, row, content, version), Wrote(t, n, row, version, content));
  }

  lemma Takes(s: Cluster, t: Cluster, e: Entry, content: Content)
    requires Leads(s, t) && e.from != e.to && (e.deleted <==> content.Deleted?)
    requires e.from in t.nodes && e.to in t.nodes && e.to in t.next && (e.from, e.to) in t.cursors
    requires e.row in t.nodes[e.from] && t.nodes[e.from][e.row].tag == e.tag && t.nodes[e.from][e.row].content == content
    requires !Accounted(t, e.from, e.to, e.row) && IsNewer(e.tag, TagAt(t.nodes[e.to], e.row))
    ensures Leads(s, Took(t, e, content))
  {
    var u := t.(entries := t.entries + {e});
    var w := u.(messages := u.messages + {Message(e, content)});
    LeadsOn(s, t, ReadFeed(e.from, e.to, e.row), u);
    LeadsOn(s, u, LoadRow(e), w);
    LeadsOn(s, w, Deliver(Message(e, content)), Took(t, e, content));
  }

  /** A cursor passes the one row of a node whose number the peer wrote, handed over, or the sender
      remembers. */
  lemma Advances(s: Cluster, t: Cluster, n: NodeId, p: NodeId, row: RowKey, position: nat, e: Entry)
    requires Leads(s, t) && n in t.nodes && n in t.next && (n, p) in t.cursors
    requires t.nodes[n].Keys == {row} && t.cursors[(n, p)] <= position < t.next[n]
    requires t.nodes[n][row].tag.origin == p || t.nodes[n][row].via == Some(p)
             || (e in t.memory && e.from == n && e.to == p && e.row == row && e.tag.version == t.nodes[n][row].tag.version)
    ensures Leads(s, t.(cursors := t.cursors[(n, p) := position]))
  {
    LeadsOn(s, t, Advance(n, p, position), t.(cursors := t.cursors[(n, p) := position]));
  }

  function Start(a: NodeId, b: NodeId, c: NodeId): Cluster
  {
    Cluster(map[a := map[], b := map[], c := map[]], map[a := 1, b := 1, c := 1],
            map[(a, b) := 0, (b, a) := 0, (b, c) := 0, (c, b) := 0], {}, {}, {}, {}, map[])
  }

  lemma StartIsInit(a: NodeId, b: NodeId, c: NodeId)
    ensures Init(Start(a, b, c))
  {
  }

  lemma LineIsConnected(t: Cluster, a: NodeId, b: NodeId, c: NodeId)
    requires t.nodes.Keys == {a, b, c} && {(a, b), (b, a), (b, c), (c, b)} <= t.cursors.Keys
    ensures Connected(t)
  {
    forall x, y | x in t.nodes && y in t.nodes ensures Joined(t, x, y) {
      var path := if x == y then [x] else if x == b || y == b then [x, y] else [x, b, y];
      assert IsPath(t, path) && path[0] == x && path[|path| - 1] == y;
    }
  }

  /** All cursors of the line moved to these positions. */
  ghost predicate MovedTo(d: Cluster, t: Cluster, a: NodeId, b: NodeId, c: NodeId, ab: nat, b2: nat, cb: nat)
  {
    && t == d.(cursors := t.cursors) && t.cursors.Keys == d.cursors.Keys == {(a, b), (b, a), (b, c), (c, b)}
    && t.cursors[(a, b)] == ab && t.cursors[(c, b)] == cb && t.cursors[(b, a)] == t.cursors[(b, c)] == b2
  }

  /** Two versions of one row that tie on the number, written at b and at c. */
  datatype Line = Line(a: NodeId, b: NodeId, c: NodeId, row: RowKey, version: int)
  {
    ghost predicate Valid() { a != b && b != c && a != c && StringLess(b, c) }
    function Mine(): RowVersion { RowVersion(version, b) }
    function Greater(): RowVersion { RowVersion(version, c) }
    function ToA(): Entry { Entry(b, a, row, Mine(), false) }
    function ToB(): Entry { Entry(c, b, row, Greater(), false) }

    /** `b` and `c` wrote the row under the same version number. */
    function Written(): Cluster
      requires Valid()
    {
      Wrote(Wrote(Start(a, b, c), b, row, version, Stored("x")), c, row, version, Stored("y"))
    }

    /** The write of `b` reached `a`, the write of `c`, which wins, reached `b`. */
    ghost predicate IsDelivered(d: Cluster)
    {
      && d.nodes.Keys == d.next.Keys == {a, b, c}
      && d.nodes[a].Keys == d.nodes[b].Keys == d.nodes[c].Keys == {row}
      && d.nodes[a][row] == Record(Mine(), Stored("x"), Some(b), 1)
      && d.nodes[b][row] == Record(Greater(), Stored("y"), Some(c), 2)
      && d.nodes[c][row] == Record(Greater(), Stored("y"), None, 1)
      && d.next[a] == 2 && d.next[b] == 3 && d.next[c] == 2
      && ToA() in d.memory && ToB() in d.memory
      && d.cursors == Start(a, b, c).cursors
    }

    ghost predicate IsWritten(w: Cluster)
      requires Valid()
    {
      && w.nodes.Keys == w.next.Keys == {a, b, c}
      && w.nodes[a] == map[] && w.nodes[b] == map[row := Record(Mine(), Stored("x"), None, 1)]
      && w.nodes[c] == map[row := Record(Greater(), Stored("y"), None, 1)]
      && w.next[a] == 1 && w.next[b] == 2 && w.next[c] == 2
      && w.memory == {} && w.cursors == Start(a, b, c).cursors
    }

    lemma LeadsToWritten(s: Cluster)
      requires Valid() && s == Start(a, b, c)
      ensures Leads(s, Written()) && IsWritten(Written())
    {
      LeadsNowhere(s);
      Writes(s, s, b, row, version, Stored("x"));
      Writes(s, Wrote(s, b, row, version, Stored("x")), c, row, version, Stored("y"));
    }

    /** `a` took the write of `b`. */
    ghost predicate IsHalf(h: Cluster)
      requires Valid()
    {
      && h.nodes.Keys == h.next.Keys == {a, b, c}
      && h.nodes[a] == map[row := Record(Mine(), Stored("x"), Some(b), 1)]
      && h.nodes[b] == map[row := Record(Mine(), Stored("x"), None, 1)]
      && h.nodes[c] == map[row := Record(Greater(), Stored("y"), None, 1)]
      && h.next[a] == 2 && h.next[b] == 2 && h.next[c] == 2
      && h.memory == {ToA()} && h.cursors == Start(a, b, c).cursors
    }

    lemma LeadsToHalf(s: Cluster, w: Cluster)
      requires Valid() && IsWritten(w) && Leads(s, w)
      ensures var h := Took(w, ToA(), Stored("x")); Leads(s, h) && IsHalf(h)
    {
      Takes(s, w, ToA(), Stored("x"));
    }

    lemma DeliveredAt(h: Cluster)
      requires Valid() && IsHalf(h)
      ensures IsDelivered(Took(h, ToB(), Stored("y")))
    {
    }

    lemma LeadsToDelivered(s: Cluster, h: Cluster)
      requires Valid() && IsHalf(h) && Leads(s, h)
      ensures var d := Took(h, ToB(), Stored("y")); Leads(s, d) && IsDelivered(d)
    {
      DeliveredAt(h);
      StringLessTotal(b, c);
      Takes(s, h, ToB(), Stored("y"));
    }

    lemma LeadsToEnd(s: Cluster, d: Cluster) returns (t: Cluster)
      requires Valid() && IsDelivered(d) && Leads(s, d)
      ensures Leads(s, t) && MovedTo(d, t, a, b, c, 1, 2, 1)
    {
      Advances(s, d, b, a, row, 2, ToA());
      t := d.(cursors := d.cursors[(b, a) := 2]);
      Advances(s, t, b, c, row, 2, ToA());
      t := t.(cursors := t.cursors[(b, c) := 2]);
      Advances(s, t, c, b, row, 1, ToB());
      t := t.(cursors := t.cursors[(c, b) := 1]);
      Advances(s, t, a, b, row, 1, ToA());
      t := t.(cursors := t.cursors[(a, b) := 1]);
    }

    lemma EndIsSettled(d: Cluster, t: Cluster)
      requires Valid() && IsDelivered(d) && MovedTo(d, t, a, b, c, 1, 2, 1)
      ensures Settled(t) && Connected(t)
    {
      LineIsConnected(t, a, b, c);
    }

    /** The link from `b` remembers the number it delivered and never passes the greater write
        on: `a` keeps the other one although nothing is left to deliver. */
    lemma TieDisagrees() returns (s: Cluster, t: Cluster)
      requires Valid()
      ensures Init(s) && Leads(s, t) && Settled(t) && Connected(t)
      ensures a in t.nodes && c in t.nodes && row in t.nodes[a] && row in t.nodes[c]
      ensures t.nodes[a][row].tag != t.nodes[c][row].tag && t.nodes[a][row].content != t.nodes[c][row].content
    {
      var d;
      s, d := FromStart();
      t := LeadsToEnd(s, d);
      EndIsSettled(d, t);
    }

    lemma FromStart() returns (s: Cluster, d: Cluster)
      requires Valid()
      ensures Init(s) && Leads(s, d) && IsDelivered(d)
    {
      s := Start(a, b, c);
      StartIsInit(a, b, c);
      LeadsToWritten(s);
      LeadsToHalf(s, Written());
      var h := Took(Written(), ToA(), Stored("x"));
      LeadsToDelivered(s, h);
      d := Took(h, ToB(), Stored("y"));
    }
  }

  /** A row all three nodes hold, written again at b while c deletes it under the same number. */
  datatype GoneRow = GoneRow(a: NodeId, b: NodeId, c: NodeId, row: RowKey, first: int, second: int)
  {
    ghost predicate Valid() { a != b && b != c && a != c && StringLess(b, c) && first < second }
    function Old(): RowVersion { RowVersion(first, b) }
    function Mine(): RowVersion { RowVersion(second, b) }
    function Deletion(): RowVersion { RowVersion(second, c) }
    function OldToA(): Entry { Entry(b, a, row, Old(), false) }
    function OldToC(): Entry { Entry(b, c, row, Old(), false) }
    function MineToA(): Entry { Entry(b, a, row, Mine(), false) }
    function DeletionToB(): Entry { Entry(c, b, row, Deletion(), true) }

    /** All three hold the first write. */
    ghost predicate IsShared(d: Cluster)
    {
      && d.nodes.Keys == d.next.Keys == {a, b, c}
      && d.nodes[a].Keys == d.nodes[b].Keys == d.nodes[c].Keys == {row}
      && d.nodes[a][row] == Record(Old(), Stored("x"), Some(b), 1)
      && d.nodes[b][row] == Record(Old(), Stored("x"), None, 1)
      && d.nodes[c][row] == Record(Old(), Stored("x"), Some(b), 1)
      && d.next[a] == 2 && d.next[b] == 2 && d.next[c] == 2
      && d.memory == {OldToA(), OldToC()}
      && d.cursors == Start(a, b, c).cursors
    }

    /** b wrote; a, or nobody yet, has it. */
    ghost predicate IsFirst(w: Cluster, atA: bool)
    {
      && w.nodes.Keys == w.next.Keys == {a, b, c}
      && w.nodes[b] == map[row := Record(Old(), Stored("x"), None, 1)] && w.nodes[c] == map[]
      && w.nodes[a] == (if atA then map[row := Record(Old(), Stored("x"), Some(b), 1)] else map[])
      && w.next[a] == (if atA then 2 else 1) && w.next[b] == 2 && w.next[c] == 1
      && w.memory == (if atA then {OldToA()} else {})
      && w.cursors == Start(a, b, c).cursors
    }

    lemma FirstWrite(s: Cluster)
      requires Valid() && s == Start(a, b, c)
      ensures var w := Wrote(s, b, row, first, Stored("x")); Leads(s, w) && IsFirst(w, false)
    {
      LeadsNowhere(s);
      Writes(s, s, b, row, first, Stored("x"));
    }

    lemma FirstTakenByA(s: Cluster, w: Cluster)
      requires Valid() && Leads(s, w) && IsFirst(w, false)
      ensures var t := Took(w, OldToA(), Stored("x")); Leads(s, t) && IsFirst(t, true)
    {
      Takes(s, w, OldToA(), Stored("x"));
    }

    lemma FirstTakenByC(s: Cluster, w: Cluster)
      requires Valid() && Leads(s, w) && IsFirst(w, true)
      ensures var t := Took(w, OldToC(), Stored("x")); Leads(s, t) && IsShared(t)
    {
      Takes(s, w, OldToC(), Stored("x"));
    }

    lemma LeadsToShared() returns (s: Cluster, d: Cluster)
      requires Valid()
      ensures Init(s) && Leads(s, d) && IsShared(d)
    {
      s := Start(a, b, c);
      StartIsInit(a, b, c);
      FirstWrite(s);
      var w := Wrote(s, b, row, first, Stored("x"));
      FirstTakenByA(s, w);
      FirstTakenByC(s, Took(w, OldToA(), Stored("x")));
      d := Took(Took(w, OldToA(), Stored("x")), OldToC(), Stored("x"));
    }

    ghost predicate IsVanished(v: Cluster)
    {
      && v.nodes.Keys == v.next.Keys == {a, b, c}
      && v.nodes[a].Keys == v.nodes[b].Keys == v.nodes[c].Keys == {row}
      && v.nodes[a][row] == Record(Old(), Stored("x"), Some(b), 1)
      && v.nodes[b][row] == Record(Deletion(), Deleted, Some(c), 3)
      && v.nodes[c][row] == Record(Deletion(), Deleted, None, 2)
      && v.next[a] == 2 && v.next[b] == 4 && v.next[c] == 3
      && MineToA() in v.memory && DeletionToB() in v.memory
      && v.cursors == Start(a, b, c).cursors && (row, Mine()) in v.history
    }

    /** c deleted the row under the same number. */
    ghost predicate IsRewritten(r: Cluster)
    {
      && r.nodes.Keys == r.next.Keys == {a, b, c}
      && r.nodes[a].Keys == r.nodes[b].Keys == r.nodes[c].Keys == {row}
      && r.nodes[a][row] == Record(Old(), Stored("x"), Some(b), 1)
      && r.nodes[b][row] == Record(Mine(), Stored("z"), None, 2)
      && r.nodes[c][row] == Record(Deletion(), Deleted, None, 2)
      && r.next[a] == 2 && r.next[b] == 3 && r.next[c] == 3
      && r.memory == {OldToA(), OldToC()} && MineToA() in r.entries
      && r.cursors == Start(a, b, c).cursors && (row, Mine()) in r.history
    }

    /** b wrote again, and its feed read for a saw it. */
    ghost predicate IsSeen(w: Cluster)
    {
      && w.nodes.Keys == w.next.Keys == {a, b, c}
      && w.nodes[a].Keys == w.nodes[b].Keys == w.nodes[c].Keys == {row}
      && w.nodes[a][row] == Record(Old(), Stored("x"), Some(b), 1)
      && w.nodes[b][row] == Record(Mine(), Stored("z"), None, 2)
      && w.nodes[c][row] == Record(Old(), Stored("x"), Some(b), 1)
      && w.next[a] == 2 && w.next[b] == 3 && w.next[c] == 2
      && w.memory == {OldToA(), OldToC()} && MineToA() in w.entries
      && w.cursors == Start(a, b, c).cursors && (row, Mine()) in w.history
    }

    function Seen(d: Cluster): Cluster
      requires IsShared(d)
    {
      var w := Wrote(d, b, row, second, Stored("z"));
      w.(entries := w.entries + {MineToA()})
    }

    lemma SeenAt(d: Cluster)
      requires Valid() && IsShared(d)
      ensures IsSeen(Seen(d))
    {
    }

    lemma LeadsToSeen(s: Cluster, d: Cluster)
      requires Valid() && IsShared(d) && Leads(s, d)
      ensures Leads(s, Seen(d)) && IsSeen(Seen(d))
    {
      SeenAt(d);
      Writes(s, d, b, row, second, Stored("z"));
      LeadsOn(s, Wrote(d, b, row, second, Stored("z")), ReadFeed(b, a, row), Seen(d));
    }

    lemma LeadsToRewritten(s: Cluster, w: Cluster)
      requires Valid() && IsSeen(w) && Leads(s, w)
      ensures var r := Wrote(w, c, row, second, Deleted); Leads(s, r) && IsRewritten(r)
    {
      Writes(s, w, c, row, second, Deleted);
    }

    /** The deletion reached b, where the row to be sent is gone. */
    lemma LeadsToVanished(s: Cluster, r: Cluster) returns (v: Cluster)
      requires Valid() && IsRewritten(r) && Leads(s, r)
      ensures Leads(s, v) && IsVanished(v)
    {
      StringLessTotal(b, c);
      assert IsNewer(DeletionToB().tag, TagAt(r.nodes[b], row));
      assert !Accounted(r, c, b, row);
      Takes(s, r, DeletionToB(), Deleted);
      var t := Took(r, DeletionToB(), Deleted);
      v := Done(t, MineToA());
      LeadsOn(s, t, Vanish(MineToA()), v);
    }

    lemma LeadsToEnd(s: Cluster, v: Cluster) returns (t: Cluster)
      requires Valid() && IsVanished(v) && Leads(s, v)
      ensures Leads(s, t) && MovedTo(v, t, a, b, c, 1, 3, 2)
    {
      Advances(s, v, b, a, row, 3, MineToA());
      t := v.(cursors := v.cursors[(b, a) := 3]);
      Advances(s, t, b, c, row, 3, MineToA());
      t := t.(cursors := t.cursors[(b, c) := 3]);
      Advances(s, t, c, b, row, 2, DeletionToB());
      t := t.(cursors := t.cursors[(c, b) := 2]);
      Advances(s, t, a, b, row, 1, MineToA());
      t := t.(cursors := t.cursors[(a, b) := 1]);
    }

    lemma EndIsSettled(v: Cluster, t: Cluster)
      requires Valid() && IsVanished(v) && MovedTo(v, t, a, b, c, 1, 3, 2)
      ensures Settled(t) && Connected(t)
    {
      LineIsConnected(t, a, b, c);
    }

    /** b is done with an entry whose row is gone and takes the deletion under the same number for
        sent: a keeps the row under its first version although nothing is left to deliver. */
    lemma GoneRowStays() returns (s: Cluster, t: Cluster)
      requires Valid()
      ensures Init(s) && Leads(s, t) && Settled(t) && Connected(t)
      ensures (row, Mine()) in t.history && a in t.nodes && row in t.nodes[a] && c in t.nodes && row in t.nodes[c]
      ensures t.nodes[a][row].tag.version < Mine().version && t.nodes[a][row].content.Stored? && t.nodes[c][row].content.Deleted?
    {
      var d;
      s, d := LeadsToShared();
      LeadsToSeen(s, d);
      LeadsToRewritten(s, Seen(d));
      var v := LeadsToVanished(s, Wrote(Seen(d), c, row, second, Deleted));
      t := LeadsToEnd(s, v);
      EndIsSettled(v, t);
    }
  }

  /** Two versions of one row that tie on the number, written at the two ends of the line. */
  datatype BothEnds = BothEnds(a: NodeId, b: NodeId, c: NodeId, row: RowKey, version: int)
  {
    ghost predicate Valid() { a != b && b != c && a != c && StringLess(a, c) }
    function Lesser(): RowVersion { RowVersion(version, a) }
    function Greater(): RowVersion { RowVersion(version, c) }
    function FromA(): Entry { Entry(a, b, row, Lesser(), false) }
    function FromC(): Entry { Entry(c, b, row, Greater(), false) }
    /** What b remembers of the row that a gave it. */
    function Skipped(): Entry { Entry(b, a, row, Lesser(), false) }

    /** `a` and `c` wrote the row. */
    ghost predicate IsWritten(w: Cluster)
    {
      && w.nodes.Keys == w.next.Keys == {a, b, c}
      && w.nodes[a] == map[row := Record(Lesser(), Stored("x"), None, 1)] && w.nodes[b] == map[]
      && w.nodes[c] == map[row := Record(Greater(), Stored("y"), None, 1)]
      && w.next[a] == 2 && w.next[b] == 1 && w.next[c] == 2
      && w.memory == {} && w.cursors == Start(a, b, c).cursors
    }

    function Written(): Cluster
      requires Valid()
    {
      Wrote(Wrote(Start(a, b, c), a, row, version, Stored("x")), c, row, version, Stored("y"))
    }

    lemma LeadsToWritten(s: Cluster)
      requires Valid() && s == Start(a, b, c)
      ensures Leads(s, Written()) && IsWritten(Written())
    {
      LeadsNowhere(s);
      Writes(s, s, a, row, version, Stored("x"));
      Writes(s, Wrote(s, a, row, version, Stored("x")), c, row, version, Stored("y"));
    }

    /** `b` took the write of `a`; and skipped it when it read its feed for `a`. */
    ghost predicate IsHalf(h: Cluster, skipped: bool)
    {
      && h.nodes.Keys == h.next.Keys == {a, b, c}
      && h.nodes[a] == map[row := Record(Lesser(), Stored("x"), None, 1)]
      && h.nodes[b] == map[row := Record(Lesser(), Stored("x"), Some(a), 1)]
      && h.nodes[c] == map[row := Record(Greater(), Stored("y"), None, 1)]
      && h.next[a] == 2 && h.next[b] == 2 && h.next[c] == 2
      && h.memory == (if skipped then {FromA(), Skipped()} else {FromA()}) && h.cursors == Start(a, b, c).cursors
    }

    lemma LeadsToHalf(s: Cluster, w: Cluster)
      requires Valid() && IsWritten(w) && Leads(s, w)
      ensures var h := Took(w, FromA(), Stored("x")); Leads(s, h) && IsHalf(h, false)
    {
      Takes(s, w, FromA(), Stored("x"));
    }

    lemma LeadsToSkipped(s: Cluster, h: Cluster)
      requires Valid() && IsHalf(h, false) && Leads(s, h)
      ensures var k := Done(h.(entries := h.entries + {Skipped()}), Skipped()); Leads(s, k) && IsHalf(k, true)
    {
      LeadsOn(s, h, Skip(b, a, row), Done(h.(entries := h.entries + {Skipped()}), Skipped()));
    }

    /** The write of `c`, which wins, reached `b`. */
    ghost predicate IsDelivered(d: Cluster)
    {
      && d.nodes.Keys == d.next.Keys == {a, b, c}
      && d.nodes[a].Keys == d.nodes[b].Keys == d.nodes[c].Keys == {row}
      && d.nodes[a][row] == Record(Lesser(), Stored("x"), None, 1)
      && d.nodes[b][row] == Record(Greater(), Stored("y"), Some(c), 2)
      && d.nodes[c][row] == Record(Greater(), Stored("y"), None, 1)
      && d.next[a] == 2 && d.next[b] == 3 && d.next[c] == 2
      && FromA() in d.memory && FromC() in d.memory && Skipped() in d.memory
      && d.cursors == Start(a, b, c).cursors
    }

    lemma DeliveredAt(h: Cluster)
      requires Valid() && IsHalf(h, true)
      ensures IsDelivered(Took(h, FromC(), Stored("y")))
    {
    }

    lemma LeadsToDelivered(s: Cluster, h: Cluster)
      requires Valid() && IsHalf(h, true) && Leads(s, h)
      ensures var d := Took(h, FromC(), Stored("y")); Leads(s, d) && IsDelivered(d)
    {
      DeliveredAt(h);
      StringLessTotal(a, c);
      Takes(s, h, FromC(), Stored("y"));
    }

    lemma LeadsToEnd(s: Cluster, d: Cluster) returns (t: Cluster)
      requires Valid() && IsDelivered(d) && Leads(s, d)
      ensures Leads(s, t) && MovedTo(d, t, a, b, c, 1, 2, 1)
    {
      Advances(s, d, b, a, row, 2, Skipped());
      t := d.(cursors := d.cursors[(b, a) := 2]);
      Advances(s, t, b, c, row, 2, Skipped());
      t := t.(cursors := t.cursors[(b, c) := 2]);
      Advances(s, t, c, b, row, 1, FromC());
      t := t.(cursors := t.cursors[(c, b) := 1]);
      Advances(s, t, a, b, row, 1, FromA());
      t := t.(cursors := t.cursors[(a, b) := 1]);
    }

    lemma FromStart() returns (s: Cluster, d: Cluster)
      requires Valid()
      ensures Init(s) && Leads(s, d) && IsDelivered(d)
    {
      s := Start(a, b, c);
      StartIsInit(a, b, c);
      LeadsToWritten(s);
      LeadsToHalf(s, Written());
      var h := Took(Written(), FromA(), Stored("x"));
      LeadsToSkipped(s, h);
      var k := Done(h.(entries := h.entries + {Skipped()}), Skipped());
      LeadsToDelivered(s, k);
      d := Took(k, FromC(), Stored("y"));
    }

    /** `b` never offered anything to `a`, and yet its memory of the row it skipped hides the greater
        write from `a` for good. */
    lemma SkippedTieDisagrees() returns (s: Cluster, t: Cluster)
      requires Valid()
      ensures Init(s) && Leads(s, t) && Settled(t) && Connected(t)
      ensures a in t.nodes && c in t.nodes && row in t.nodes[a] && row in t.nodes[c]
      ensures t.nodes[a][row].tag != t.nodes[c][row].tag && t.nodes[a][row].content != t.nodes[c][row].content
    {
      var d;
      s, d := FromStart();
      t := LeadsToEnd(s, d);
      LineIsConnected(t, a, b, c);
    }
  }
}
