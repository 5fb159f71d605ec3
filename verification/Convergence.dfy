/** What every step of the replication keeps, in every run. */
module Convergence {
  import opened Versions
  import opened Replication

  lemma PutGrows(s: Cluster, n: NodeId, row: RowKey, tag: RowVersion, content: Content, via: Option<NodeId>)
    requires n in s.nodes && n in s.next
    requires IsNewer(tag, TagAt(s.nodes[n], row))
    ensures Grows(s, Put(s, n, row, tag, content, via))
    ensures Reached(Put(s, n, row, tag, content, via), n, row, tag)
  {
    OrderFacts();
  }

  /** No step ever lowers the tag a node holds for a row. */
  lemma TagsOnlyGrow(s: Cluster, step: Step)
    requires Enabled(s, step)
    ensures Grows(s, Apply(s, step))
  {
    match step
    case Write(n, row, content, now) =>
      PutGrows(s, n, row, WriteTag(s.nodes[n], row, n, now), content, None);
      assert Grows(s, Put(s, n, row, WriteTag(s.nodes[n], row, n, now), content, None));
    case Deliver(m) =>
      if IsNewer(m.entry.tag, TagAt(s.nodes[m.entry.to], m.entry.row)) {
        PutGrows(Done(s, m.entry), m.entry.to, m.entry.row, m.entry.tag, m.content, Some(m.entry.from));
      }
    case _ =>
  }

  /** A local write's tag is one that no write of the row has carried before. */
  lemma WriteTagIsFresh(s: Cluster, n: NodeId, row: RowKey, now: int)
    requires Inv(s) && n in s.nodes
    ensures (row, WriteTag(s.nodes[n], row, n, now)) !in s.history
    ensures IsNewer(WriteTag(s.nodes[n], row, n, now), TagAt(s.nodes[n], row))
  {
    assert WriteFine(s, (row, WriteTag(s.nodes[n], row, n, now)));
  }

  lemma ExplainedGrows(s: Cluster, t: Cluster, row: RowKey, tag: RowVersion, content: Content)
    requires Explained(s, row, tag, content)
    requires forall k | k in s.history :: k in t.history && t.history[k] == s.history[k]
    ensures Explained(t, row, tag, content)
  {
    var l :| (row, l) in s.history && AtMost(tag, l) && s.history[(row, l)] == content;
    assert (row, l) in t.history;
  }

  lemma PutReaches(s: Cluster, t: Cluster, n: NodeId, row: RowKey, tag: RowVersion, content: Content, via: Option<NodeId>)
    requires n in s.nodes && n in s.next && IsNewer(tag, TagAt(s.nodes[n], row))
    requires t == Put(s, n, row, tag, content, via).(history := t.history)
    ensures forall x, r, v {:trigger Reached(t, x, r, v)} :: Reached(s, x, r, v) ==> Reached(t, x, r, v)
    ensures Reached(t, n, row, tag)
  {
    PutGrows(s, n, row, tag, content, via);
    var put := Put(s, n, row, tag, content, via);
    forall x, r, v | Reached(s, x, r, v) ensures Reached(t, x, r, v) {
      assert Reached(put, x, r, v);
    }
    assert Reached(put, n, row, tag);
  }

  /** Storing a record keeps the invariant, whether it was written here or delivered. */
  lemma PutKeepsInv(s: Cluster, t: Cluster, n: NodeId, row: RowKey, tag: RowVersion, content: Content, via: Option<NodeId>)
    requires Inv(s) && n in s.nodes
    requires IsNewer(tag, TagAt(s.nodes[n], row))
    requires t == Put(s, n, row, tag, content, via).(history := t.history)
    requires || t.history == s.history
             || ((row, tag) !in s.history && tag.origin == n && t.history == s.history[(row, tag) := content]
                 && (row in s.nodes[n] ==> s.nodes[n][row].tag.version < tag.version))
    requires (row, tag) in t.history && Explained(t, row, tag, content) && (content.Deleted? <==> t.history[(row, tag)].Deleted?)
    requires via.Some? ==> Reached(s, via.value, row, tag)
    ensures Inv(t)
  {
    PutReaches(s, t, n, row, tag, content, via);
    forall x, r ensures RecordFine(t, x, r) {
      assert RecordFine(s, x, r);
      if (x != n || r != row) && x in s.nodes && r in s.nodes[x] {
        ExplainedGrows(s, t, r, s.nodes[x][r].tag, s.nodes[x][r].content);
      }
    }
    forall m ensures MessageFine(t, m) {
      assert MessageFine(s, m);
      if m in s.messages {
        ExplainedGrows(s, t, m.entry.row, m.entry.tag, m.content);
      }
    }
    forall e ensures EntryFine(t, e) && SettledFine(t, e) {
      assert EntryFine(s, e) && SettledFine(s, e);
      if e in s.settled { DeletedAboveGrows(s, t, e.from, e.row, e.tag); }
    }
    forall k ensures WriteFine(t, k) {
      assert WriteFine(s, k);
    }
    forall e, v ensures OwnFine(t, e, v) {
      assert OwnFine(s, e, v) && EntryFine(s, e);
    }
    forall l ensures LinkFine(t, l) {
      assert LinkFine(s, l);
    }
    forall l, r ensures CursorFine(t, l, r) {
      assert CursorFine(s, l, r) && LinkFine(s, l);
    }
  }

  lemma DeletedAboveGrows(s: Cluster, t: Cluster, n: NodeId, row: RowKey, tag: RowVersion)
    requires forall k | k in s.history :: k in t.history && t.history[k] == s.history[k]
    requires forall v {:trigger Reached(t, n, row, v)} :: Reached(s, n, row, v) ==> Reached(t, n, row, v)
    ensures DeletedAbove(s, n, row, tag) ==> DeletedAbove(t, n, row, tag)
  {
    if l :| (row, l) in s.history && s.history[(row, l)].Deleted? && Reached(s, n, row, l) && !AtMost(l, tag) {
      assert (row, l) in t.history && Reached(t, n, row, l);
    }
  }

  lemma SentGrows(a: set<Entry>, b: set<Entry>, n: NodeId, p: NodeId, row: RowKey)
    requires a <= b
    ensures forall v {:trigger Sent(b, n, p, row, v)} {:trigger Sent(a, n, p, row, v)} :: Sent(a, n, p, row, v) ==> Sent(b, n, p, row, v)
  {
    forall v | Sent(a, n, p, row, v) ensures Sent(b, n, p, row, v) {
      var e :| e in a && e.from == n && e.to == p && e.row == row && e.tag.version == v;
      assert e in b;
    }
  }

  lemma StepKeepsInv(s: Cluster, step: Step)
    requires Inv(s) && Enabled(s, step)
    ensures Inv(Apply(s, step))
  {
    match step
    case Write(n, row, content, now) => WriteKeepsInv(s, n, row, content, now);
    case ReadFeed(n, p, row) =>
      assert RecordFine(s, n, row);
      OrderFacts();
      QuietStepKeepsInv(s, Apply(s, step));
    case Skip(n, p, row) => SkipKeepsInv(s, n, p, row);
    case LoadRow(e) => LoadKeepsInv(s, e);
    case Deliver(m) => DeliverKeepsInv(s, m);
    case Decline(e) =>
      OrderFacts();
      assert Reached(s, e.to, e.row, e.tag);
      QuietStepKeepsInv(s, Apply(s, step));
    case Vanish(e) => VanishKeepsInv(s, e);
    case Forget(e) => QuietStepKeepsInv(s, Apply(s, step));
    case Restart(n) => QuietStepKeepsInv(s, Apply(s, step));
    case Advance(n, p, position) => AdvanceKeepsInv(s, n, p, position);
  }

  /** The peer holds what is skipped as its own, so remembering it as sent is true. */
  lemma SkipKeepsInv(s: Cluster, n: NodeId, p: NodeId, row: RowKey)
    requires Inv(s) && Enabled(s, Skip(n, p, row))
    ensures Reached(s, p, row, s.nodes[n][row].tag)
    ensures Inv(Apply(s, Skip(n, p, row)))
  {
    var tag := s.nodes[n][row].tag;
    assert RecordFine(s, n, row) && WriteFine(s, (row, tag));
    OrderFacts();
    QuietStepKeepsInv(s, Apply(s, Skip(n, p, row)));
  }

  lemma WriteKeepsInv(s: Cluster, n: NodeId, row: RowKey, content: Content, now: int)
    requires Inv(s) && Enabled(s, Write(n, row, content, now))
    ensures Inv(Apply(s, Write(n, row, content, now)))
  {
    var t := Apply(s, Write(n, row, content, now));
    var tag := WriteTag(s.nodes[n], row, n, now);
    WriteTagIsFresh(s, n, row, now);
    OrderFacts();
    assert (row, tag) in t.history && AtMost(tag, tag) && t.history[(row, tag)] == content;
    PutKeepsInv(s, t, n, row, tag, content, None);
  }

  lemma LoadKeepsInv(s: Cluster, e: Entry)
    requires Inv(s) && Enabled(s, LoadRow(e))
    ensures Inv(Apply(s, LoadRow(e)))
  {
    var r := s.nodes[e.from][e.row];
    assert EntryFine(s, e) && RecordFine(s, e.from, e.row);
    if e.deleted {
      OrderFacts();
      assert Explained(s, e.row, e.tag, Deleted);
    } else {
      var v :| (e.row, v) in s.history && AtMost(r.tag, v) && s.history[(e.row, v)] == r.content;
      CompareVersionsIsTotalOrder(e.tag, r.tag, v);
      assert Explained(s, e.row, e.tag, r.content);
    }
    QuietStepKeepsInv(s, Apply(s, LoadRow(e)));
  }

  /** A row gone when it is to be sent was deleted under a version above the entry's. */
  lemma VanishKeepsInv(s: Cluster, e: Entry)
    requires Inv(s) && Enabled(s, Vanish(e))
    ensures DeletedAbove(s, e.from, e.row, e.tag)
    ensures Inv(Apply(s, Vanish(e)))
  {
    var r := s.nodes[e.from][e.row];
    assert EntryFine(s, e) && RecordFine(s, e.from, e.row);
    OrderFacts();
    assert (e.row, r.tag) in s.history && Reached(s, e.from, e.row, r.tag);
    QuietStepKeepsInv(s, Apply(s, Vanish(e)));
  }

  lemma DeliverKeepsInv(s: Cluster, m: Message)
    requires Inv(s) && Enabled(s, Deliver(m))
    ensures Inv(Apply(s, Deliver(m)))
  {
    var e := m.entry;
    var t := Apply(s, Deliver(m));
    assert MessageFine(s, m) && EntryFine(s, e);
    OrderFacts();
    if IsNewer(e.tag, TagAt(s.nodes[e.to], e.row)) {
      var put := Put(s, e.to, e.row, e.tag, m.content, Some(e.from));
      PutKeepsInv(s, put, e.to, e.row, e.tag, m.content, Some(e.from));
      assert Reached(put, e.to, e.row, e.tag);
      QuietStepKeepsInv(put, t);
    } else {
      assert Reached(s, e.to, e.row, e.tag);
      QuietStepKeepsInv(s, t);
    }
  }

  /** Moving a cursor past records that are skipped because of their origin or the peer they
      came from is sound: the peer holds them. */
  lemma AdvanceKeepsInv(s: Cluster, n: NodeId, p: NodeId, position: nat)
    requires Inv(s) && Enabled(s, Advance(n, p, position))
    ensures Inv(Apply(s, Advance(n, p, position)))
  {
    var t := Apply(s, Advance(n, p, position));
    assert forall x, r, v {:trigger Reached(t, x, r, v)} :: Reached(s, x, r, v) <==> Reached(t, x, r, v);
    forall l, r ensures CursorFine(t, l, r) {
      assert CursorFine(s, l, r) && LinkFine(s, l);
      if l == (n, p) && r in s.nodes[n] && s.cursors[l] < s.nodes[n][r].pos <= position {
        var record := s.nodes[n][r];
        assert Accounted(s, n, p, r);
        assert RecordFine(s, n, r) && WriteFine(s, (r, record.tag));
        assert Reached(s, p, r, record.tag) || Sent(s.memory, n, p, r, record.tag.version);
      }
    }
    assert LinkFine(s, (n, p));
    QuietStepKeepsInv(s, t);
  }

  /** Steps that store nothing: they add to what is in flight or done, forget, or move a cursor. */
  lemma QuietStepKeepsInv(s: Cluster, t: Cluster)
    requires Inv(s)
    requires t == s.(entries := t.entries, messages := t.messages, memory := t.memory, settled := t.settled, cursors := t.cursors)
    requires forall l {:trigger LinkFine(t, l)} | l in t.cursors && (l !in s.cursors || t.cursors[l] != s.cursors[l]) ::
               LinkFine(t, l) && forall r :: CursorFine(t, l, r)
    requires s.entries <= t.entries && s.settled <= t.settled && t.memory <= t.settled
    requires forall e | e in t.entries && e !in s.entries ::
               && e.from in s.nodes && e.row in s.nodes[e.from] && e == EntryFor(s, e.from, e.to, e.row)
               && (e.row, e.tag) in s.history && Reached(s, e.from, e.row, e.tag) && (e.deleted <==> s.history[(e.row, e.tag)].Deleted?)
    requires forall m | m in t.messages && m !in s.messages ::
               m.entry in s.entries && Explained(s, m.entry.row, m.entry.tag, m.content) && (m.content.Deleted? <==> m.entry.deleted)
    requires forall e | e in t.settled && e !in s.settled ::
               e in t.entries && (Reached(s, e.to, e.row, e.tag) || (!e.deleted && DeletedAbove(s, e.from, e.row, e.tag)))
    ensures Inv(t)
  {
    assert forall x, r, v {:trigger Reached(t, x, r, v)} :: Reached(s, x, r, v) <==> Reached(t, x, r, v);
    forall x, r ensures RecordFine(t, x, r) {
      assert RecordFine(s, x, r);
      if x in s.nodes && r in s.nodes[x] {
        ExplainedGrows(s, t, r, s.nodes[x][r].tag, s.nodes[x][r].content);
      }
    }
    forall m ensures MessageFine(t, m) {
      assert MessageFine(s, m);
      if m in t.messages {
        ExplainedGrows(s, t, m.entry.row, m.entry.tag, m.content);
      }
    }
    forall e ensures EntryFine(t, e) && SettledFine(t, e) {
      assert EntryFine(s, e) && SettledFine(s, e);
      DeletedAboveGrows(s, t, e.from, e.row, e.tag);
    }
    forall k ensures WriteFine(t, k) {
      assert WriteFine(s, k);
    }
    forall e, v ensures OwnFine(t, e, v) {
      assert OwnFine(s, e, v) && WriteFine(s, (e.row, v));
    }
    forall l ensures LinkFine(t, l) {
      assert LinkFine(s, l);
    }
    forall l, r ensures CursorFine(t, l, r) {
      assert CursorFine(s, l, r);
      SentGrows(s.settled, t.settled, l.0, l.1, r);
      if l in t.cursors && (l !in s.cursors || t.cursors[l] != s.cursors[l]) {
        assert LinkFine(t, l) && CursorFine(t, l, r);
      }
    }
  }

  /** In every run the invariant holds, whatever is delayed, repeated, reordered or lost. */
  lemma {:induction false} RunKeepsInv(s: Cluster, steps: seq<Step>)
    requires Inv(s) && Runnable(s, steps)
    ensures Inv(Run(s, steps))
    decreases |steps|
  {
    if steps != [] {
      StepKeepsInv(s, steps[0]);
      RunKeepsInv(Apply(s, steps[0]), steps[1..]);
    }
  }

  lemma InitEstablishesInv(s: Cluster)
    requires Init(s)
    ensures Inv(s)
  {
  }
}
