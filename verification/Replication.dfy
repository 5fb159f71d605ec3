/** Replication of rows between equal nodes as a transition system.

    Every node holds a registry of row records ordered by a feed position. Local writes,
    reads of the feed, loading of row content, deliveries (late, repeated, out of order, or
    never), rows found gone when they are to be sent, losses of a sender's memory and moves of
    a link's cursor interleave freely. Rows here have no unique or foreign-key conflicts.

    The sender remembers what it delivered by version number alone, without the origin. Two
    writes that tie on the number can therefore keep a node from the greater one, unless it
    is linked with the node that made it; the agreement theorem in Settling carries exactly that
    condition, and TieOnALine.Line.TieDisagrees shows it is needed. */
module Replication {
  import opened Versions

  type NodeId = string

  datatype RowKey = RowKey(table: string, hash: string)

  datatype Content = Deleted | Stored(data: string)

  /** A version record together with the row it describes. `tag` is the row's version, `via`
      the peer that handed it over, `pos` its place in the feed of the node. */
  datatype Record = Record(tag: RowVersion, content: Content, via: Option<NodeId>, pos: nat)

  type Registry = map<RowKey, Record>

  /** A feed entry in the sender's hands: the version and whether it is a deletion were read, the
      content was not yet. */
  datatype Entry = Entry(from: NodeId, to: NodeId, row: RowKey, tag: RowVersion, deleted: bool)

  datatype Message = Message(entry: Entry, content: Content)

  /** `entries` and `messages` only grow: anything in flight may arrive at any later time, any
      number of times, or never. `memory` is what the senders remember of the entries they are
      done with, those skipped as the peer's own among them; `settled` is every entry they were
      ever done with and `history` every local write ever made. */
  datatype Cluster = Cluster(
    nodes: map<NodeId, Registry>,
    next: map<NodeId, nat>,
    cursors: map<(NodeId, NodeId), nat>,
    entries: set<Entry>,
    messages: set<Message>,
    memory: set<Entry>,
    settled: set<Entry>,
    history: map<(RowKey, RowVersion), Content>)

  datatype Step =
    | Write(node: NodeId, row: RowKey, content: Content, now: int)
    | ReadFeed(node: NodeId, peer: NodeId, row: RowKey)
    | Skip(node: NodeId, peer: NodeId, row: RowKey)
    | LoadRow(entry: Entry)
    | Deliver(message: Message)
    | Decline(entry: Entry)
    | Vanish(entry: Entry)
    | Forget(entry: Entry)
    | Restart(node: NodeId)
    | Advance(node: NodeId, peer: NodeId, position: nat)

  /** The version a capture trigger records for a local write. */
  function WriteTag(registry: Registry, row: RowKey, node: NodeId, now: int): RowVersion
  {
    RowVersion(NextVersion(if row in registry then Some(registry[row].tag.version) else None, now), node)
  }

  function TagAt(registry: Registry, row: RowKey): Option<RowVersion>
  {
    if row in registry then Some(registry[row].tag) else None
  }

  /** One of the entries is of this link and row and carries this version number. */
  predicate Sent(entries: set<Entry>, node: NodeId, peer: NodeId, row: RowKey, version: int)
  {
    exists e {:trigger e in entries} :: e in entries && e.from == node && e.to == peer && e.row == row && e.tag.version == version
  }

  /** The version is the peer's own, or it handed it over. */
  predicate IsTheirs(s: Cluster, node: NodeId, peer: NodeId, row: RowKey)
    requires node in s.nodes && row in s.nodes[node]
  {
    s.nodes[node][row].tag.origin == peer || s.nodes[node][row].via == Some(peer)
  }

  /** Why a record needs no delivery: it is the peer's own, or the sender remembers being done with
      this version number. */
  predicate Accounted(s: Cluster, node: NodeId, peer: NodeId, row: RowKey)
    requires node in s.nodes && row in s.nodes[node]
  {
    IsTheirs(s, node, peer, row) || Sent(s.memory, node, peer, row, s.nodes[node][row].tag.version)
  }

  predicate Enabled(s: Cluster, step: Step)
  {
    match step
    case Write(n, _, _, _) => n in s.nodes && n in s.next
    case ReadFeed(n, p, row) =>
      n in s.nodes && (n, p) in s.cursors && row in s.nodes[n] && !Accounted(s, n, p, row)
    case Skip(n, p, row) => n in s.nodes && (n, p) in s.cursors && row in s.nodes[n] && IsTheirs(s, n, p, row)
    // A deletion is sent as it was read; of a row the content is read now, if it still exists.
    case LoadRow(e) =>
      e in s.entries && e.from in s.nodes && e.row in s.nodes[e.from] && (e.deleted || s.nodes[e.from][e.row].content.Stored?)
    case Deliver(m) => m in s.messages && m.entry.to in s.nodes && m.entry.to in s.next
    case Decline(e) =>
      e in s.entries && e.to in s.nodes && !IsNewer(e.tag, TagAt(s.nodes[e.to], e.row))
    // The row is gone when it is to be sent: its deletion is already recorded.
    case Vanish(e) =>
      e in s.entries && !e.deleted && e.from in s.nodes && e.row in s.nodes[e.from] && s.nodes[e.from][e.row].content.Deleted?
    // An answer that was lost, or what a moved cursor lets go.
    case Forget(e) => true
    case Restart(n) => true
    case Advance(n, p, position) =>
      && n in s.nodes && n in s.next && (n, p) in s.cursors
      && s.cursors[(n, p)] <= position < s.next[n]
      && forall row | row in s.nodes[n] && s.cursors[(n, p)] < s.nodes[n][row].pos <= position ::
           Accounted(s, n, p, row)
  }

  /** Stores a record under the next feed position. */
  function Put(s: Cluster, n: NodeId, row: RowKey, tag: RowVersion, content: Content, via: Option<NodeId>): Cluster
    requires n in s.nodes && n in s.next
  {
    s.(nodes := s.nodes[n := s.nodes[n][row := Record(tag, content, via, s.next[n])]],
       next := s.next[n := s.next[n] + 1])
  }

  function EntryFor(s: Cluster, n: NodeId, p: NodeId, row: RowKey): Entry
    requires n in s.nodes && row in s.nodes[n]
  {
    Entry(n, p, row, s.nodes[n][row].tag, s.nodes[n][row].content.Deleted?)
  }

  /** The sender is done with an entry and remembers its version number. */
  function Done(s: Cluster, e: Entry): Cluster
  {
    s.(memory := s.memory + {e}, settled := s.settled + {e})
  }

  function Apply(s: Cluster, step: Step): Cluster
    requires Enabled(s, step)
  {
    match step
    case Write(n, row, content, now) =>
      var tag := WriteTag(s.nodes[n], row, n, now);
      Put(s, n, row, tag, content, None).(history := s.history[(row, tag) := content])
    case ReadFeed(n, p, row) =>
      s.(entries := s.entries + {EntryFor(s, n, p, row)})
    // The number of a row that is not offered is remembered as well.
    case Skip(n, p, row) => Done(s.(entries := s.entries + {EntryFor(s, n, p, row)}), EntryFor(s, n, p, row))
    case LoadRow(e) =>
      // The content may be newer than the label.
      s.(messages := s.messages + {Message(e, if e.deleted then Deleted else s.nodes[e.from][e.row].content)})
    case Deliver(m) =>
      var e := m.entry;
      if IsNewer(e.tag, TagAt(s.nodes[e.to], e.row))
      then Put(Done(s, e), e.to, e.row, e.tag, m.content, Some(e.from))
      else Done(s, e)
    case Decline(e) => Done(s, e)
    case Vanish(e) => Done(s, e)
    case Forget(e) => s.(memory := s.memory - {e})
    case Restart(n) => s.(memory := set e | e in s.memory && e.from != n)
    case Advance(n, p, position) => s.(cursors := s.cursors[(n, p) := position])
  }

  predicate Runnable(s: Cluster, steps: seq<Step>)
    decreases |steps|
  {
    steps == [] || (Enabled(s, steps[0]) && Runnable(Apply(s, steps[0]), steps[1..]))
  }

  function Run(s: Cluster, steps: seq<Step>): Cluster
    requires Runnable(s, steps)
    decreases |steps|
  {
    if steps == [] then s else Run(Apply(s, steps[0]), steps[1..])
  }

  /** Empty registries, and every link read from the beginning. */
  predicate Init(s: Cluster)
  {
    && s.next.Keys == s.nodes.Keys
    && (forall n | n in s.nodes :: s.nodes[n] == map[] && s.next[n] > 0)
    && (forall l | l in s.cursors :: l.0 in s.nodes && l.1 in s.nodes && s.cursors[l] == 0)
    && s.entries == {} && s.messages == {} && s.memory == {} && s.settled == {} && s.history == map[]
  }

  /** Node `n` holds the row at `tag` or above. */
  predicate Reached(s: Cluster, n: NodeId, row: RowKey, tag: RowVersion)
  {
    n in s.nodes && row in s.nodes[n] && AtMost(tag, s.nodes[n][row].tag)
  }

  /** The content stored under `tag` is that of some write tagged at least `tag`. */
  ghost predicate Explained(s: Cluster, row: RowKey, tag: RowVersion, content: Content)
  {
    exists l :: (row, l) in s.history && AtMost(tag, l) && s.history[(row, l)] == content
  }

  ghost predicate RecordFine(s: Cluster, n: NodeId, row: RowKey)
  {
    n in s.nodes && row in s.nodes[n] ==>
      var r := s.nodes[n][row];
      && n in s.next && r.pos < s.next[n]
      && (row, r.tag) in s.history
      && Explained(s, row, r.tag, r.content) && (r.content.Deleted? <==> s.history[(row, r.tag)].Deleted?)
      && (r.via.Some? ==> Reached(s, r.via.value, row, r.tag))
  }

  predicate EntryFine(s: Cluster, e: Entry)
  {
    e in s.entries ==>
      (e.row, e.tag) in s.history && Reached(s, e.from, e.row, e.tag) && (e.deleted <==> s.history[(e.row, e.tag)].Deleted?)
  }

  ghost predicate MessageFine(s: Cluster, m: Message)
  {
    m in s.messages ==>
      m.entry in s.entries && Explained(s, m.entry.row, m.entry.tag, m.content) && (m.content.Deleted? <==> m.entry.deleted)
  }

  /** The node has reached a deletion of the row above `tag`. */
  ghost predicate DeletedAbove(s: Cluster, n: NodeId, row: RowKey, tag: RowVersion)
  {
    exists l {:trigger (row, l) in s.history} ::
      (row, l) in s.history && s.history[(row, l)].Deleted? && Reached(s, n, row, l) && !AtMost(l, tag)
  }

  /** The peer has what the sender is done with, or the row was gone: then the sender holds a
      deletion above it. */
  ghost predicate SettledFine(s: Cluster, e: Entry)
  {
    e in s.settled ==>
      e in s.entries && (Reached(s, e.to, e.row, e.tag) || (!e.deleted && DeletedAbove(s, e.from, e.row, e.tag)))
  }

  /** A node that wrote a version never offers another one with the same number that loses
      against its own. */
  predicate OwnFine(s: Cluster, e: Entry, tag: RowVersion)
  {
    e in s.entries && (e.row, tag) in s.history && tag.origin == e.from && tag.version == e.tag.version ==>
      AtMost(tag, e.tag)
  }

  /** A node that wrote a version holds it or a later one. */
  predicate WriteFine(s: Cluster, k: (RowKey, RowVersion))
  {
    k in s.history ==> Reached(s, k.1.origin, k.0, k.1)
  }

  /** Everything a cursor has passed is held by the peer at that version or above, or the sender
      was done with an entry under that version number. */
  predicate CursorFine(s: Cluster, l: (NodeId, NodeId), row: RowKey)
  {
    l in s.cursors && l.0 in s.nodes && row in s.nodes[l.0] && s.nodes[l.0][row].pos <= s.cursors[l] ==>
      || Reached(s, l.1, row, s.nodes[l.0][row].tag)
      || Sent(s.settled, l.0, l.1, row, s.nodes[l.0][row].tag.version)
  }

  predicate LinkFine(s: Cluster, l: (NodeId, NodeId))
  {
    l in s.cursors ==> l.0 in s.nodes && l.1 in s.nodes && l.0 in s.next && s.cursors[l] < s.next[l.0]
  }

  ghost predicate Inv(s: Cluster)
  {
    && s.next.Keys == s.nodes.Keys && s.memory <= s.settled
    && (forall l {:trigger LinkFine(s, l)} :: LinkFine(s, l))
    && (forall n, row {:trigger RecordFine(s, n, row)} :: RecordFine(s, n, row))
    && (forall e {:trigger EntryFine(s, e)} :: EntryFine(s, e))
    && (forall m {:trigger MessageFine(s, m)} :: MessageFine(s, m))
    && (forall e {:trigger SettledFine(s, e)} :: SettledFine(s, e))
    && (forall e, tag {:trigger OwnFine(s, e, tag)} :: OwnFine(s, e, tag))
    && (forall k {:trigger WriteFine(s, k)} :: WriteFine(s, k))
    && (forall l, row {:trigger CursorFine(s, l, row)} :: CursorFine(s, l, row))
  }

  /** Every tag a node holds stays or grows. */
  ghost predicate Grows(s: Cluster, t: Cluster)
  {
    forall n, row, tag {:trigger Reached(t, n, row, tag)} :: Reached(s, n, row, tag) ==> Reached(t, n, row, tag)
  }
}
