/** What the nodes hold once no link has anything left to deliver. */
module Settling {
  import opened Versions
  import opened Replication
  import opened Convergence

  /** A sequence of nodes, each linked to the next. */
  predicate IsPath(s: Cluster, path: seq<NodeId>)
  {
    |path| > 0 && forall i :: 0 <= i < |path| - 1 ==> (path[i], path[i + 1]) in s.cursors
  }

  ghost predicate Joined(s: Cluster, a: NodeId, b: NodeId)
  {
    exists path :: IsPath(s, path) && path[0] == a && path[|path| - 1] == b
  }

  ghost predicate Connected(s: Cluster)
  {
    forall a, b | a in s.nodes && b in s.nodes :: Joined(s, a, b)
  }

  /** No link has anything left to deliver. */
  ghost predicate Settled(s: Cluster)
  {
    forall l, row | l in s.cursors && l.0 in s.nodes && row in s.nodes[l.0] :: s.nodes[l.0][row].pos <= s.cursors[l]
  }

  /** Node `n` holds the row under version number `version` or a greater one. */
  predicate HoldsVersion(s: Cluster, n: NodeId, row: RowKey, version: int)
  {
    n in s.nodes && row in s.nodes[n] && version <= s.nodes[n][row].tag.version
  }

  /** `top` is the greatest version any write gave the row. */
  ghost predicate IsTop(s: Cluster, row: RowKey, top: RowVersion)
  {
    (row, top) in s.history && forall k {:trigger k in s.history} | k in s.history && k.0 == row :: AtMost(k.1, top)
  }

  /** Under the row's greatest version number there is a deletion and, losing against it, a write
      that is none. */
  ghost predicate DeletionTies(s: Cluster, row: RowKey, version: int)
  {
    exists live, gone {:trigger (row, live) in s.history, (row, gone) in s.history} ::
      && (row, live) in s.history && s.history[(row, live)].Stored? && live.version == version
      && (row, gone) in s.history && s.history[(row, gone)].Deleted? && gone.version == version
      && !AtMost(gone, live)
  }

  lemma {:induction false} VersionTravels(s: Cluster, path: seq<NodeId>, row: RowKey, top: RowVersion)
    requires Inv(s) && Settled(s) && IsPath(s, path) && IsTop(s, row, top) && !DeletionTies(s, row, top.version)
    requires HoldsVersion(s, path[0], row, top.version)
    ensures HoldsVersion(s, path[|path| - 1], row, top.version)
    decreases |path|
  {
    if |path| > 1 {
      assert (path[0], path[1]) in s.cursors;
      SettledLinkDelivers(s, path[0], path[1], row, top);
      assert IsPath(s, path[1..]) by {
        forall i | 0 <= i < |path[1..]| - 1 ensures (path[1..][i], path[1..][i + 1]) in s.cursors {
          assert (path[i + 1], path[i + 2]) in s.cursors;
        }
      }
      VersionTravels(s, path[1..], row, top);
    }
  }

  /** What a settled link has passed: the peer reached it, or the sender was done with an entry
      under its number, which the peer reached or a deletion above it replaced. */
  lemma SettledLinkPassed(s: Cluster, n: NodeId, p: NodeId, row: RowKey) returns (e: Entry)
    requires Inv(s) && Settled(s) && (n, p) in s.cursors && n in s.nodes && row in s.nodes[n]
    ensures || Reached(s, p, row, s.nodes[n][row].tag)
            || (e in s.settled && e.from == n && e.to == p && e.row == row && e.tag.version == s.nodes[n][row].tag.version
                && e in s.entries && EntryFine(s, e) && (Reached(s, p, row, e.tag) || (!e.deleted && DeletedAbove(s, n, row, e.tag))))
  {
    var tag := s.nodes[n][row].tag;
    e := Entry(n, p, row, tag, false);
    assert CursorFine(s, (n, p), row) && LinkFine(s, (n, p));
    if !Reached(s, p, row, tag) {
      e :| e in s.settled && e.from == n && e.to == p && e.row == row && e.tag.version == tag.version;
      assert SettledFine(s, e) && EntryFine(s, e);
    }
  }

  lemma NoDeletionAbove(s: Cluster, n: NodeId, row: RowKey, tag: RowVersion, top: RowVersion)
    requires IsTop(s, row, top)
    requires tag == top || ((row, tag) in s.history && s.history[(row, tag)].Stored? && tag.version == top.version
                            && !DeletionTies(s, row, top.version))
    ensures !DeletedAbove(s, n, row, tag)
  {
    forall l | (row, l) in s.history && s.history[(row, l)].Deleted? ensures AtMost(l, tag) {
      assert AtMost(l, top);
      CompareVersionsIsTotalOrder(l, tag, top);
    }
  }

  lemma SettledLinkDelivers(s: Cluster, n: NodeId, p: NodeId, row: RowKey, top: RowVersion)
    requires Inv(s) && Settled(s) && (n, p) in s.cursors && IsTop(s, row, top) && !DeletionTies(s, row, top.version)
    requires HoldsVersion(s, n, row, top.version)
    ensures HoldsVersion(s, p, row, top.version)
  {
    var e := SettledLinkPassed(s, n, p, row);
    var tag := s.nodes[n][row].tag;
    assert RecordFine(s, n, row);
    assert AtMost(tag, top) && tag.version == top.version;
    if e in s.entries && e.row == row && e.tag.version == tag.version && !e.deleted && EntryFine(s, e) {
      NoDeletionAbove(s, n, row, e.tag, top);
    }
  }

  /** A node linked with the one that made the greatest write gets it, whatever ties with it. */
  lemma OriginDelivers(s: Cluster, a: NodeId, row: RowKey, top: RowVersion)
    requires Inv(s) && Settled(s) && IsTop(s, row, top) && (top.origin, a) in s.cursors
    ensures Reached(s, a, row, top)
  {
    assert WriteFine(s, (row, top)) && RecordFine(s, top.origin, row);
    var tag := s.nodes[top.origin][row].tag;
    CompareVersionsIsTotalOrder(tag, top, top);
    var e := SettledLinkPassed(s, top.origin, a, row);
    NoDeletionAbove(s, top.origin, row, top, top);
    assert e in s.entries && EntryFine(s, e) && e.row == row ==> AtMost(e.tag, top);
    CompareVersionsIsTotalOrder(e.tag, top, top);
    assert OwnFine(s, e, top);
  }

  /** Nothing can hide the greatest write from node `a`: no other write of the row has the same
      version number, or `a` made it, or `a` is linked with the node that made it. */
  ghost predicate Unhidden(s: Cluster, a: NodeId, row: RowKey, top: RowVersion)
  {
    || a == top.origin
    || (top.origin, a) in s.cursors
    || forall k {:trigger k in s.history} | k in s.history && k.0 == row && k.1.version == top.version :: k.1 == top
  }

  /** Once nothing is left to deliver in a connected cluster, every node holds the row under the
      greatest version number any write gave it, unless under that number a deletion ties with a
      write that is none. */
  lemma SettledClusterHoldsGreatestVersion(s: Cluster, steps: seq<Step>, a: NodeId, row: RowKey, top: RowVersion)
    requires Init(s) && Runnable(s, steps)
    requires var t := Run(s, steps); Settled(t) && Connected(t) && a in t.nodes
    requires IsTop(Run(s, steps), row, top) && !DeletionTies(Run(s, steps), row, top.version)
    ensures HoldsVersion(Run(s, steps), a, row, top.version)
    ensures (row, Run(s, steps).nodes[a][row].tag) in Run(s, steps).history
  {
    var t := Run(s, steps);
    InitEstablishesInv(s);
    RunKeepsInv(s, steps);
    assert WriteFine(t, (row, top)) && Joined(t, top.origin, a);
    var path :| IsPath(t, path) && path[0] == top.origin && path[|path| - 1] == a;
    VersionTravels(t, path, row, top);
    assert RecordFine(t, a, row);
  }

  /** A node from which the greatest write cannot be hidden ends with that write: its version
      and its content. */
  lemma SettledNodeHoldsGreatestWrite(s: Cluster, steps: seq<Step>, a: NodeId, row: RowKey, top: RowVersion)
    requires Init(s) && Runnable(s, steps)
    requires var t := Run(s, steps); Settled(t) && Connected(t) && a in t.nodes
    requires IsTop(Run(s, steps), row, top) && Unhidden(Run(s, steps), a, row, top)
    ensures var t := Run(s, steps);
            row in t.nodes[a] && t.nodes[a][row].tag == top && t.nodes[a][row].content == t.history[(row, top)]
  {
    var t := Run(s, steps);
    InitEstablishesInv(s);
    RunKeepsInv(s, steps);
    assert WriteFine(t, (row, top)) && RecordFine(t, a, row);
    if (top.origin, a) in t.cursors {
      OriginDelivers(t, a, row, top);
    } else if a != top.origin {
      UntiedHasNoDeletionTie(t, row, top);
      SettledClusterHoldsGreatestVersion(s, steps, a, row, top);
    }
    var r := t.nodes[a][row];
    CompareVersionsIsTotalOrder(r.tag, top, top);
    assert r.tag == top;
    var v :| (row, v) in t.history && AtMost(r.tag, v) && t.history[(row, v)] == r.content;
    CompareVersionsIsTotalOrder(v, top, top);
  }

  lemma UntiedHasNoDeletionTie(t: Cluster, row: RowKey, top: RowVersion)
    requires IsTop(t, row, top)
    requires forall k {:trigger k in t.history} | k in t.history && k.0 == row && k.1.version == top.version :: k.1 == top
    ensures !DeletionTies(t, row, top.version)
  {
    CompareVersionsIsTotalOrder(top, top, top);
  }

  /** In a settled cluster in which every two nodes are linked, all nodes hold the same rows,
      versions and content, ties included. */
  lemma SettledMeshAgrees(s: Cluster, steps: seq<Step>, a: NodeId, b: NodeId, row: RowKey, top: RowVersion)
    requires Init(s) && Runnable(s, steps)
    requires var t := Run(s, steps); Settled(t) && a in t.nodes && b in t.nodes && IsTop(t, row, top)
    requires forall x, y | x in Run(s, steps).nodes && y in Run(s, steps).nodes && x != y :: (x, y) in Run(s, steps).cursors
    ensures var t := Run(s, steps);
            row in t.nodes[a] && row in t.nodes[b]
            && t.nodes[a][row].tag == t.nodes[b][row].tag == top
            && t.nodes[a][row].content == t.nodes[b][row].content
  {
    var t := Run(s, steps);
    forall x, y | x in t.nodes && y in t.nodes ensures Joined(t, x, y) {
      var path := if x == y then [x] else [x, y];
      assert IsPath(t, path) && path[0] == x && path[|path| - 1] == y;
    }
    InitEstablishesInv(s);
    RunKeepsInv(s, steps);
    assert WriteFine(t, (row, top));
    SettledNodeHoldsGreatestWrite(s, steps, a, row, top);
    SettledNodeHoldsGreatestWrite(s, steps, b, row, top);
  }
}
