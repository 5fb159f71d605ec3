/** Delivering a set of entries to one peer (src/cluster/replicator.ts): rows are offered where
    needed, loaded, and pushed in chunks; every entry ends up settled or unsettled.

    The peer's answers and the present content of the rows are parameters. A call that throws
    ends the delivery and is not part of this model. */
module Delivery {
  import opened Chunks

  /** What loading and encoding a row gives; `length` is that of its text. */
  datatype Content = Missing | Unencodable | Encoded(length: nat)

  /** The peer: whether it wants an offered entry, and its letter for a pushed one. */
  datatype Peer = Peer(wants: Entry -> bool, letters: Letters)

  const OFFER_CHUNK := 2000
  const ROW_OVERHEAD := 200
  const MESSAGE_OVERHEAD := 65536

  // ─── What becomes of one entry ───────────────────────────────────────────────

  predicate IsSent(e: Entry, peer: Peer)
  {
    !e.offerFirst || peer.wants(e)
  }

  datatype Preparation = Send(size: nat) | AlreadyGone | CannotSend

  function Prepare(e: Entry, content: Entry -> Content, maxMessage: int): Preparation
  {
    if e.deleted then Send(ROW_OVERHEAD)
    else
      match content(e)
      case Missing => AlreadyGone
      case Unencodable => CannotSend
      case Encoded(length) =>
        if length + ROW_OVERHEAD > maxMessage - MESSAGE_OVERHEAD then CannotSend else Send(length + ROW_OVERHEAD)
  }

  /** An entry that was to be sent and is not settled: it could not be sent, or was refused. */
  predicate StaysBehind(e: Entry, peer: Peer, content: Entry -> Content, maxMessage: int)
  {
    var prepared := Prepare(e, content, maxMessage);
    prepared == CannotSend || (prepared.Send? && peer.letters(e) == Rejected)
  }

  /** The entries that are sent, or those that are not, in their order. */
  function Chosen(entries: seq<Entry>, peer: Peer, areSent: bool): seq<Entry>
  {
    if entries == [] then []
    else
      var last := entries[|entries| - 1];
      Chosen(entries[..|entries| - 1], peer, areSent) + if IsSent(last, peer) == areSent then [last] else []
  }

  /** The entries that are sent straight away, or the offered ones. */
  function Offers(entries: seq<Entry>, offerFirst: bool): seq<Entry>
  {
    if entries == [] then []
    else
      var last := entries[|entries| - 1];
      Offers(entries[..|entries| - 1], offerFirst) + if last.offerFirst == offerFirst then [last] else []
  }

  function RowIfSent(e: Entry, content: Entry -> Content, maxMessage: int): seq<Outgoing>
  {
    var prepared := Prepare(e, content, maxMessage);
    if prepared.Send? then [Outgoing(e, prepared.size)] else []
  }

  /** The outgoing rows of a list of entries. */
  function OutgoingOf(entries: seq<Entry>, content: Entry -> Content, maxMessage: int): seq<Outgoing>
  {
    if entries == [] then []
    else OutgoingOf(entries[..|entries| - 1], content, maxMessage) + RowIfSent(entries[|entries| - 1], content, maxMessage)
  }

  /** The entries prepared with this outcome. */
  function PreparedAs(entries: seq<Entry>, content: Entry -> Content, maxMessage: int, outcome: Preparation): seq<Entry>
  {
    if entries == [] then []
    else
      var last := entries[|entries| - 1];
      PreparedAs(entries[..|entries| - 1], content, maxMessage, outcome)
        + if Prepare(last, content, maxMessage) == outcome then [last] else []
  }

  // ─── Each list by its last entry ─────────────────────────────────────────────

  lemma ChosenMore(front: seq<Entry>, last: Entry, peer: Peer, areSent: bool)
    ensures Chosen(front + [last], peer, areSent) == Chosen(front, peer, areSent) + if IsSent(last, peer) == areSent then [last] else []
  {
    assert (front + [last])[..|front|] == front;
  }

  lemma OffersMore(front: seq<Entry>, last: Entry, offerFirst: bool)
    ensures Offers(front + [last], offerFirst) == Offers(front, offerFirst) + if last.offerFirst == offerFirst then [last] else []
  {
    assert (front + [last])[..|front|] == front;
  }

  lemma OutgoingMore(front: seq<Entry>, last: Entry, content: Entry -> Content, maxMessage: int)
    ensures OutgoingOf(front + [last], content, maxMessage) == OutgoingOf(front, content, maxMessage) + RowIfSent(last, content, maxMessage)
  {
    assert (front + [last])[..|front|] == front;
  }

  lemma PreparedMore(front: seq<Entry>, last: Entry, content: Entry -> Content, maxMessage: int, outcome: Preparation)
    ensures PreparedAs(front + [last], content, maxMessage, outcome) ==
            PreparedAs(front, content, maxMessage, outcome) + if Prepare(last, content, maxMessage) == outcome then [last] else []
  {
    assert (front + [last])[..|front|] == front;
  }

  lemma LastSplit(entries: seq<Entry>) returns (front: seq<Entry>, last: Entry)
    requires entries != []
    ensures entries == front + [last] && |front| == |entries| - 1
  {
    front, last := entries[..|entries| - 1], entries[|entries| - 1];
  }

  // ─── Offering ────────────────────────────────────────────────────────────────

  /** The offered entries, asked about in chunks. */
  method Offer(offered: seq<Entry>, peer: Peer) returns (wanted: seq<Entry>, declined: seq<Entry>)
    requires forall e | e in offered :: e.offerFirst
    ensures wanted == Chosen(offered, peer, true) && declined == Chosen(offered, peer, false)
    ensures forall e :: (e in wanted <==> e in offered && peer.wants(e)) && (e in declined <==> e in offered && !peer.wants(e))
    ensures |wanted| + |declined| == |offered|
  {
    forall e ensures (e in Chosen(offered, peer, true) <==> e in offered && peer.wants(e))
                     && (e in Chosen(offered, peer, false) <==> e in offered && !peer.wants(e)) {
      ChosenMeans(offered, peer, true, e);
      ChosenMeans(offered, peer, false, e);
    }
    SentOrNot(offered, peer);
    assert |multiset(Chosen(offered, peer, true)) + multiset(Chosen(offered, peer, false))| == |multiset(offered)|;
    wanted, declined := [], [];
    var start := 0;
    while start < |offered|
      invariant 0 <= start <= |offered|
      invariant wanted == Chosen(offered[..start], peer, true) && declined == Chosen(offered[..start], peer, false)
    {
      var end := if start + OFFER_CHUNK <= |offered| then start + OFFER_CHUNK else |offered|;
      wanted, declined := OfferChunk(offered, start, end, peer, wanted, declined);
      start := end;
    }
    assert offered[..start] == offered;
  }

  /** One call: the peer lists the positions it wants. */
  method OfferChunk(offered: seq<Entry>, start: nat, end: nat, peer: Peer, wantedBefore: seq<Entry>, declinedBefore: seq<Entry>)
    returns (wanted: seq<Entry>, declined: seq<Entry>)
    requires start <= end <= |offered| && forall e | e in offered :: e.offerFirst
    requires wantedBefore == Chosen(offered[..start], peer, true) && declinedBefore == Chosen(offered[..start], peer, false)
    ensures wanted == Chosen(offered[..end], peer, true) && declined == Chosen(offered[..end], peer, false)
  {
    wanted, declined := wantedBefore, declinedBefore;
    var at := start;
    while at < end
      invariant start <= at <= end
      invariant wanted == Chosen(offered[..at], peer, true) && declined == Chosen(offered[..at], peer, false)
    {
      var entry := offered[at];
      assert entry in offered;
      assert offered[..at + 1] == offered[..at] + [entry];
      ChosenMore(offered[..at], entry, peer, true);
      ChosenMore(offered[..at], entry, peer, false);
      if peer.wants(entry) { wanted := wanted + [entry]; } else { declined := declined + [entry]; }
      at := at + 1;
    }
  }

  // ─── Back into reading order ─────────────────────────────────────────────────

  /** The position an entry was read at. */
  function Place(entries: seq<Entry>, e: Entry): (i: nat)
    requires e in entries
    ensures i < |entries| && entries[i] == e
  {
    if entries[|entries| - 1] == e then |entries| - 1 else Place(entries[..|entries| - 1], e)
  }

  function InsertByPlace(entries: seq<Entry>, e: Entry, sorted: seq<Entry>): (r: seq<Entry>)
    requires e in entries && forall x | x in sorted :: x in entries
    ensures multiset(r) == multiset(sorted) + multiset{e} && forall x :: x in r <==> x in sorted || x == e
  {
    if sorted == [] || Place(entries, sorted[|sorted| - 1]) <= Place(entries, e) then sorted + [e]
    else
      var front, last := sorted[..|sorted| - 1], sorted[|sorted| - 1];
      assert sorted == front + [last];
      InsertByPlace(entries, e, front) + [last]
  }

  /** The chosen entries, sorted by the position they were read at. */
  function SortedByPlace(entries: seq<Entry>, chosen: seq<Entry>): (r: seq<Entry>)
    requires forall x | x in chosen :: x in entries
    ensures multiset(r) == multiset(chosen) && forall x :: x in r <==> x in chosen
  {
    if chosen == [] then []
    else
      var front, last := chosen[..|chosen| - 1], chosen[|chosen| - 1];
      assert chosen == front + [last];
      InsertByPlace(entries, last, SortedByPlace(entries, front))
  }

  ghost predicate Distinct(entries: seq<Entry>)
  {
    forall i, j | 0 <= i < j < |entries| :: entries[i] != entries[j]
  }

  ghost predicate IsInOrder(entries: seq<Entry>, list: seq<Entry>)
  {
    && (forall x | x in list :: x in entries)
    && forall i, j | 0 <= i < j < |list| :: Place(entries, list[i]) <= Place(entries, list[j])
  }

  lemma {:induction false} InsertKeepsOrder(entries: seq<Entry>, e: Entry, sorted: seq<Entry>)
    requires e in entries && IsInOrder(entries, sorted)
    ensures IsInOrder(entries, InsertByPlace(entries, e, sorted))
  {
    if sorted != [] {
      var front, last := sorted[..|sorted| - 1], sorted[|sorted| - 1];
      if Place(entries, last) > Place(entries, e) {
        InsertKeepsOrder(entries, e, front);
        var inserted := InsertByPlace(entries, e, front);
        forall i | 0 <= i < |inserted| ensures Place(entries, inserted[i]) <= Place(entries, last) {
          assert inserted[i] in inserted;
        }
      }
    }
  }

  lemma {:induction false} SortedIsInOrder(entries: seq<Entry>, chosen: seq<Entry>)
    requires forall x | x in chosen :: x in entries
    ensures IsInOrder(entries, SortedByPlace(entries, chosen))
    decreases |chosen|
  {
    if chosen != [] {
      var front, last := LastSplit(chosen);
      assert front == chosen[..|chosen| - 1];
      SortedIsInOrder(entries, front);
      InsertKeepsOrder(entries, last, SortedByPlace(entries, front));
    }
  }

  lemma {:induction false} OneOrder(entries: seq<Entry>, a: seq<Entry>, b: seq<Entry>)
    requires IsInOrder(entries, a) && IsInOrder(entries, b) && multiset(a) == multiset(b)
    ensures a == b
    decreases |a|
  {
    SameLength(a, b);
    if a != [] {
      LastsAgree(entries, a, b);
      FrontIsInOrder(entries, a);
      FrontIsInOrder(entries, b);
      OneOrder(entries, a[..|a| - 1], b[..|b| - 1]);
      Rejoined(a, b);
    }
  }

  lemma SameLength(a: seq<Entry>, b: seq<Entry>)
    requires multiset(a) == multiset(b)
    ensures |a| == |b|
  {
    assert |multiset(a)| == |a| && |multiset(b)| == |b|;
  }

  lemma Rejoined(a: seq<Entry>, b: seq<Entry>)
    requires a != [] && b != [] && a[..|a| - 1] == b[..|b| - 1] && a[|a| - 1] == b[|b| - 1]
    ensures a == b
  {
    assert a == a[..|a| - 1] + [a[|a| - 1]] && b == b[..|b| - 1] + [b[|b| - 1]];
  }

  lemma LastsAgree(entries: seq<Entry>, a: seq<Entry>, b: seq<Entry>)
    requires IsInOrder(entries, a) && IsInOrder(entries, b) && multiset(a) == multiset(b) && a != [] && b != []
    ensures a[|a| - 1] == b[|b| - 1] && multiset(a[..|a| - 1]) == multiset(b[..|b| - 1])
  {
    LastIsGreatest(entries, a, b);
    LastIsGreatest(entries, b, a);
    WithoutLast(a);
    WithoutLast(b);
  }

  lemma WithoutLast(a: seq<Entry>)
    requires a != []
    ensures multiset(a[..|a| - 1]) == multiset(a) - multiset{a[|a| - 1]}
  {
    assert a == a[..|a| - 1] + [a[|a| - 1]];
  }

  lemma FrontIsInOrder(entries: seq<Entry>, a: seq<Entry>)
    requires a != [] && IsInOrder(entries, a)
    ensures IsInOrder(entries, a[..|a| - 1])
  {
  }

  lemma LastIsGreatest(entries: seq<Entry>, a: seq<Entry>, b: seq<Entry>)
    requires IsInOrder(entries, a) && IsInOrder(entries, b) && multiset(a) == multiset(b) && a != [] && b != []
    ensures Place(entries, a[|a| - 1]) <= Place(entries, b[|b| - 1])
  {
    var la := a[|a| - 1];
    assert la in multiset(b);
    var i :| 0 <= i < |b| && b[i] == la;
  }

  lemma {:induction false} ChosenMeans(entries: seq<Entry>, peer: Peer, areSent: bool, e: Entry)
    ensures e in Chosen(entries, peer, areSent) <==> e in entries && IsSent(e, peer) == areSent
    decreases |entries|
  {
    if entries != [] {
      var front, last := LastSplit(entries);
      ChosenMeans(front, peer, areSent, e);
      ChosenMore(front, last, peer, areSent);
    }
  }

  lemma {:induction false} OffersMeans(entries: seq<Entry>, offerFirst: bool, e: Entry)
    ensures e in Offers(entries, offerFirst) <==> e in entries && e.offerFirst == offerFirst
    decreases |entries|
  {
    if entries != [] {
      var front, last := LastSplit(entries);
      OffersMeans(front, offerFirst, e);
      OffersMore(front, last, offerFirst);
    }
  }

  lemma PlaceInFront(front: seq<Entry>, last: Entry, e: Entry)
    requires Distinct(front + [last]) && e in front
    ensures Place(front + [last], e) == Place(front, e)
  {
    assert (front + [last])[..|front|] == front;
    var i :| 0 <= i < |front| && front[i] == e;
    assert (front + [last])[i] == e;
  }

  lemma {:induction false} ChosenIsInOrder(entries: seq<Entry>, peer: Peer)
    requires Distinct(entries)
    ensures IsInOrder(entries, Chosen(entries, peer, true))
    decreases |entries|
  {
    if entries != [] {
      var front, last := LastSplit(entries);
      assert front == entries[..|entries| - 1];
      ChosenIsInOrder(front, peer);
      ChosenMore(front, last, peer, true);
      var chosen := Chosen(front, peer, true);
      forall i, j | 0 <= i < j < |chosen| ensures Place(entries, chosen[i]) <= Place(entries, chosen[j]) {
        PlaceInFront(front, last, chosen[i]);
        PlaceInFront(front, last, chosen[j]);
      }
    }
  }

  lemma Rearranged(a: seq<Entry>, b: seq<Entry>, x: seq<Entry>)
    ensures multiset((a + x) + b) == multiset((a + b) + x) && multiset(a + (b + x)) == multiset((a + b) + x)
  {
  }

  lemma AddedEqually(a: seq<Entry>, b: seq<Entry>, x: seq<Entry>)
    requires multiset(a) == multiset(b)
    ensures multiset(a + x) == multiset(b + x)
  {
  }

  /** What is sent at once and what the peer wants of the offers is what is sent. */
  lemma {:induction false} OffersTogether(entries: seq<Entry>, peer: Peer)
    ensures multiset(Offers(entries, false) + Chosen(Offers(entries, true), peer, true)) == multiset(Chosen(entries, peer, true))
    ensures Chosen(Offers(entries, true), peer, false) == Chosen(entries, peer, false)
    decreases |entries|
  {
    if entries != [] {
      var front, last := LastSplit(entries);
      OffersTogether(front, peer);
      OffersMore(front, last, false);
      OffersMore(front, last, true);
      ChosenMore(front, last, peer, true);
      ChosenMore(front, last, peer, false);
      var direct, offered := Offers(front, false), Offers(front, true);
      var sent := if IsSent(last, peer) then [last] else [];
      AddedEqually(direct + Chosen(offered, peer, true), Chosen(front, peer, true), sent);
      Rearranged(direct, Chosen(offered, peer, true), sent);
      if last.offerFirst {
        ChosenMore(offered, last, peer, true);
        ChosenMore(offered, last, peer, false);
        assert direct + [] == direct;
      } else {
        assert offered + [] == offered;
      }
    }
  }

  /** Sorting by reading position gives back the order of the batch. */
  lemma SortRestoresReadOrder(entries: seq<Entry>, peer: Peer, chosen: seq<Entry>)
    requires Distinct(entries) && chosen == Offers(entries, false) + Chosen(Offers(entries, true), peer, true)
    ensures (forall x | x in chosen :: x in entries) && SortedByPlace(entries, chosen) == Chosen(entries, peer, true)
  {
    OffersTogether(entries, peer);
    forall x ensures x in chosen <==> x in Chosen(entries, peer, true) {
      assert x in multiset(chosen) <==> x in multiset(Chosen(entries, peer, true));
    }
    ChosenIsInOrder(entries, peer);
    SortedIsInOrder(entries, chosen);
    OneOrder(entries, SortedByPlace(entries, chosen), Chosen(entries, peer, true));
  }

  // ─── Delivering ──────────────────────────────────────────────────────────────

  /** Turns the entries to send into outgoing rows. A row gone without its deletion recorded is
      settled; an unsendable one is not. */
  method PrepareAll(toSend: seq<Entry>, content: Entry -> Content, maxMessage: int)
    returns (outgoing: seq<Outgoing>, settled: seq<Entry>, unsettled: seq<Entry>)
    ensures outgoing == OutgoingOf(toSend, content, maxMessage)
    ensures settled == PreparedAs(toSend, content, maxMessage, AlreadyGone)
    ensures unsettled == PreparedAs(toSend, content, maxMessage, CannotSend)
  {
    outgoing, settled, unsettled := [], [], [];
    var i := 0;
    while i < |toSend|
      invariant 0 <= i <= |toSend|
      invariant outgoing == OutgoingOf(toSend[..i], content, maxMessage)
      invariant settled == PreparedAs(toSend[..i], content, maxMessage, AlreadyGone)
      invariant unsettled == PreparedAs(toSend[..i], content, maxMessage, CannotSend)
    {
      var entry := toSend[i];
      assert toSend[..i + 1] == toSend[..i] + [entry];
      OutgoingMore(toSend[..i], entry, content, maxMessage);
      PreparedMore(toSend[..i], entry, content, maxMessage, AlreadyGone);
      PreparedMore(toSend[..i], entry, content, maxMessage, CannotSend);
      i := i + 1;
      if entry.deleted { outgoing := outgoing + [Outgoing(entry, ROW_OVERHEAD)]; continue; }
      var row := content(entry);
      if row == Missing { settled := settled + [entry]; continue; }
      if row == Unencodable { unsettled := unsettled + [entry]; continue; }
      var size := row.length + ROW_OVERHEAD;
      if size > maxMessage - MESSAGE_OVERHEAD { unsettled := unsettled + [entry]; continue; }
      outgoing := outgoing + [Outgoing(entry, size)];
    }
    assert toSend[..i] == toSend;
  }

  /** The rows a delivery pushes. */
  function Rows(entries: seq<Entry>, peer: Peer, content: Entry -> Content, maxMessage: int): seq<Outgoing>
  {
    OutgoingOf(Chosen(entries, peer, true), content, maxMessage)
  }

  /** Every entry could be sent, the peer takes every row before the last chunk and refuses some row
      of it. */
  predicate LastCallFails(entries: seq<Entry>, peer: Peer, content: Entry -> Content, maxMessage: int)
  {
    && (forall e | e in entries && IsSent(e, peer) :: Prepare(e, content, maxMessage) != CannotSend)
    && OnlyLastChunkIsRefused(Rows(entries, peer, content, maxMessage), maxMessage / 2, peer.letters)
  }

  /** A row that is there and cannot be encoded, or is too large for a message. */
  predicate IsUnsendable(e: Entry, row: Content, maxMessage: int)
  {
    !e.deleted && (row == Unencodable || (row.Encoded? && row.length + 200 > maxMessage - 65536))
  }

  predicate IsMissing(e: Entry, row: Content)
  {
    !e.deleted && row == Missing
  }

  /** One entry of the batch comes before another. */
  ghost predicate ReadBefore(entries: seq<Entry>, e: Entry, f: Entry)
  {
    exists i, j {:trigger AreAt(entries, i, j, e, f)} :: AreAt(entries, i, j, e, f)
  }

  ghost predicate AreAt(entries: seq<Entry>, i: int, j: int, e: Entry, f: Entry)
  {
    0 <= i < j < |entries| && entries[i] == e && entries[j] == f
  }

  /** What stays unsettled: of the entries to send, those that cannot be sent and those refused. */
  ghost predicate LeftUnsettled(entries: seq<Entry>, peer: Peer, content: Entry -> Content, maxMessage: int, unsettled: seq<Entry>)
  {
    forall e {:trigger e in unsettled} :: e in unsettled <==>
      && e in entries && (!e.offerFirst || peer.wants(e))
      && (IsUnsendable(e, content(e), maxMessage) || (!IsMissing(e, content(e)) && peer.letters(e) == Rejected))
  }

  /** What is pushed: each entry to send that is there and can be, once, under its size and in the
      order of the batch. */
  ghost predicate PushedExactly(entries: seq<Entry>, peer: Peer, content: Entry -> Content, maxMessage: int, rows: seq<Outgoing>)
  {
    && (forall row {:trigger row in rows} :: row in rows <==>
          && row.entry in entries && (!row.entry.offerFirst || peer.wants(row.entry))
          && !IsUnsendable(row.entry, content(row.entry), maxMessage) && !IsMissing(row.entry, content(row.entry))
          && row.size == 200 + if row.entry.deleted then 0 else content(row.entry).length)
    && InBatchOrder(entries, rows)
  }

  ghost predicate InBatchOrder(entries: seq<Entry>, rows: seq<Outgoing>)
  {
    forall i, j | 0 <= i < j < |rows| :: ReadBefore(entries, rows[i].entry, rows[j].entry)
  }

  lemma AnsweredAsPrepared(entries: seq<Entry>, peer: Peer, content: Entry -> Content, maxMessage: int, unsettled: seq<Entry>)
    requires forall e {:trigger e in unsettled} :: e in unsettled <==> e in entries && IsSent(e, peer) && StaysBehind(e, peer, content, maxMessage)
    ensures LeftUnsettled(entries, peer, content, maxMessage, unsettled)
  {
  }

  /** So an entry that is not wanted, or whose row is missing, is settled. */
  lemma OthersAreSettled(entries: seq<Entry>, peer: Peer, content: Entry -> Content, maxMessage: int, settled: seq<Entry>, unsettled: seq<Entry>)
    requires multiset(settled) + multiset(unsettled) == multiset(entries) && LeftUnsettled(entries, peer, content, maxMessage, unsettled)
    ensures forall e | e in entries && (IsMissing(e, content(e)) || (e.offerFirst && !peer.wants(e))) :: e in settled
  {
    forall e | e in entries && e !in unsettled ensures e in settled {
      assert e in multiset(settled) + multiset(unsettled);
    }
  }

  lemma RowsAreThose(entries: seq<Entry>, peer: Peer, content: Entry -> Content, maxMessage: int)
    requires Distinct(entries)
    ensures PushedExactly(entries, peer, content, maxMessage, Rows(entries, peer, content, maxMessage))
  {
    forall row: Outgoing ensures row in Rows(entries, peer, content, maxMessage) <==>
              && row.entry in entries && (!row.entry.offerFirst || peer.wants(row.entry))
              && !IsUnsendable(row.entry, content(row.entry), maxMessage) && !IsMissing(row.entry, content(row.entry))
              && row.size == 200 + if row.entry.deleted then 0 else content(row.entry).length
    {
      RowMeans(Chosen(entries, peer, true), content, maxMessage, row);
      ChosenMeans(entries, peer, true, row.entry);
    }
    RowsInOrder(entries, peer, content, maxMessage);
  }

  lemma {:induction false} RowMeans(entries: seq<Entry>, content: Entry -> Content, maxMessage: int, row: Outgoing)
    ensures row in OutgoingOf(entries, content, maxMessage) <==>
            row.entry in entries && Prepare(row.entry, content, maxMessage) == Send(row.size)
    decreases |entries|
  {
    if entries != [] {
      var front, last := LastSplit(entries);
      RowMeans(front, content, maxMessage, row);
      OutgoingMore(front, last, content, maxMessage);
    }
  }

  lemma {:induction false} RowsInOrder(entries: seq<Entry>, peer: Peer, content: Entry -> Content, maxMessage: int)
    ensures InBatchOrder(entries, Rows(entries, peer, content, maxMessage))
    decreases |entries|
  {
    if entries != [] {
      var front, last := LastSplit(entries);
      RowsInOrder(front, peer, content, maxMessage);
      RowsMore(front, last, peer, content, maxMessage);
      var rows := Rows(front, peer, content, maxMessage);
      forall row | row in rows ensures row.entry in front {
        RowMeans(Chosen(front, peer, true), content, maxMessage, row);
        ChosenMeans(front, peer, true, row.entry);
      }
      LastReadLast(front, last, rows);
    }
  }

  lemma RowsMore(front: seq<Entry>, last: Entry, peer: Peer, content: Entry -> Content, maxMessage: int)
    ensures var rows := Rows(front, peer, content, maxMessage);
            || Rows(front + [last], peer, content, maxMessage) == rows
            || exists row: Outgoing :: row.entry == last && Rows(front + [last], peer, content, maxMessage) == rows + [row]
  {
    ChosenMore(front, last, peer, true);
    if IsSent(last, peer) {
      OutgoingMore(Chosen(front, peer, true), last, content, maxMessage);
      var more := RowIfSent(last, content, maxMessage);
      if more == [] {
        assert Rows(front, peer, content, maxMessage) + [] == Rows(front, peer, content, maxMessage);
      } else {
        assert more == [more[0]] && more[0].entry == last;
      }
    } else {
      assert Chosen(front, peer, true) + [] == Chosen(front, peer, true);
    }
  }

  lemma LastReadLast(front: seq<Entry>, last: Entry, rows: seq<Outgoing>)
    requires InBatchOrder(front, rows) && forall row | row in rows :: row.entry in front
    ensures InBatchOrder(front + [last], rows)
    ensures forall row: Outgoing | row.entry == last :: InBatchOrder(front + [last], rows + [row])
  {
    var all := front + [last];
    forall i, j | 0 <= i < j < |rows| ensures ReadBefore(all, rows[i].entry, rows[j].entry) {
      var k, m :| AreAt(front, k, m, rows[i].entry, rows[j].entry);
      assert AreAt(all, k, m, rows[i].entry, rows[j].entry);
    }
    forall i | 0 <= i < |rows| ensures ReadBefore(all, rows[i].entry, last) {
      assert rows[i] in rows;
      var k :| 0 <= k < |front| && front[k] == rows[i].entry;
      assert AreAt(all, k, |front|, rows[i].entry, last);
    }
    forall row: Outgoing | row.entry == last ensures InBatchOrder(all, rows + [row]) {
      var more := rows + [row];
      forall i, j | 0 <= i < j < |more| ensures ReadBefore(all, more[i].entry, more[j].entry) {
        assert more[i] == rows[i];
        if j < |rows| { assert more[j] == rows[j]; }
      }
    }
  }

  method Deliver(entries: seq<Entry>, peer: Peer, content: Entry -> Content, maxMessage: int, drainedAfter: bool)
    returns (settled: seq<Entry>, unsettled: seq<Entry>, announcedDrained: bool, sent: seq<seq<Outgoing>>)
    requires Distinct(entries)
    ensures multiset(settled) + multiset(unsettled) == multiset(entries)
    ensures LeftUnsettled(entries, peer, content, maxMessage, unsettled)
    ensures forall e | e in entries && (IsMissing(e, content(e)) || (e.offerFirst && !peer.wants(e))) :: e in settled
    ensures PushedExactly(entries, peer, content, maxMessage, Joined(sent))
    ensures forall i | 0 <= i < |sent| :: sent[i] != [] && (TotalSize(sent[i]) <= maxMessage / 2 || |sent[i]| == 1)
    ensures sent == ChunksFrom(Rows(entries, peer, content, maxMessage), 0, maxMessage / 2)
    ensures announcedDrained && unsettled != [] <==> drainedAfter && LastCallFails(entries, peer, content, maxMessage)
    ensures announcedDrained ==> drainedAfter
    ensures drainedAfter && unsettled == [] && sent != [] ==> announcedDrained
  {
    AllOffered(entries);
    var toSend := Offers(entries, false);
    var wanted, declined := Offer(Offers(entries, true), peer);
    toSend := toSend + wanted;
    SortRestoresReadOrder(entries, peer, toSend);
    toSend := SortedByPlace(entries, toSend);
    var outgoing, gone, stuck := PrepareAll(toSend, content, maxMessage);
    var taken;
    taken, unsettled, announcedDrained, sent := PushAll(outgoing, peer.letters, maxMessage / 2, drainedAfter, stuck);
    settled := declined + gone + taken;
    NothingLost(entries, peer, content, maxMessage, declined, gone, taken, unsettled);
    LeftBehindExactly(entries, peer, content, maxMessage, unsettled);
    AnnouncedTooEarly(outgoing, maxMessage / 2, peer.letters, drainedAfter, stuck);
    NothingStuck(entries, peer, content, maxMessage);
    AnsweredAsPrepared(entries, peer, content, maxMessage, unsettled);
    OthersAreSettled(entries, peer, content, maxMessage, settled, unsettled);
    RowsAreThose(entries, peer, content, maxMessage);
    assert outgoing[0..] == outgoing;
    ChunksHoldTheRows(outgoing, 0, maxMessage / 2);
    AnnouncedWhenNothingStays(outgoing, peer, maxMessage / 2, stuck);
  }

  lemma AllOffered(entries: seq<Entry>)
    ensures forall e | e in Offers(entries, true) :: e.offerFirst
  {
    forall e | e in Offers(entries, true) ensures e.offerFirst {
      OffersMeans(entries, true, e);
    }
  }

  lemma NothingStuck(entries: seq<Entry>, peer: Peer, content: Entry -> Content, maxMessage: int)
    ensures PreparedAs(Chosen(entries, peer, true), content, maxMessage, CannotSend) == [] <==>
            forall e | e in entries && IsSent(e, peer) :: Prepare(e, content, maxMessage) != CannotSend
  {
    var chosen := Chosen(entries, peer, true);
    var stuck := PreparedAs(chosen, content, maxMessage, CannotSend);
    forall e ensures e in stuck <==> e in entries && IsSent(e, peer) && Prepare(e, content, maxMessage) == CannotSend {
      ChosenMeans(entries, peer, true, e);
      PreparedAsMeans(chosen, content, maxMessage, CannotSend, e);
    }
    if stuck != [] { assert stuck[0] in stuck; }
  }

  lemma AnnouncedWhenNothingStays(rows: seq<Outgoing>, peer: Peer, limit: int, stuck: seq<Entry>)
    ensures stuck + Answered(rows, peer.letters, true) == [] && rows != [] ==> Announces(rows, limit, peer.letters, true, stuck)
  {
    if rows != [] {
      NoneRefused(rows, peer.letters);
      NoneRefused(rows[..LastStart(rows, 0, limit)], peer.letters);
    }
  }

  // ─── Nothing is lost ─────────────────────────────────────────────────────────

  lemma SplitMore(a: seq<Entry>, b: seq<Entry>, all: seq<Entry>, x: Entry)
    requires multiset(a) + multiset(b) == multiset(all)
    ensures multiset(a + [x]) + multiset(b + []) == multiset(all + [x])
    ensures multiset(a + []) + multiset(b + [x]) == multiset(all + [x])
  {
    assert a + [] == a && b + [] == b;
  }

  lemma {:induction false} SentOrNot(entries: seq<Entry>, peer: Peer)
    ensures multiset(Chosen(entries, peer, true)) + multiset(Chosen(entries, peer, false)) == multiset(entries)
    decreases |entries|
  {
    if entries == [] {
    } else {
      var front, last := LastSplit(entries);
      SentOrNot(front, peer);
      ChosenMore(front, last, peer, true);
      ChosenMore(front, last, peer, false);
      SplitMore(Chosen(front, peer, true), Chosen(front, peer, false), front, last);
    }
  }

  function EntriesOf(rows: seq<Outgoing>): seq<Entry>
  {
    if rows == [] then [] else EntriesOf(rows[..|rows| - 1]) + [rows[|rows| - 1].entry]
  }

  lemma EntriesMore(rows: seq<Outgoing>, row: Outgoing)
    ensures EntriesOf(rows + [row]) == EntriesOf(rows) + [row.entry]
  {
    assert (rows + [row])[..|rows|] == rows;
  }

  /** The entries of the outgoing rows, by the last entry. */
  lemma OutgoingEntriesMore(front: seq<Entry>, last: Entry, content: Entry -> Content, maxMessage: int)
    ensures EntriesOf(OutgoingOf(front + [last], content, maxMessage)) ==
            EntriesOf(OutgoingOf(front, content, maxMessage)) + if Prepare(last, content, maxMessage).Send? then [last] else []
  {
    var rows, prepared := OutgoingOf(front, content, maxMessage), Prepare(last, content, maxMessage);
    OutgoingMore(front, last, content, maxMessage);
    if prepared.Send? { EntriesMore(rows, Outgoing(last, prepared.size)); } else { assert rows + [] == rows; }
  }

  /** One more entry goes to one of three lists. */
  lemma PartsMore(a: seq<Entry>, b: seq<Entry>, c: seq<Entry>, all: seq<Entry>, x: Entry)
    requires multiset(a) + multiset(b) + multiset(c) == multiset(all)
    ensures multiset(a + [x]) + multiset(b + []) + multiset(c + []) == multiset(all + [x])
    ensures multiset(a + []) + multiset(b + [x]) + multiset(c + []) == multiset(all + [x])
    ensures multiset(a + []) + multiset(b + []) + multiset(c + [x]) == multiset(all + [x])
  {
    assert a + [] == a && b + [] == b && c + [] == c;
  }

  lemma {:induction false} PreparedSplit(entries: seq<Entry>, content: Entry -> Content, maxMessage: int)
    ensures multiset(EntriesOf(OutgoingOf(entries, content, maxMessage)))
              + multiset(PreparedAs(entries, content, maxMessage, AlreadyGone))
              + multiset(PreparedAs(entries, content, maxMessage, CannotSend)) == multiset(entries)
    decreases |entries|
  {
    if entries == [] {
    } else {
      var front, last := LastSplit(entries);
      PreparedSplit(front, content, maxMessage);
      OutgoingEntriesMore(front, last, content, maxMessage);
      PreparedMore(front, last, content, maxMessage, AlreadyGone);
      PreparedMore(front, last, content, maxMessage, CannotSend);
      PartsMore(EntriesOf(OutgoingOf(front, content, maxMessage)), PreparedAs(front, content, maxMessage, AlreadyGone),
                PreparedAs(front, content, maxMessage, CannotSend), front, last);
    }
  }

  lemma AnsweredMore(rows: seq<Outgoing>, row: Outgoing, letters: Letters, refused: bool)
    ensures Answered(rows + [row], letters, refused) ==
            Answered(rows, letters, refused) + if (letters(row.entry) == Rejected) == refused then [row.entry] else []
  {
    assert (rows + [row])[..|rows|] == rows;
  }

  lemma {:induction false} AnsweredSplit(rows: seq<Outgoing>, letters: Letters)
    ensures multiset(Answered(rows, letters, false)) + multiset(Answered(rows, letters, true)) == multiset(EntriesOf(rows))
  {
    if rows == [] {
    } else {
      var front, last := rows[..|rows| - 1], rows[|rows| - 1];
      assert rows == front + [last];
      AnsweredSplit(front, letters);
      AnsweredMore(front, last, letters, false);
      AnsweredMore(front, last, letters, true);
      EntriesMore(front, last);
      SplitMore(Answered(front, letters, false), Answered(front, letters, true), EntriesOf(front), last.entry);
    }
  }

  lemma {:induction false} PreparedAsMeans(entries: seq<Entry>, content: Entry -> Content, maxMessage: int, outcome: Preparation, e: Entry)
    ensures e in PreparedAs(entries, content, maxMessage, outcome) <==> e in entries && Prepare(e, content, maxMessage) == outcome
    decreases |entries|
  {
    if entries != [] {
      var front, last := LastSplit(entries);
      PreparedAsMeans(front, content, maxMessage, outcome, e);
      PreparedMore(front, last, content, maxMessage, outcome);
    }
  }

  /** The refused entries, by the last entry. */
  lemma RefusedMore(front: seq<Entry>, last: Entry, content: Entry -> Content, maxMessage: int, letters: Letters)
    ensures Answered(OutgoingOf(front + [last], content, maxMessage), letters, true) ==
            Answered(OutgoingOf(front, content, maxMessage), letters, true)
              + if Prepare(last, content, maxMessage).Send? && letters(last) == Rejected then [last] else []
  {
    var rows, prepared := OutgoingOf(front, content, maxMessage), Prepare(last, content, maxMessage);
    OutgoingMore(front, last, content, maxMessage);
    if prepared.Send? { AnsweredMore(rows, Outgoing(last, prepared.size), letters, true); } else { assert rows + [] == rows; }
  }

  lemma {:induction false} OutgoingMeans(entries: seq<Entry>, content: Entry -> Content, maxMessage: int, letters: Letters, e: Entry)
    ensures e in Answered(OutgoingOf(entries, content, maxMessage), letters, true) <==>
            e in entries && Prepare(e, content, maxMessage).Send? && letters(e) == Rejected
    decreases |entries|
  {
    if entries != [] {
      var front, last := LastSplit(entries);
      OutgoingMeans(front, content, maxMessage, letters, e);
      RefusedMore(front, last, content, maxMessage, letters);
    }
  }

  /** Declined, gone, taken and unsettled entries are all the entries, each once. */
  lemma NothingLost(entries: seq<Entry>, peer: Peer, content: Entry -> Content, maxMessage: int,
                    declined: seq<Entry>, gone: seq<Entry>, taken: seq<Entry>, unsettled: seq<Entry>)
    requires declined == Chosen(Offers(entries, true), peer, false)
    requires gone == PreparedAs(Chosen(entries, peer, true), content, maxMessage, AlreadyGone)
    requires taken == Answered(Rows(entries, peer, content, maxMessage), peer.letters, false)
    requires unsettled == PreparedAs(Chosen(entries, peer, true), content, maxMessage, CannotSend)
                            + Answered(Rows(entries, peer, content, maxMessage), peer.letters, true)
    ensures multiset(declined + gone + taken) + multiset(unsettled) == multiset(entries)
  {
    OffersTogether(entries, peer);
    SentOrNot(entries, peer);
    PreparedSplit(Chosen(entries, peer, true), content, maxMessage);
    AnsweredSplit(Rows(entries, peer, content, maxMessage), peer.letters);
  }

  lemma LeftBehindExactly(entries: seq<Entry>, peer: Peer, content: Entry -> Content, maxMessage: int, unsettled: seq<Entry>)
    requires unsettled == PreparedAs(Chosen(entries, peer, true), content, maxMessage, CannotSend)
                            + Answered(Rows(entries, peer, content, maxMessage), peer.letters, true)
    ensures forall e {:trigger e in unsettled} :: e in unsettled <==> e in entries && IsSent(e, peer) && StaysBehind(e, peer, content, maxMessage)
  {
    forall e ensures e in unsettled <==> e in entries && IsSent(e, peer) && StaysBehind(e, peer, content, maxMessage) {
      ChosenMeans(entries, peer, true, e);
      PreparedAsMeans(Chosen(entries, peer, true), content, maxMessage, CannotSend, e);
      OutgoingMeans(Chosen(entries, peer, true), content, maxMessage, peer.letters, e);
    }
  }

  // ─── An example ──────────────────────────────────────────────────────────────

  /** Two deletions in one message, the second refused: the message says nothing is left. */
  lemma RefusedSecondRow(a: Entry, b: Entry, content: Entry -> Content)
    requires a == Entry(1, a.table, a.hash, true, false) && b == Entry(2, b.table, b.hash, true, false)
    ensures LastCallFails([a, b], Peer((e: Entry) => true, (e: Entry) => if e.id == 2 then Rejected else Applied), content, 1000)
  {
    var peer := Peer((e: Entry) => true, (e: Entry) => if e.id == 2 then Rejected else Applied);
    assert Chosen([], peer, true) == [] && [a, b] == ([] + [a]) + [b];
    ChosenMore([], a, peer, true);
    ChosenMore([a], b, peer, true);
    assert Chosen([a, b], peer, true) == [a, b];
    OutgoingMore([], a, content, 1000);
    OutgoingMore([a], b, content, 1000);
    var rows := [Outgoing(a, 200), Outgoing(b, 200)];
    assert OutgoingOf([a, b], content, 1000) == rows;
    assert TotalSize(rows[0..0]) == 0;
    SizeGrows(rows, 0, 0);
    assert ChunkEnd(rows, 0, 500) == GrowChunk(rows, 0, 1, 500) == GrowChunk(rows, 0, 2, 500) == 2;
    assert peer.letters(rows[1].entry) == Rejected;
  }
}
