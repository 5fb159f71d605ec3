/** Pushing rows to a peer in chunks that fit one message (src/cluster/replicator.ts). */
module Chunks {

  /** `id` is the entry's identity. */
  datatype Entry = Entry(id: nat, table: string, hash: string, deleted: bool, offerFirst: bool)

  datatype Outgoing = Outgoing(entry: Entry, size: nat)

  datatype Letter = Applied | Stale | Rejected | Deferred

  /** What the peer answers for a row. */
  type Letters = Entry -> Letter

  function TotalSize(rows: seq<Outgoing>): nat
  {
    if rows == [] then 0 else TotalSize(rows[..|rows| - 1]) + rows[|rows| - 1].size
  }

  /** The entries of the rows the peer refuses, or takes. */
  function Answered(rows: seq<Outgoing>, letters: Letters, refused: bool): seq<Entry>
  {
    if rows == [] then []
    else
      var last := rows[|rows| - 1].entry;
      Answered(rows[..|rows| - 1], letters, refused) + if (letters(last) == Rejected) == refused then [last] else []
  }

  // ─── Cutting into chunks ─────────────────────────────────────────────────────

  /** The end of the chunk from `cursor` on, known to reach `end`: rows are added while they fit. */
  function GrowChunk(rows: seq<Outgoing>, cursor: nat, end: nat, limit: int): (r: nat)
    requires cursor <= end <= |rows|
    ensures end <= r <= |rows| && (cursor == end < |rows| ==> end < r)
    decreases |rows| - end
  {
    if end < |rows| && (end == cursor || TotalSize(rows[cursor..end]) + rows[end].size <= limit)
    then GrowChunk(rows, cursor, end + 1, limit) else end
  }

  function ChunkEnd(rows: seq<Outgoing>, cursor: nat, limit: int): (end: nat)
    requires cursor < |rows|
    ensures cursor < end <= |rows|
  {
    GrowChunk(rows, cursor, cursor, limit)
  }

  /** The chunks from `cursor` on. */
  function ChunksFrom(rows: seq<Outgoing>, cursor: nat, limit: int): seq<seq<Outgoing>>
    requires cursor <= |rows|
    decreases |rows| - cursor
  {
    if cursor == |rows| then []
    else [rows[cursor..ChunkEnd(rows, cursor, limit)]] + ChunksFrom(rows, ChunkEnd(rows, cursor, limit), limit)
  }

  /** Where the last chunk begins. */
  function LastStart(rows: seq<Outgoing>, cursor: nat, limit: int): (start: nat)
    requires cursor < |rows|
    ensures cursor <= start < |rows|
    decreases |rows| - cursor
  {
    if ChunkEnd(rows, cursor, limit) == |rows| then cursor else LastStart(rows, ChunkEnd(rows, cursor, limit), limit)
  }

  function Joined(chunks: seq<seq<Outgoing>>): seq<Outgoing>
  {
    if chunks == [] then [] else chunks[0] + Joined(chunks[1..])
  }

  /** A chunk fits the limit, or holds the one row that alone does not. */
  predicate Fits(chunk: seq<Outgoing>, limit: int)
  {
    chunk != [] && (TotalSize(chunk) <= limit || |chunk| == 1)
  }

  lemma SizeGrows(rows: seq<Outgoing>, cursor: nat, end: nat)
    requires cursor <= end < |rows|
    ensures TotalSize(rows[cursor..end + 1]) == TotalSize(rows[cursor..end]) + rows[end].size
  {
    assert rows[cursor..end + 1][..end - cursor] == rows[cursor..end];
  }

  lemma {:induction false} GrownChunkFits(rows: seq<Outgoing>, cursor: nat, end: nat, limit: int)
    requires cursor <= end <= |rows| && cursor < |rows| && (end > cursor ==> Fits(rows[cursor..end], limit))
    ensures var r := GrowChunk(rows, cursor, end, limit);
            Fits(rows[cursor..r], limit) && (r < |rows| ==> TotalSize(rows[cursor..r + 1]) > limit)
    decreases |rows| - end
  {
    if end < |rows| {
      SizeGrows(rows, cursor, end);
      if end == cursor || TotalSize(rows[cursor..end]) + rows[end].size <= limit {
        GrownChunkFits(rows, cursor, end + 1, limit);
      }
    }
  }

  /** Cutting loses, repeats and reorders nothing; every chunk fits or holds a single row. */
  lemma {:induction false} ChunksHoldTheRows(rows: seq<Outgoing>, cursor: nat, limit: int)
    requires cursor <= |rows|
    ensures Joined(ChunksFrom(rows, cursor, limit)) == rows[cursor..]
    ensures forall i | 0 <= i < |ChunksFrom(rows, cursor, limit)| :: Fits(ChunksFrom(rows, cursor, limit)[i], limit)
    decreases |rows| - cursor
  {
    if cursor < |rows| {
      var end := ChunkEnd(rows, cursor, limit);
      GrownChunkFits(rows, cursor, cursor, limit);
      ChunksHoldTheRows(rows, end, limit);
      assert rows[cursor..] == rows[cursor..end] + rows[end..];
    }
  }

  /** No chunk but the last could have taken one more row. */
  lemma ChunkCouldNotTakeMore(rows: seq<Outgoing>, cursor: nat, limit: int)
    requires cursor < |rows| && ChunkEnd(rows, cursor, limit) < |rows|
    ensures TotalSize(rows[cursor..ChunkEnd(rows, cursor, limit) + 1]) > limit
  {
    GrownChunkFits(rows, cursor, cursor, limit);
  }

  // ─── Pushing ─────────────────────────────────────────────────────────────────

  lemma {:induction false} AnsweredJoins(a: seq<Outgoing>, b: seq<Outgoing>, letters: Letters, refused: bool)
    ensures Answered(a + b, letters, refused) == Answered(a, letters, refused) + Answered(b, letters, refused)
    decreases |b|
  {
    if b == [] {
      assert a + b == a;
    } else {
      var front, last := b[..|b| - 1], b[|b| - 1].entry;
      AnsweredJoins(a, front, letters, refused);
      assert (a + b)[..|a + b| - 1] == a + front && (a + b)[|a + b| - 1] == b[|b| - 1];
      var more := if (letters(last) == Rejected) == refused then [last] else [];
      Regroup(Answered(a, letters, refused), Answered(front, letters, refused), more);
    }
  }

  lemma Regroup(a: seq<Entry>, b: seq<Entry>, c: seq<Entry>)
    ensures (a + b) + c == a + (b + c)
  {
  }

  /** The end of the next chunk. */
  method NextChunk(rows: seq<Outgoing>, cursor: nat, limit: int) returns (end: nat)
    requires cursor < |rows|
    ensures end == ChunkEnd(rows, cursor, limit)
    ensures cursor < end <= |rows| && (end == cursor + 1 || TotalSize(rows[cursor..end]) <= limit)
    ensures end < |rows| ==> TotalSize(rows[cursor..end + 1]) > limit
  {
    GrownChunkFits(rows, cursor, cursor, limit);
    var size := 0;
    end := cursor;
    while end < |rows| && (end == cursor || size + rows[end].size <= limit)
      invariant cursor <= end <= |rows| && size == TotalSize(rows[cursor..end])
      invariant GrowChunk(rows, cursor, end, limit) == ChunkEnd(rows, cursor, limit)
    {
      SizeGrows(rows, cursor, end);
      size := size + rows[end].size;
      end := end + 1;
    }
  }

  /** One call: the letters of a chunk, in the order its rows were sent. */
  method PushChunk(chunk: seq<Outgoing>, letters: Letters) returns (taken: seq<Entry>, refused: seq<Entry>)
    ensures taken == Answered(chunk, letters, false) && refused == Answered(chunk, letters, true)
  {
    taken, refused := [], [];
    var i := 0;
    while i < |chunk|
      invariant 0 <= i <= |chunk|
      invariant taken == Answered(chunk[..i], letters, false) && refused == Answered(chunk[..i], letters, true)
    {
      assert chunk[..i + 1][..i] == chunk[..i];
      if letters(chunk[i].entry) == Rejected { refused := refused + [chunk[i].entry]; }
      else { taken := taken + [chunk[i].entry]; }
      i := i + 1;
    }
    assert chunk[..i] == chunk;
  }

  /** Whether the last call says that nothing is left: nothing stayed behind before it. Its own
      letters are not known when it is made. */
  predicate Announces(rows: seq<Outgoing>, limit: int, letters: Letters, drainedAfter: bool, unsettledBefore: seq<Entry>)
  {
    drainedAfter && rows != [] && unsettledBefore == [] && Answered(rows[..LastStart(rows, 0, limit)], letters, true) == []
  }

  /** Pushes the rows chunk by chunk; `sent` are the calls made. */
  method PushAll(rows: seq<Outgoing>, letters: Letters, limit: int, drainedAfter: bool, unsettledBefore: seq<Entry>)
    returns (settled: seq<Entry>, unsettled: seq<Entry>, announcedDrained: bool, sent: seq<seq<Outgoing>>)
    ensures settled == Answered(rows, letters, false) && unsettled == unsettledBefore + Answered(rows, letters, true)
    ensures forall e :: e in settled <==> letters(e) != Rejected && exists row :: row in rows && row.entry == e
    ensures forall e :: e in unsettled <==> e in unsettledBefore || (letters(e) == Rejected && exists row :: row in rows && row.entry == e)
    ensures sent == ChunksFrom(rows, 0, limit) && Joined(sent) == rows
    ensures announcedDrained <==> Announces(rows, limit, letters, drainedAfter, unsettledBefore)
  {
    settled, unsettled, announcedDrained, sent := [], unsettledBefore, false, [];
    var cursor := 0;
    while cursor < |rows|
      invariant 0 <= cursor <= |rows|
      invariant settled == Answered(rows[..cursor], letters, false)
      invariant unsettled == unsettledBefore + Answered(rows[..cursor], letters, true)
      invariant sent + ChunksFrom(rows, cursor, limit) == ChunksFrom(rows, 0, limit)
      invariant cursor < |rows| ==> LastStart(rows, cursor, limit) == LastStart(rows, 0, limit)
      invariant cursor == |rows| ==> (announcedDrained <==> Announces(rows, limit, letters, drainedAfter, unsettledBefore))
    {
      var end := NextChunk(rows, cursor, limit);
      var chunk := rows[cursor..end];
      var drained := drainedAfter && end == |rows| && |unsettled| == 0;
      var taken, refused := PushChunk(chunk, letters);
      announcedDrained := drained;
      OneMoreChunk(rows, cursor, limit, letters, unsettledBefore, sent);
      settled, unsettled := settled + taken, unsettled + refused;
      sent := sent + [chunk];
      cursor := end;
    }
    assert rows[..cursor] == rows && sent + [] == sent;
    forall e ensures (e in Answered(rows, letters, false) <==> letters(e) != Rejected && exists row :: row in rows && row.entry == e)
                     && (e in Answered(rows, letters, true) <==> letters(e) == Rejected && exists row :: row in rows && row.entry == e) {
      AnsweredMeans(rows, letters, false, e);
      AnsweredMeans(rows, letters, true, e);
    }
    ChunksHoldTheRows(rows, 0, limit);
    assert rows[0..] == rows;
  }

  lemma OneMoreChunk(rows: seq<Outgoing>, cursor: nat, limit: int, letters: Letters, unsettledBefore: seq<Entry>, sent: seq<seq<Outgoing>>)
    requires cursor < |rows|
    ensures var end := ChunkEnd(rows, cursor, limit); var chunk := rows[cursor..end];
            && (forall refused :: Answered(rows[..end], letters, refused)
                                    == Answered(rows[..cursor], letters, refused) + Answered(chunk, letters, refused))
            && unsettledBefore + Answered(rows[..cursor], letters, true) + Answered(chunk, letters, true)
                 == unsettledBefore + Answered(rows[..end], letters, true)
            && sent + ChunksFrom(rows, cursor, limit) == (sent + [chunk]) + ChunksFrom(rows, end, limit)
  {
    var end := ChunkEnd(rows, cursor, limit);
    var chunk := rows[cursor..end];
    assert rows[..end] == rows[..cursor] + chunk;
    forall refused ensures Answered(rows[..end], letters, refused) == Answered(rows[..cursor], letters, refused) + Answered(chunk, letters, refused) {
      AnsweredJoins(rows[..cursor], chunk, letters, refused);
    }
    Regroup(unsettledBefore, Answered(rows[..cursor], letters, true), Answered(chunk, letters, true));
    assert sent + ([chunk] + ChunksFrom(rows, end, limit)) == (sent + [chunk]) + ChunksFrom(rows, end, limit);
  }

  // ─── Announced too early ─────────────────────────────────────────────────────

  /** Everything could be sent, the peer takes every row before the last chunk and refuses some row
      of it. */
  predicate OnlyLastChunkIsRefused(rows: seq<Outgoing>, limit: int, letters: Letters)
  {
    && rows != []
    && (forall i | 0 <= i < LastStart(rows, 0, limit) :: letters(rows[i].entry) != Rejected)
    && exists i | LastStart(rows, 0, limit) <= i < |rows| :: letters(rows[i].entry) == Rejected
  }

  /** It is where the last of the chunks begins. */
  lemma {:induction false} LastStartIs(rows: seq<Outgoing>, cursor: nat, limit: int)
    requires cursor < |rows|
    ensures var chunks := ChunksFrom(rows, cursor, limit);
            chunks != [] && chunks[|chunks| - 1] == rows[LastStart(rows, cursor, limit)..]
    decreases |rows| - cursor
  {
    var end := ChunkEnd(rows, cursor, limit);
    if end < |rows| { LastStartIs(rows, end, limit); } else { assert ChunksFrom(rows, end, limit) == []; }
  }

  lemma {:induction false} AnsweredMeans(rows: seq<Outgoing>, letters: Letters, refused: bool, e: Entry)
    ensures e in Answered(rows, letters, refused) <==> (letters(e) == Rejected) == refused && exists row :: row in rows && row.entry == e
  {
    if rows != [] {
      var front, last := rows[..|rows| - 1], rows[|rows| - 1];
      assert rows == front + [last];
      AnsweredMeans(front, letters, refused, e);
      if last.entry == e { assert last in rows; }
      if row :| row in front && row.entry == e { assert row in rows; }
    }
  }

  lemma {:induction false} NoneRefused(rows: seq<Outgoing>, letters: Letters)
    ensures Answered(rows, letters, true) == [] <==> forall i | 0 <= i < |rows| :: letters(rows[i].entry) != Rejected
  {
    if rows != [] {
      var front := rows[..|rows| - 1];
      NoneRefused(front, letters);
      assert forall i | 0 <= i < |front| :: front[i] == rows[i];
    }
  }

  /** "Nothing is left" is announced although something stays behind exactly when everything before
      the last chunk goes through and the last chunk does not. */
  lemma AnnouncedTooEarly(rows: seq<Outgoing>, limit: int, letters: Letters, drainedAfter: bool, unsettledBefore: seq<Entry>)
    ensures Announces(rows, limit, letters, drainedAfter, unsettledBefore) && unsettledBefore + Answered(rows, letters, true) != [] <==>
            drainedAfter && unsettledBefore == [] && OnlyLastChunkIsRefused(rows, limit, letters)
  {
    if rows != [] {
      var start := LastStart(rows, 0, limit);
      NoneRefused(rows[..start], letters);
      NoneRefused(rows, letters);
      assert forall i | 0 <= i < start :: rows[..start][i] == rows[i];
    }
  }
}
