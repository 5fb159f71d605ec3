/** One node's change feed as read for one peer: positions are taken before their transaction
    commits, reading runs ahead, and a sweep moves the stored cursor (src/cluster/replicator.ts,
    src/cluster/runtime.ts, src/cluster/capture.ts). */
module FeedCursor {
  import opened Versions
  import opened FeedSamples

  type RowId = string

  /** A version record as the feed query returns it. `theirs`: this version is the peer's or
      handed it to this node. `readable`: the table is replicated and the record decodes. */
  datatype FeedRow = FeedRow(row: RowId, version: int, pos: int, theirs: bool, readable: bool, deleted: bool)

  datatype Sent = Sent(version: int, pos: int)

  datatype Sweep = Sweep(pos: int, until: int, stable: int)

  /** The part of the state kept per peer. Only `cursor` survives a restart. */
  datatype Progress = Progress(cursor: int, readTo: int, sent: map<RowId, Sent>, sweep: Option<Sweep>)

  datatype FeedBatch = FeedBatch(entries: seq<FeedRow>, readTo: int, truncated: bool, skipped: seq<FeedRow>)

  function NewProgress(cursor: int): Progress
  {
    Progress(cursor, cursor, map[], None)
  }

  predicate Recognised(sent: map<RowId, Sent>, r: FeedRow)
  {
    r.row in sent && sent[r.row].version == r.version
  }

  /** Rows to deliver, in the order read. */
  function EntriesOf(sent: map<RowId, Sent>, rows: seq<FeedRow>): seq<FeedRow>
  {
    if rows == [] then []
    else
      var last := rows[|rows| - 1];
      EntriesOf(sent, rows[..|rows| - 1]) +
      if last.readable && !Recognised(sent, last) && !last.theirs then [last] else []
  }

  /** Rows the peer has anyway. */
  function SkippedOf(sent: map<RowId, Sent>, rows: seq<FeedRow>): seq<FeedRow>
  {
    if rows == [] then []
    else
      var last := rows[|rows| - 1];
      SkippedOf(sent, rows[..|rows| - 1]) +
      if last.readable && !Recognised(sent, last) && last.theirs then [last] else []
  }

  function Max(a: int, b: int): int { if a > b then a else b }

  function Min(a: int, b: int): int { if a < b then a else b }

  function ReadToOf(from: int, rows: seq<FeedRow>): int
  {
    if rows == [] then from else Max(ReadToOf(from, rows[..|rows| - 1]), rows[|rows| - 1].pos)
  }

  function Remembered(sent: map<RowId, Sent>, rows: seq<FeedRow>): map<RowId, Sent>
  {
    if rows == [] then sent
    else
      var last := rows[|rows| - 1];
      Remembered(sent, rows[..|rows| - 1])[last.row := Sent(last.version, last.pos)]
  }

  /** The lowest position of the rows left unsettled. */
  function FirstUnsettled(rows: seq<FeedRow>): Option<int>
  {
    if rows == [] then None
    else
      var before := FirstUnsettled(rows[..|rows| - 1]);
      var pos := rows[|rows| - 1].pos;
      if before.None? || pos < before.value then Some(pos) else before
  }

  /** What one delivery leaves in memory; an unsettled row pulls reading back. */
  function AfterDelivery(p: Progress, batch: FeedBatch, settled: seq<FeedRow>, unsettled: seq<FeedRow>): Progress
  {
    var remembered := p.(sent := Remembered(Remembered(p.sent, settled), batch.skipped));
    var first := FirstUnsettled(unsettled);
    if first.Some? && remembered.readTo >= first.value then remembered.(readTo := first.value - 1) else remembered
  }

  lemma {:induction false} FirstIsLowest(rows: seq<FeedRow>)
    ensures var first := FirstUnsettled(rows);
            && (first.None? <==> rows == [])
            && (first.Some? ==> (forall r | r in rows :: first.value <= r.pos) && exists r :: r in rows && r.pos == first.value)
  {
    if rows != [] {
      var front, last := rows[..|rows| - 1], rows[|rows| - 1];
      assert rows == front + [last];
      FirstIsLowest(front);
      if FirstUnsettled(rows) == Some(last.pos) { assert last in rows; }
    }
  }

  /** Reading goes on before every row left unsettled, where it did or just before one of them. */
  ghost predicate ReadsAgain(before: int, after: int, unsettled: seq<FeedRow>)
  {
    && (forall r | r in unsettled :: after < r.pos)
    && (after == before || (after < before && exists r :: r in unsettled && after == r.pos - 1))
    && (unsettled == [] ==> after == before)
  }

  lemma DeliveryPullsBack(p: Progress, batch: FeedBatch, settled: seq<FeedRow>, unsettled: seq<FeedRow>)
    ensures var after := AfterDelivery(p, batch, settled, unsettled);
            ReadsAgain(p.readTo, after.readTo, unsettled) && after.cursor == p.cursor && after.sweep == p.sweep
    ensures forall row :: Noted(p.sent, AfterDelivery(p, batch, settled, unsettled).sent, settled + batch.skipped, row)
  {
    FirstIsLowest(unsettled);
    RememberedTwice(p.sent, settled, batch.skipped);
    forall row ensures Noted(p.sent, Remembered(p.sent, settled + batch.skipped), settled + batch.skipped, row) {
      RememberedNotes(p.sent, settled + batch.skipped, row);
    }
  }

  /** The record there is the last one of its row. */
  ghost predicate IsLast(rows: seq<FeedRow>, i: nat)
  {
    i < |rows| && forall j | i < j < |rows| :: rows[j].row != rows[i].row
  }

  /** What is remembered of a row: the version and place of the last of these records that is its,
      or what was remembered before. */
  ghost predicate Noted(before: map<RowId, Sent>, after: map<RowId, Sent>, rows: seq<FeedRow>, row: RowId)
  {
    && (forall i: nat {:trigger IsLast(rows, i)} :: IsLast(rows, i) && rows[i].row == row ==>
          row in after && after[row] == Sent(rows[i].version, rows[i].pos))
    && ((forall r | r in rows :: r.row != row) ==> (row in after <==> row in before) && (row in before ==> after[row] == before[row]))
  }

  lemma NotedMore(before: map<RowId, Sent>, between: map<RowId, Sent>, front: seq<FeedRow>, last: FeedRow, row: RowId)
    requires Noted(before, between, front, row)
    ensures Noted(before, between[last.row := Sent(last.version, last.pos)], front + [last], row)
  {
    var rows, after := front + [last], between[last.row := Sent(last.version, last.pos)];
    assert rows[|front|] == last && last in rows && forall r | r in front :: r in rows;
    forall i: nat | IsLast(rows, i) && rows[i].row == row ensures row in after && after[row] == Sent(rows[i].version, rows[i].pos) {
      if i < |front| {
        assert rows[i] == front[i] && rows[|front|].row != row;
        forall j | i < j < |front| ensures front[j].row != front[i].row { assert rows[j] == front[j]; }
        assert IsLast(front, i);
      }
    }
  }

  lemma {:induction false} RememberedNotes(sent: map<RowId, Sent>, rows: seq<FeedRow>, row: RowId)
    ensures Noted(sent, Remembered(sent, rows), rows, row)
  {
    if rows != [] {
      var front, last := rows[..|rows| - 1], rows[|rows| - 1];
      assert rows == front + [last];
      RememberedNotes(sent, front, row);
      NotedMore(sent, Remembered(sent, front), front, last, row);
    }
  }

  lemma {:induction false} RememberedTwice(sent: map<RowId, Sent>, a: seq<FeedRow>, b: seq<FeedRow>)
    ensures Remembered(Remembered(sent, a), b) == Remembered(sent, a + b)
    decreases |b|
  {
    if b == [] {
      assert a + b == a;
    } else {
      var front := b[..|b| - 1];
      RememberedTwice(sent, a, front);
      assert (a + b)[..|a + b| - 1] == a + front && (a + b)[|a + b| - 1] == b[|b| - 1];
    }
  }

  function CursorMoved(p: Progress, target: int): Progress
  {
    if target <= p.cursor then p
    else p.(cursor := target, sent := map row | row in p.sent && p.sent[row].pos > target :: p.sent[row])
  }

  function SweepBegun(p: Progress, stable: int): Progress
  {
    if p.sweep.Some? then p else p.(sweep := Some(Sweep(p.cursor, p.readTo, stable)))
  }

  function ReadingAdvanced(p: Progress, batch: FeedBatch): Progress
  {
    p.(readTo := Max(p.readTo, batch.readTo))
  }

  /** A sweep step whose batch was delivered without rejection. */
  function AfterSweepBatch(p: Progress, batch: FeedBatch): Progress
    requires p.sweep.Some?
  {
    var w := p.sweep.value.(pos := batch.readTo);
    if batch.truncated && w.pos < w.until then p.(sweep := Some(w))
    else CursorMoved(p.(sweep := None), Min(w.stable, w.until))
  }

  /** The mutable progress of one peer. */
  class FeedProgress {
    var cursor: int
    var readTo: int
    var sent: map<RowId, Sent>
    var sweep: Option<Sweep>

    constructor (cursor: int)
      ensures Model() == NewProgress(cursor)
    {
      this.cursor, this.readTo := cursor, cursor;
      this.sent, this.sweep := map[], None;
    }

    function Model(): Progress
      reads this
    {
      Progress(cursor, readTo, sent, sweep)
    }

    /** Sorts the rows of one read into those to deliver and those the peer has. */
    method NextFeedBatch(from: int, rows: seq<FeedRow>, truncated: bool) returns (batch: FeedBatch)
      ensures batch == FeedBatch(EntriesOf(sent, rows), ReadToOf(from, rows), truncated, SkippedOf(sent, rows))
      ensures batch.truncated == truncated && forall r ::
                var anew := r in rows && r.readable && !(r.row in sent && sent[r.row].version == r.version);
                (r in batch.entries <==> anew && !r.theirs) && (r in batch.skipped <==> anew && r.theirs)
      ensures from <= batch.readTo && (forall r | r in rows :: r.pos <= batch.readTo)
      ensures batch.readTo == from || exists r :: r in rows && r.pos == batch.readTo
      ensures Ascending(rows) ==> Ascending(batch.entries) && Ascending(batch.skipped)
    {
      var entries, skipped, to := [], [], from;
      var i := 0;
      while i < |rows|
        invariant 0 <= i <= |rows|
        invariant entries == EntriesOf(sent, rows[..i]) && skipped == SkippedOf(sent, rows[..i])
        invariant to == ReadToOf(from, rows[..i])
      {
        var r := rows[i];
        assert rows[..i + 1][..i] == rows[..i];
        if r.pos > to { to := r.pos; }
        i := i + 1;
        if !r.readable { continue; }
        if r.row in sent && sent[r.row].version == r.version { continue; }
        if r.theirs { skipped := skipped + [r]; } else { entries := entries + [r]; }
      }
      assert rows[..|rows|] == rows;
      batch := FeedBatch(entries, to, truncated, skipped);
      forall r ensures (r in batch.entries <==> r in rows && r.readable && !Recognised(sent, r) && !r.theirs)
                       && (r in batch.skipped <==> r in rows && r.readable && !Recognised(sent, r) && r.theirs) {
        EntriesAndSkipped(sent, rows, r);
      }
      ReadToCovers(from, rows, from);
      ReadToIsReached(from, rows);
      SortedStaysAscending(sent, rows);
    }

    method Remember(rows: seq<FeedRow>)
      modifies this`sent
      ensures sent == Remembered(old(sent), rows)
      ensures forall row :: Noted(old(sent), sent, rows, row)
    {
      var i := 0;
      while i < |rows|
        invariant 0 <= i <= |rows|
        invariant sent == Remembered(old(sent), rows[..i])
      {
        assert rows[..i + 1][..i] == rows[..i];
        sent := sent[rows[i].row := Sent(rows[i].version, rows[i].pos)];
        i := i + 1;
      }
      assert rows[..|rows|] == rows;
      forall row ensures Noted(old(sent), sent, rows, row) { RememberedNotes(old(sent), rows, row); }
    }

    /** Returns whether everything was taken. */
    method SendFeedBatch(batch: FeedBatch, settled: seq<FeedRow>, unsettled: seq<FeedRow>) returns (ok: bool)
      modifies this
      ensures Model() == AfterDelivery(old(Model()), batch, settled, unsettled)
      ensures ReadsAgain(old(readTo), readTo, unsettled) && cursor == old(cursor) && sweep == old(sweep)
      ensures forall row :: Noted(old(sent), sent, settled + batch.skipped, row)
      ensures ok <==> unsettled == []
    {
      DeliveryPullsBack(Model(), batch, settled, unsettled);
      Remember(settled);
      Remember(batch.skipped);
      var first: Option<int> := None;
      var i := 0;
      while i < |unsettled|
        invariant 0 <= i <= |unsettled|
        invariant first == FirstUnsettled(unsettled[..i])
        invariant first.None? <==> i == 0
        invariant Model() == old(Model()).(sent := Remembered(Remembered(old(sent), settled), batch.skipped))
      {
        assert unsettled[..i + 1][..i] == unsettled[..i];
        if first.None? || unsettled[i].pos < first.value { first := Some(unsettled[i].pos); }
        i := i + 1;
      }
      assert unsettled[..|unsettled|] == unsettled;
      if first.Some? && readTo >= first.value { readTo := first.value - 1; }
      ok := first.None?;
    }

    method MoveCursor(target: int)
      modifies this
      ensures Model() == CursorMoved(old(Model()), target)
      ensures readTo == old(readTo) && sweep == old(sweep) && cursor >= target && (cursor == old(cursor) || cursor == target)
      ensures forall row :: row in sent <==> row in old(sent) && (cursor == old(cursor) || old(sent)[row].pos > cursor)
      ensures forall row | row in sent :: sent[row] == old(sent)[row]
    {
      if target <= cursor { return; }
      cursor := target;
      var kept: map<RowId, Sent> := map[];
      var left := sent.Keys;
      while left != {}
        invariant left <= sent.Keys
        invariant kept == map row | row in sent.Keys - left && sent[row].pos > target :: sent[row]
        invariant Model() == old(Model()).(cursor := target)
        decreases left
      {
        var row :| row in left;
        if sent[row].pos > target { kept := kept[row := sent[row]]; }
        left := left - {row};
      }
      sent := kept;
    }

    method BeginSweep(stable: int)
      modifies this`sweep
      ensures Model() == SweepBegun(old(Model()), stable)
      ensures sweep == if old(sweep).Some? then old(sweep) else Some(Sweep(cursor, readTo, stable))
    {
      if sweep.None? { sweep := Some(Sweep(cursor, readTo, stable)); }
    }

    method AdvanceReading(batch: FeedBatch)
      modifies this`readTo
      ensures Model() == ReadingAdvanced(old(Model()), batch)
      ensures readTo >= old(readTo) && readTo >= batch.readTo && readTo in {old(readTo), batch.readTo}
    {
      if batch.readTo > readTo { readTo := batch.readTo; }
    }

    /** Called when a sweep's batch was delivered. Returns true while unfinished. */
    method FinishSweepStep(batch: FeedBatch) returns (unfinished: bool)
      requires sweep.Some?
      modifies this
      ensures Model() == AfterSweepBatch(old(Model()), batch)
      ensures unfinished <==> sweep.Some?
      ensures unfinished <==> batch.truncated && batch.readTo < old(sweep).value.until
      ensures readTo == old(readTo)
      ensures unfinished ==> sweep == Some(old(sweep).value.(pos := batch.readTo)) && cursor == old(cursor) && sent == old(sent)
      ensures var w := old(sweep).value;
              !unfinished && w.stable > old(cursor) && w.until > old(cursor) ==>
                cursor <= w.stable && cursor <= w.until && cursor in {w.stable, w.until}
      ensures !unfinished && (old(sweep).value.stable <= old(cursor) || old(sweep).value.until <= old(cursor)) ==>
                cursor == old(cursor) && sent == old(sent)
    {
      var w := sweep.value.(pos := batch.readTo);
      if batch.truncated && w.pos < w.until {
        sweep := Some(w);
        return true;
      }
      sweep := None;
      MoveCursor(if w.stable < w.until then w.stable else w.until);
      return false;
    }
  }

  // ─── The feed and everything that happens to it ──────────────────────────────

  datatype Open = Open(record: FeedRow, takenAt: int)

  /** A read whose delivery is under way. */
  datatype Reading = Reading(forSweep: bool, from: int, rows: seq<FeedRow>, batch: FeedBatch)

  /** `known` are the records the peer took, declined or provided itself; `gone` those the sender
      was done with unsent, because the row no longer existed. Of these, `stuck` lost a write that
      was under way and kept its place. All of these and `start` exist for the specification. */
  datatype Feed = Feed(
    now: int, horizon: nat, next: int, open: map<int, Open>, registry: map<RowId, FeedRow>,
    samples: seq<Sample>, startup: int,
    progress: Progress, reading: Option<Reading>,
    start: int, known: set<FeedRow>, gone: set<FeedRow>, stuck: set<FeedRow>)

  datatype Step =
    | Tick(ms: nat)
    | Take(record: FeedRow)
    | Commit(pos: int)
    | Abort(pos: int)
    | NoteHead(head: int)
    | ReadMain(rows: seq<FeedRow>, truncated: bool)
    | BeginSweep
    | ReadSweep(rows: seq<FeedRow>, truncated: bool)
    | Delivered(settled: seq<FeedRow>, gone: set<FeedRow>, unsettled: seq<FeedRow>)
    | CallFailed
    | Restart(head: int)
    | Activate
    | Prune(row: RowId)

  function Stable(f: Feed): int
  {
    StableOf(f.samples, f.now - f.horizon, f.startup)
  }

  /** The query's answer: every record beyond `from`, up to the last row returned when the
      answer was cut off. */
  predicate Answers(f: Feed, from: int, rows: seq<FeedRow>, truncated: bool)
  {
    && (forall r | r in rows :: r.row in f.registry && f.registry[r.row] == r && r.pos > from)
    && (forall row | row in f.registry && from < f.registry[row].pos :: f.registry[row] in rows || (truncated && f.registry[row].pos > ReadToOf(from, rows)))
  }

  predicate BeingWritten(f: Feed, row: RowId)
  {
    exists p {:trigger p in f.open} :: p in f.open && f.open[p].record.row == row
  }

  /** The row of an entry was found missing when it was to be sent. Its deletion is recorded by now,
      be it as a change of its own, unless a transaction holds the record. */
  predicate IsGone(f: Feed, r: FeedRow)
  {
    !r.deleted && (r.row !in f.registry || f.registry[r.row] != r || BeingWritten(f, r.row))
  }

  predicate Enabled(f: Feed, step: Step)
  {
    match step
    // Every transaction ends within the horizon of taking its position.
    case Tick(ms) => forall p | p in f.open :: f.now + ms < f.open[p].takenAt + f.horizon
    case Take(record) => f.horizon > 0 && record.pos >= f.next && forall p | p in f.open :: f.open[p].record.row != record.row
    case Commit(pos) => pos in f.open
    case Abort(pos) => pos in f.open
    // The newest position some query up to now has seen.
    case NoteHead(head) => 0 <= head < f.next
    case ReadMain(rows, truncated) => f.reading.None? && Answers(f, f.progress.readTo, rows, truncated)
    case BeginSweep => f.reading.None? && f.progress.sweep.None?
    case ReadSweep(rows, truncated) =>
      f.reading.None? && f.progress.sweep.Some? && Answers(f, f.progress.sweep.value.pos, rows, truncated)
    case Delivered(settled, gone, unsettled) =>
      && f.reading.Some? && (f.reading.value.forSweep ==> f.progress.sweep.Some?)
      && multiset(settled) + multiset(unsettled) == multiset(f.reading.value.batch.entries)
      && forall r | r in gone :: r in settled && IsGone(f, r)
    case CallFailed => f.reading.Some?
    case Restart(head) => 0 <= head < f.next
    case Activate => f.reading.None?
    case Prune(row) => row in f.registry && f.registry[row].deleted && f.registry[row].pos <= f.progress.cursor
  }

  function Read(f: Feed, forSweep: bool, from: int, rows: seq<FeedRow>, truncated: bool): Feed
  {
    var batch := FeedBatch(EntriesOf(f.progress.sent, rows), ReadToOf(from, rows), truncated, SkippedOf(f.progress.sent, rows));
    f.(reading := Some(Reading(forSweep, from, rows, batch)))
  }

  function Elements(rows: seq<FeedRow>): set<FeedRow>
  {
    set r | r in rows
  }

  function Deliver(f: Feed, settled: seq<FeedRow>, gone: set<FeedRow>, unsettled: seq<FeedRow>): Feed
    requires f.reading.Some? && (f.reading.value.forSweep ==> f.progress.sweep.Some?)
  {
    var batch := f.reading.value.batch;
    var p := AfterDelivery(f.progress, batch, settled, unsettled);
    var q := if unsettled != [] then p
             else if f.reading.value.forSweep then AfterSweepBatch(p, batch)
             else ReadingAdvanced(p, batch);
    f.(reading := None, progress := q, known := f.known + (Elements(settled) - gone) + Elements(batch.skipped), gone := f.gone + gone)
  }

  function Apply(f: Feed, step: Step): Feed
    requires Enabled(f, step)
  {
    match step
    case Tick(ms) => f.(now := f.now + ms)
    case Take(record) => f.(open := f.open[record.pos := Open(record, f.now)], next := record.pos + 1)
    case Commit(pos) =>
      var r := f.open[pos].record;
      f.(open := f.open - {pos}, registry := f.registry[r.row := r])
    case Abort(pos) => f.(open := f.open - {pos}, stuck := f.stuck + (set r | r in f.gone && r.row == f.open[pos].record.row))
    case NoteHead(head) => f.(samples := f.samples + [Sample(f.now, head)])
    case ReadMain(rows, truncated) => Read(f, false, f.progress.readTo, rows, truncated)
    case BeginSweep =>
      f.(progress := SweepBegun(f.progress, Stable(f)))
    case ReadSweep(rows, truncated) => Read(f, true, f.progress.sweep.value.pos, rows, truncated)
    case Delivered(settled, gone, unsettled) => Deliver(f, settled, gone, unsettled)
    case CallFailed => f.(reading := None)
    // Open transactions are gone with the process; memory is rebuilt from the stored cursor.
    case Restart(head) =>
      f.(open := map[], samples := [], startup := head, progress := NewProgress(f.progress.cursor), reading := None,
         stuck := f.stuck + (set r | r in f.gone && BeingWritten(f, r.row)))
    // A link that is switched on starts at the stable position; older records are left to a
    // complete transfer.
    case Activate => f.(progress := NewProgress(Stable(f)), start := Stable(f))
    case Prune(row) => f.(registry := f.registry - {row})
  }

  // ─── The invariant ───────────────────────────────────────────────────────────

  /** An open transaction's position lies beyond everything ever treated as committed. */
  predicate OpenFine(f: Feed, p: int)
  {
    p in f.open ==>
      && f.open[p].record.pos == p && 0 < p < f.next
      && f.open[p].takenAt <= f.now < f.open[p].takenAt + f.horizon
      && f.progress.cursor < p && f.startup < p
      && (f.progress.sweep.Some? ==> f.progress.sweep.value.stable < p)
  }

  /** A row is locked by whoever writes it. */
  predicate WritersFine(f: Feed, p: int, q: int)
  {
    p in f.open && q in f.open && p != q ==> f.open[p].record.row != f.open[q].record.row
  }

  predicate SampleFine(f: Feed, p: int, s: Sample)
  {
    p in f.open && s in f.samples && p <= s.pos ==> f.open[p].takenAt <= s.at
  }

  /** The sender was done with this record, or with an earlier one of the row under its number. */
  predicate Covered(f: Feed, r: FeedRow)
  {
    exists d {:trigger Covers(d, r)} :: d in f.known + f.gone && Covers(d, r)
  }

  predicate Covers(d: FeedRow, r: FeedRow)
  {
    d.row == r.row && d.version == r.version && d.pos <= r.pos
  }

  predicate Passed(f: Feed, r: FeedRow)
  {
    r.readable && r.pos > f.start ==> Covered(f, r)
  }

  /** What the sender was done with is the row's present record or an earlier one. */
  predicate DoneFine(f: Feed, d: FeedRow)
  {
    d in f.known + f.gone ==>
      && d.pos < f.next && (d.row in f.registry ==> f.registry[d.row] == d || d.pos < f.registry[d.row].pos)
      && forall p | p in f.open && f.open[p].record.row == d.row :: d.pos < p
  }

  /** A record whose row was gone has left its place, unless a write of it was lost. */
  predicate GoneFine(f: Feed, d: FeedRow)
  {
    d in f.gone ==> !d.deleted && (d in f.stuck || IsGone(f, d))
  }

  /** A record is read for delivery only while it is the row's present one, so it stays the present
      or an earlier one. */
  predicate RowFine(f: Feed, r: FeedRow)
  {
    f.reading.Some? && (r in f.reading.value.batch.entries || r in f.reading.value.batch.skipped) ==>
      && r.pos < f.next && (r.row in f.registry ==> f.registry[r.row] == r || r.pos < f.registry[r.row].pos)
      && forall p | p in f.open && f.open[p].record.row == r.row :: r.pos < p
  }

  /** A record at or below the cursor is covered, or left to the complete transfer. */
  predicate CursorFine(f: Feed, row: RowId)
  {
    row in f.registry ==>
      && 0 < f.registry[row].pos < f.next && f.registry[row].row == row
      && (f.registry[row].pos <= f.progress.cursor ==> Passed(f, f.registry[row]))
      && forall p | p in f.open && f.open[p].record.row == row :: f.registry[row].pos < p
  }

  predicate SweepFine(f: Feed, row: RowId)
  {
    row in f.registry && f.progress.sweep.Some? ==>
      var w := f.progress.sweep.value;
      f.registry[row].pos <= w.pos && f.registry[row].pos <= w.stable ==> Passed(f, f.registry[row])
  }

  /** A committed record within the stable part that a sweep's read covers is part of it. */
  predicate ReadingFine(f: Feed, row: RowId)
  {
    row in f.registry && f.reading.Some? && f.reading.value.forSweep && f.progress.sweep.Some? ==>
      var r := f.registry[row];
      r.pos <= f.progress.sweep.value.stable && r.pos > f.reading.value.from ==>
        r in f.reading.value.rows || (f.reading.value.batch.truncated && r.pos > f.reading.value.batch.readTo)
  }

  predicate BatchFine(f: Feed)
  {
    f.reading.Some? ==>
      var g := f.reading.value;
      && (g.forSweep ==> f.progress.sweep.Some? && g.from == f.progress.sweep.value.pos)
      && g.batch.readTo == ReadToOf(g.from, g.rows)
      && (forall r | r in g.rows && r.readable ::
            r in g.batch.entries || r in g.batch.skipped || Covered(f, r))
  }

  predicate IsSentRecord(done: set<FeedRow>, row: RowId, sent: Sent)
  {
    exists d {:trigger d in done} :: d in done && d.row == row && Sent(d.version, d.pos) == sent
  }

  predicate SentFine(f: Feed, row: RowId)
  {
    row in f.progress.sent ==> IsSentRecord(f.known + f.gone, row, f.progress.sent[row])
  }

  ghost predicate Inv(f: Feed)
  {
    && (forall p {:trigger OpenFine(f, p)} :: OpenFine(f, p))
    && (forall p, q {:trigger WritersFine(f, p, q)} :: WritersFine(f, p, q))
    && (forall p, s {:trigger SampleFine(f, p, s)} :: SampleFine(f, p, s))
    && (forall s | s in f.samples :: s.at <= f.now && s.pos < f.next)
    && Sorted(f.samples)
    && 0 < f.next && f.startup < f.next && f.progress.cursor < f.next && f.start < f.next
    && (f.progress.sweep.Some? ==> f.progress.sweep.value.stable < f.next)
    && (forall row {:trigger CursorFine(f, row)} :: CursorFine(f, row))
    && (forall row {:trigger SweepFine(f, row)} :: SweepFine(f, row))
    && (forall row {:trigger ReadingFine(f, row)} :: ReadingFine(f, row))
    && (forall row {:trigger SentFine(f, row)} :: SentFine(f, row))
    && (forall d {:trigger DoneFine(f, d)} :: DoneFine(f, d))
    && (forall d {:trigger GoneFine(f, d)} :: GoneFine(f, d))
    && (forall r {:trigger RowFine(f, r)} :: RowFine(f, r))
    && BatchFine(f)
  }

  // ─── Proofs ──────────────────────────────────────────────────────────────────

  lemma {:induction false} EntriesAndSkipped(sent: map<RowId, Sent>, rows: seq<FeedRow>, r: FeedRow)
    ensures r in EntriesOf(sent, rows) <==> r in rows && r.readable && !Recognised(sent, r) && !r.theirs
    ensures r in SkippedOf(sent, rows) <==> r in rows && r.readable && !Recognised(sent, r) && r.theirs
  {
    if rows != [] {
      EntriesAndSkipped(sent, rows[..|rows| - 1], r);
      assert rows == rows[..|rows| - 1] + [rows[|rows| - 1]];
    }
  }

  /** In the order of their positions. */
  ghost predicate Ascending(rows: seq<FeedRow>)
  {
    forall i, j | 0 <= i < j < |rows| :: rows[i].pos < rows[j].pos
  }

  lemma {:induction false} SortedStaysAscending(sent: map<RowId, Sent>, rows: seq<FeedRow>)
    ensures Ascending(rows) ==> Ascending(EntriesOf(sent, rows)) && Ascending(SkippedOf(sent, rows))
  {
    if rows != [] && Ascending(rows) {
      var front, last := rows[..|rows| - 1], rows[|rows| - 1];
      SortedStaysAscending(sent, front);
      forall r | r in front ensures r.pos < last.pos {
        var k :| 0 <= k < |front| && front[k] == r;
        assert rows[k] == r;
      }
      forall r | r in EntriesOf(sent, front) || r in SkippedOf(sent, front) ensures r.pos < last.pos {
        EntriesAndSkipped(sent, front, r);
      }
      OneMoreAscending(EntriesOf(sent, front), last);
      OneMoreAscending(SkippedOf(sent, front), last);
    }
  }

  lemma OneMoreAscending(rows: seq<FeedRow>, last: FeedRow)
    requires Ascending(rows) && forall r | r in rows :: r.pos < last.pos
    ensures Ascending(rows + [last])
  {
  }

  lemma {:induction false} ReadToIsReached(from: int, rows: seq<FeedRow>)
    ensures ReadToOf(from, rows) == from || exists r :: r in rows && r.pos == ReadToOf(from, rows)
  {
    if rows != [] {
      var front, last := rows[..|rows| - 1], rows[|rows| - 1];
      assert rows == front + [last];
      ReadToIsReached(from, front);
      if ReadToOf(from, rows) == last.pos { assert last in rows; }
    }
  }

  /** After a delivery that left rows unsettled, each of them that is still the row's record is part of
      every complete answer to the next read. */
  lemma UnsettledIsReadAgain(f: Feed, settled: seq<FeedRow>, gone: set<FeedRow>, unsettled: seq<FeedRow>, rows: seq<FeedRow>, r: FeedRow)
    requires Enabled(f, Delivered(settled, gone, unsettled)) && r in unsettled
    requires var g := Apply(f, Delivered(settled, gone, unsettled));
             r.row in g.registry && g.registry[r.row] == r && Enabled(g, ReadMain(rows, false))
    ensures r in rows
  {
    DeliveryPullsBack(f.progress, f.reading.value.batch, settled, unsettled);
  }

  lemma {:induction false} ReadToCovers(from: int, rows: seq<FeedRow>, bound: int)
    ensures from <= ReadToOf(from, rows)
    ensures forall r | r in rows :: r.pos <= ReadToOf(from, rows)
    ensures from <= bound && (forall r | r in rows :: r.pos <= bound) ==> ReadToOf(from, rows) <= bound
  {
    if rows != [] {
      ReadToCovers(from, rows[..|rows| - 1], bound);
      assert rows == rows[..|rows| - 1] + [rows[|rows| - 1]];
    }
  }

  /** What is remembered of a row is an earlier note or one of the rows just noted. */
  lemma {:induction false} RememberedIsNoted(sent: map<RowId, Sent>, rows: seq<FeedRow>, row: RowId)
    requires row in Remembered(sent, rows)
    ensures || (row in sent && Remembered(sent, rows)[row] == sent[row])
            || IsSentRecord(Elements(rows), row, Remembered(sent, rows)[row])
  {
    if rows != [] {
      var front, last := rows[..|rows| - 1], rows[|rows| - 1];
      assert rows == front + [last];
      if row != last.row {
        RememberedIsNoted(sent, front, row);
        if IsSentRecord(Elements(front), row, Remembered(sent, rows)[row]) {
          var d :| d in Elements(front) && d.row == row && Sent(d.version, d.pos) == Remembered(sent, rows)[row];
          assert d in Elements(rows);
        }
      } else {
        assert last in Elements(rows);
      }
    }
  }

  /** Whatever is still uncommitted lies beyond the stable position. */
  lemma StableIsBelowOpen(f: Feed, p: int)
    requires Inv(f) && p in f.open
    ensures Stable(f) < p
  {
    assert OpenFine(f, p);
    forall s | s in f.samples && s.at <= f.now - f.horizon ensures s.pos < p {
      assert SampleFine(f, p, s);
    }
    OldSamplesBound(f.samples, f.now - f.horizon, f.startup, p);
  }

  lemma OldSamplesBound(samples: seq<Sample>, limit: int, start: int, bound: int)
    requires Sorted(samples) && start < bound
    requires forall s | s in samples && s.at <= limit :: s.pos < bound
    ensures StableOf(samples, limit, start) < bound
  {
    var i := StableIsNewestOldEnough(samples, limit, start);
  }

  lemma StableIsTaken(f: Feed)
    requires Inv(f)
    ensures Stable(f) < f.next
  {
    var i := StableIsNewestOldEnough(f.samples, f.now - f.horizon, f.startup);
  }

  lemma CoveredStays(f: Feed, g: Feed, r: FeedRow)
    requires f.known <= g.known && f.gone <= g.gone && Covered(f, r)
    ensures Covered(g, r)
  {
    var d :| d in f.known + f.gone && Covers(d, r);
    assert d in g.known + g.gone;
  }

  /** The batch in hand stays covered while nothing that covers it is lost. */
  lemma BatchStays(f: Feed, g: Feed)
    requires BatchFine(f) && g.reading == f.reading && f.known <= g.known && f.gone <= g.gone
    requires g.progress.sweep == f.progress.sweep
    ensures BatchFine(g)
  {
    if f.reading.Some? {
      var b := f.reading.value;
      forall r | r in b.rows && r.readable ensures r in b.batch.entries || r in b.batch.skipped || Covered(g, r) {
        if Covered(f, r) { CoveredStays(f, g, r); }
      }
    }
  }

  predicate IsFeedStep(step: Step)
  {
    step.Tick? || step.Take? || step.Abort? || step.NoteHead? || step.Prune?
  }

  lemma FeedStepKeepsOpen(f: Feed, step: Step)
    requires Inv(f) && Enabled(f, step) && IsFeedStep(step)
    ensures var g := Apply(f, step);
            && (forall p {:trigger OpenFine(g, p)} :: OpenFine(g, p))
            && (forall p, q {:trigger WritersFine(g, p, q)} :: WritersFine(g, p, q))
            && (forall p, s {:trigger SampleFine(g, p, s)} :: SampleFine(g, p, s))
  {
    var g := Apply(f, step);
    forall p ensures OpenFine(g, p) {
      assert OpenFine(f, p);
    }
    forall p, q ensures WritersFine(g, p, q) {
      assert WritersFine(f, p, q);
    }
    forall p, s ensures SampleFine(g, p, s) {
      assert SampleFine(f, p, s) && OpenFine(f, p);
    }
  }

  lemma FeedStepKeepsDone(f: Feed, step: Step)
    requires Inv(f) && Enabled(f, step) && IsFeedStep(step)
    ensures var g := Apply(f, step); forall d {:trigger DoneFine(g, d)} {:trigger GoneFine(g, d)} {:trigger RowFine(g, d)} ::
              DoneFine(g, d) && GoneFine(g, d) && RowFine(g, d)
  {
    var g := Apply(f, step);
    forall d ensures DoneFine(g, d) && GoneFine(g, d) && RowFine(g, d) {
      assert DoneFine(f, d) && GoneFine(f, d) && RowFine(f, d);
      if d in f.gone && BeingWritten(f, d.row) {
        var p :| p in f.open && f.open[p].record.row == d.row;
        assert OpenFine(f, p);
        assert (p in g.open && g.open[p].record.row == d.row) || d in g.stuck;
      }
    }
  }

  lemma FeedStepKeepsInv(f: Feed, step: Step)
    requires Inv(f) && Enabled(f, step) && IsFeedStep(step)
    ensures Inv(Apply(f, step))
  {
    var g := Apply(f, step);
    FeedStepKeepsOpen(f, step);
    FeedStepKeepsDone(f, step);
    forall row ensures CursorFine(g, row) && SweepFine(g, row) && ReadingFine(g, row) && SentFine(g, row) {
      assert CursorFine(f, row) && SweepFine(f, row) && ReadingFine(f, row) && SentFine(f, row);
    }
    BatchStays(f, g);
  }

  lemma CommitKeepsInv(f: Feed, pos: int)
    requires Inv(f) && Enabled(f, Commit(pos))
    ensures Inv(Apply(f, Commit(pos)))
  {
    var g := Apply(f, Commit(pos));
    assert OpenFine(f, pos);
    forall p ensures OpenFine(g, p) {
      assert OpenFine(f, p);
    }
    forall p, q ensures WritersFine(g, p, q) {
      assert WritersFine(f, p, q);
    }
    forall p, s ensures SampleFine(g, p, s) {
      assert SampleFine(f, p, s);
    }
    forall row ensures CursorFine(g, row) && SweepFine(g, row) && ReadingFine(g, row) && SentFine(g, row) {
      assert CursorFine(f, row) && SweepFine(f, row) && ReadingFine(f, row) && SentFine(f, row);
      forall p | p in g.open && g.open[p].record.row == row ensures row in g.registry ==> g.registry[row].pos < p {
        assert WritersFine(f, p, pos);
      }
    }
    forall d ensures DoneFine(g, d) && GoneFine(g, d) && RowFine(g, d) {
      assert DoneFine(f, d) && GoneFine(f, d) && RowFine(f, d);
      if d in f.gone && BeingWritten(f, d.row) {
        var p :| p in f.open && f.open[p].record.row == d.row;
        assert p in g.open || g.registry[d.row] != d;
      }
    }
    BatchStays(f, g);
  }

  lemma ReadKeepsInv(f: Feed, step: Step)
    requires Inv(f) && Enabled(f, step)
    requires step.BeginSweep? || step.CallFailed?
    ensures Inv(Apply(f, step))
  {
    var g := Apply(f, step);
    StableIsTaken(f);
    forall p ensures OpenFine(g, p) {
      assert OpenFine(f, p);
      if p in f.open { StableIsBelowOpen(f, p); }
    }
    forall p, q ensures WritersFine(g, p, q) {
      assert WritersFine(f, p, q);
    }
    forall p, s ensures SampleFine(g, p, s) {
      assert SampleFine(f, p, s);
    }
    forall row ensures CursorFine(g, row) && SweepFine(g, row) && ReadingFine(g, row) && SentFine(g, row) {
      assert CursorFine(f, row) && SweepFine(f, row) && ReadingFine(f, row) && SentFine(f, row);
    }
    forall d ensures DoneFine(g, d) && GoneFine(g, d) && RowFine(g, d) {
      assert DoneFine(f, d) && GoneFine(f, d) && RowFine(f, d);
    }
  }

  /** A record recognised by its number is covered. */
  lemma RecognisedIsCovered(f: Feed, r: FeedRow)
    requires Inv(f) && r.row in f.registry && f.registry[r.row] == r && Recognised(f.progress.sent, r)
    ensures Covered(f, r)
  {
    assert SentFine(f, r.row);
    var d :| d in f.known + f.gone && d.row == r.row && Sent(d.version, d.pos) == f.progress.sent[r.row];
    assert DoneFine(f, d) && Covers(d, r);
  }

  lemma QueryKeepsInv(f: Feed, forSweep: bool, from: int, rows: seq<FeedRow>, truncated: bool)
    requires Inv(f) && f.reading.None? && Answers(f, from, rows, truncated)
    requires forSweep ==> f.progress.sweep.Some? && from == f.progress.sweep.value.pos
    ensures Inv(Read(f, forSweep, from, rows, truncated))
  {
    var g := Read(f, forSweep, from, rows, truncated);
    forall p ensures OpenFine(g, p) {
      assert OpenFine(f, p);
    }
    forall p, q ensures WritersFine(g, p, q) {
      assert WritersFine(f, p, q);
    }
    forall p, s ensures SampleFine(g, p, s) {
      assert SampleFine(f, p, s);
    }
    forall row ensures CursorFine(g, row) && SweepFine(g, row) && ReadingFine(g, row) && SentFine(g, row) {
      assert CursorFine(f, row) && SweepFine(f, row) && SentFine(f, row);
    }
    forall d ensures DoneFine(g, d) && GoneFine(g, d) && RowFine(g, d) {
      assert DoneFine(f, d) && GoneFine(f, d);
      EntriesAndSkipped(f.progress.sent, rows, d);
      if d in rows { assert CursorFine(f, d.row); }
    }
    forall r | r in rows && r.readable ensures r in g.reading.value.batch.entries || r in g.reading.value.batch.skipped || Covered(g, r) {
      EntriesAndSkipped(f.progress.sent, rows, r);
      if Recognised(f.progress.sent, r) {
        RecognisedIsCovered(f, r);
        CoveredStays(f, g, r);
      }
    }
  }

  lemma ResetKeepsInv(f: Feed, step: Step)
    requires Inv(f) && Enabled(f, step)
    requires step.Restart? || step.Activate?
    ensures Inv(Apply(f, step))
  {
    var g := Apply(f, step);
    StableIsTaken(f);
    forall p ensures OpenFine(g, p) {
      assert OpenFine(f, p);
      if p in f.open { StableIsBelowOpen(f, p); }
    }
    forall p, q ensures WritersFine(g, p, q) {
      assert WritersFine(f, p, q);
    }
    forall p, s ensures SampleFine(g, p, s) {
      assert SampleFine(f, p, s);
    }
    forall row ensures CursorFine(g, row) && SweepFine(g, row) && ReadingFine(g, row) && SentFine(g, row) {
      assert CursorFine(f, row);
    }
    forall d ensures DoneFine(g, d) && GoneFine(g, d) && RowFine(g, d) {
      assert DoneFine(f, d) && GoneFine(f, d);
    }
  }

  /** After a delivery whatever is remembered is a record the sender was done with. */
  lemma DeliveryIsNoted(f: Feed, settled: seq<FeedRow>, gone: set<FeedRow>, unsettled: seq<FeedRow>, row: RowId)
    requires Inv(f) && Enabled(f, Delivered(settled, gone, unsettled))
    ensures SentFine(Deliver(f, settled, gone, unsettled), row)
  {
    var g := Deliver(f, settled, gone, unsettled);
    var batch := f.reading.value.batch;
    if row in g.progress.sent {
      var one := Remembered(f.progress.sent, settled);
      assert SentFine(f, row);
      assert Elements(settled) <= g.known + g.gone && Elements(batch.skipped) <= g.known;
      RememberedIsNoted(one, batch.skipped, row);
      if row in one { RememberedIsNoted(f.progress.sent, settled, row); }
    }
  }

  lemma SettledIsEntry(batch: FeedBatch, settled: seq<FeedRow>, unsettled: seq<FeedRow>, r: FeedRow)
    requires multiset(settled) + multiset(unsettled) == multiset(batch.entries)
    ensures r in settled || r in unsettled <==> r in batch.entries
  {
    assert r in multiset(settled) + multiset(unsettled) <==> r in multiset(batch.entries);
  }

  /** When every entry of a sweep's batch was settled, the stable part the read covered is passed. */
  lemma SweepBatchIsPassed(f: Feed, settled: seq<FeedRow>, gone: set<FeedRow>, row: RowId)
    requires Inv(f) && Enabled(f, Delivered(settled, gone, []))
    requires f.reading.value.forSweep && row in f.registry
    requires f.registry[row].pos <= f.progress.sweep.value.stable
    requires f.registry[row].pos <= f.reading.value.batch.readTo || !f.reading.value.batch.truncated
    ensures Passed(Deliver(f, settled, gone, []), f.registry[row])
    ensures f.registry[row].pos <= f.reading.value.batch.readTo
  {
    var r := f.registry[row];
    var g := f.reading.value;
    var after := Deliver(f, settled, gone, []);
    ReadToCovers(g.from, g.rows, g.from);
    assert SweepFine(f, row) && ReadingFine(f, row) && CursorFine(f, row);
    if Covered(f, r) {
      CoveredStays(f, after, r);
    } else if r.pos > g.from && r.readable {
      SettledIsEntry(g.batch, settled, [], r);
      assert r in after.known + after.gone && Covers(r, r);
    }
  }

  lemma DeliveredKeepsInv(f: Feed, settled: seq<FeedRow>, gone: set<FeedRow>, unsettled: seq<FeedRow>)
    requires Inv(f) && Enabled(f, Delivered(settled, gone, unsettled))
    ensures Inv(Deliver(f, settled, gone, unsettled))
  {
    var g := Deliver(f, settled, gone, unsettled);
    forall p ensures OpenFine(g, p) {
      assert OpenFine(f, p);
    }
    forall p, q ensures WritersFine(g, p, q) {
      assert WritersFine(f, p, q);
    }
    forall p, s ensures SampleFine(g, p, s) {
      assert SampleFine(f, p, s);
    }
    forall row ensures CursorFine(g, row) && SweepFine(g, row) && ReadingFine(g, row) && SentFine(g, row) {
      assert CursorFine(f, row) && SweepFine(f, row);
      DeliveryIsNoted(f, settled, gone, unsettled, row);
      if row in f.registry { RowStaysPassed(f, settled, gone, unsettled, row); }
    }
    forall d ensures DoneFine(g, d) && GoneFine(g, d) && RowFine(g, d) {
      assert DoneFine(f, d) && GoneFine(f, d) && RowFine(f, d);
      SettledIsEntry(f.reading.value.batch, settled, unsettled, d);
    }
  }

  /** What a delivery means for the row's present record, below the cursor and below the sweep. */
  lemma RowStaysPassed(f: Feed, settled: seq<FeedRow>, gone: set<FeedRow>, unsettled: seq<FeedRow>, row: RowId)
    requires Inv(f) && Enabled(f, Delivered(settled, gone, unsettled)) && row in f.registry
    ensures var g := Deliver(f, settled, gone, unsettled);
            (Passed(f, f.registry[row]) ==> Passed(g, f.registry[row])) && CursorFine(g, row) && SweepFine(g, row)
  {
    var g := Deliver(f, settled, gone, unsettled);
    var r := f.registry[row];
    assert CursorFine(f, row) && SweepFine(f, row);
    if Covered(f, r) { CoveredStays(f, g, r); }
    if unsettled == [] && f.reading.value.forSweep {
      var batch := f.reading.value.batch;
      if r.pos <= f.progress.sweep.value.stable && (r.pos <= batch.readTo || !batch.truncated) {
        SweepBatchIsPassed(f, settled, gone, row);
      }
    }
  }

  lemma StepKeepsInv(f: Feed, step: Step)
    requires Inv(f) && Enabled(f, step)
    ensures Inv(Apply(f, step))
  {
    match step
    case Tick(_) => FeedStepKeepsInv(f, step);
    case Take(_) => FeedStepKeepsInv(f, step);
    case Commit(pos) => CommitKeepsInv(f, pos);
    case Abort(_) => FeedStepKeepsInv(f, step);
    case NoteHead(_) => FeedStepKeepsInv(f, step);
    case Prune(_) => FeedStepKeepsInv(f, step);
    case ReadMain(rows, truncated) => QueryKeepsInv(f, false, f.progress.readTo, rows, truncated);
    case BeginSweep => ReadKeepsInv(f, step);
    case ReadSweep(rows, truncated) => QueryKeepsInv(f, true, f.progress.sweep.value.pos, rows, truncated);
    case CallFailed => ReadKeepsInv(f, step);
    case Delivered(settled, gone, unsettled) => DeliveredKeepsInv(f, settled, gone, unsettled);
    case Restart(_) => ResetKeepsInv(f, step);
    case Activate => ResetKeepsInv(f, step);
  }

  predicate Runnable(f: Feed, steps: seq<Step>)
    decreases |steps|
  {
    steps == [] || (Enabled(f, steps[0]) && Runnable(Apply(f, steps[0]), steps[1..]))
  }

  function Run(f: Feed, steps: seq<Step>): Feed
    requires Runnable(f, steps)
    decreases |steps|
  {
    if steps == [] then f else Run(Apply(f, steps[0]), steps[1..])
  }

  /** An empty feed whose peer is to receive everything from the beginning. */
  predicate Init(f: Feed)
  {
    && f.next > 0 && f.open == map[] && f.registry == map[] && f.samples == [] && f.startup == 0
    && f.progress == NewProgress(0) && f.reading.None? && f.start == 0 && f.known == {} && f.gone == {} && f.stuck == {}
  }

  lemma {:induction false} RunKeepsInv(f: Feed, steps: seq<Step>)
    requires Inv(f) && Runnable(f, steps)
    ensures Inv(Run(f, steps))
    decreases |steps|
  {
    if steps != [] {
      StepKeepsInv(f, steps[0]);
      RunKeepsInv(Apply(f, steps[0]), steps[1..]);
    }
  }

  /** An earlier record of the row has this one's number, and the sender was done with it: this one
      is taken for sent. */
  predicate TiesWithEarlier(f: Feed, r: FeedRow)
  {
    exists d {:trigger Covers(d, r)} :: d in f.known + f.gone && Covers(d, r) && d.pos < r.pos
  }

  /** The record's row is gone without a trace: the write that was to leave one was lost, or is not
      over. */
  predicate LostItsRow(f: Feed, r: FeedRow)
  {
    r in f.gone && !r.deleted && (r in f.stuck || BeingWritten(f, r.row))
  }

  /** In every run, with late commits, failed and rejected deliveries, rows gone before they are
      sent, and restarts: nothing uncommitted lies at or below the stored cursor, and a readable
      record there was taken, declined or provided by the peer itself, or lies in the part left to
      the transfer, unless it ties on the number with an earlier record of its row or its row is
      gone without a trace. */
  lemma CursorIsSafe(f: Feed, steps: seq<Step>)
    requires Init(f) && Runnable(f, steps)
    ensures forall p | p in Run(f, steps).open :: Run(f, steps).progress.cursor < p
    ensures var g := Run(f, steps);
            forall row | row in g.registry && g.registry[row].pos <= g.progress.cursor && g.registry[row].readable ::
              var r := g.registry[row];
              r.pos <= g.start || r in g.known || TiesWithEarlier(g, r) || LostItsRow(g, r)
  {
    RunKeepsInv(f, steps);
    var g := Run(f, steps);
    forall p | p in g.open ensures g.progress.cursor < p {
      assert OpenFine(g, p);
    }
    forall row | row in g.registry && g.registry[row].pos <= g.progress.cursor && g.registry[row].readable
      ensures var r := g.registry[row]; r.pos <= g.start || r in g.known || TiesWithEarlier(g, r) || LostItsRow(g, r)
    {
      PassedRecord(g, row);
    }
  }

  lemma PassedRecord(g: Feed, row: RowId)
    requires Inv(g) && row in g.registry && g.registry[row].pos <= g.progress.cursor && g.registry[row].readable
    ensures var r := g.registry[row]; r.pos <= g.start || r in g.known || TiesWithEarlier(g, r) || LostItsRow(g, r)
  {
    var r := g.registry[row];
    assert CursorFine(g, row);
    if r.pos > g.start {
      var d :| d in g.known + g.gone && Covers(d, r);
      assert DoneFine(g, d) && GoneFine(g, d);
    }
  }

  /** A deletion recorded since the link was switched on is pruned only after the peer took or
      declined it, unless it ties on the number with an earlier record of its row; a change recorded
      from now on belongs to that span. */
  lemma TombstoneOutlivesReader(f: Feed, steps: seq<Step>, row: RowId)
    requires Init(f) && Runnable(f, steps)
    ensures var g := Run(f, steps);
            && g.start < g.next
            && (Enabled(g, Prune(row)) && g.registry[row].pos > g.start && g.registry[row].readable
                ==> g.registry[row] in g.known || TiesWithEarlier(g, g.registry[row]))
  {
    RunKeepsInv(f, steps);
    var g := Run(f, steps);
    if Enabled(g, Prune(row)) && g.registry[row].readable { PassedRecord(g, row); }
  }

  /** The cursor moves down only when the link is switched on anew. */
  lemma CursorOnlyRises(f: Feed, step: Step)
    requires Enabled(f, step) && !step.Activate?
    ensures f.progress.cursor <= Apply(f, step).progress.cursor
  {
  }
}
