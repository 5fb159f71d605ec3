/** Runs of one change feed in which the cursor passes a record its peer never heard of: a deletion
    with the number of an earlier change whose row was gone when it was to be sent, and a change
    whose row was gone while a transaction held its record. */
module HiddenDeletion {
  import opened Versions
  import opened FeedSamples
  import opened FeedCursor

  lemma {:induction false} RunExtends(f: Feed, steps: seq<Step>, step: Step)
    requires Runnable(f, steps) && Enabled(Run(f, steps), step)
    ensures Runnable(f, steps + [step]) && Run(f, steps + [step]) == Apply(Run(f, steps), step)
    decreases |steps|
  {
    if steps != [] {
      assert (steps + [step])[1..] == steps[1..] + [step];
      RunExtends(Apply(f, steps[0]), steps[1..], step);
    } else {
      assert [] + [step] == [step] && [step][1..] == [];
    }
  }

  ghost predicate Leads(f: Feed, g: Feed)
  {
    exists steps :: Runnable(f, steps) && Run(f, steps) == g
  }

  lemma LeadsOn(f: Feed, g: Feed, step: Step, h: Feed)
    requires Leads(f, g) && Enabled(g, step) && Apply(g, step) == h
    ensures Leads(f, h)
  {
    var steps :| Runnable(f, steps) && Run(f, steps) == g;
    RunExtends(f, steps, step);
  }

  /** One row, changed and then deleted under one version number. */
  datatype Example = Example(row: RowId, version: int, horizon: nat)
  {
    function Live(): FeedRow { FeedRow(row, version, 1, false, true, false) }
    function Deletion(): FeedRow { FeedRow(row, version, 2, false, true, true) }

    function Start(): Feed
    {
      Feed(0, horizon, 1, map[], map[], [], 0, NewProgress(0), None, 0, {}, {}, {})
    }

    /** The change is committed. */
    function Changed(): Feed { Start().(next := 2, registry := map[row := Live()]) }

    function ReadOnce(): Feed { Changed().(reading := Some(Reading(false, 0, [Live()], FeedBatch([Live()], 1, false, [])))) }

    /** Before it is sent the deletion is committed. */
    function Deleted(): Feed { ReadOnce().(next := 3, registry := map[row := Deletion()]) }

    /** The row is gone: the sender is done with the change and remembers its number. */
    function Skipped(): Feed
    {
      Deleted().(reading := None, progress := Progress(0, 1, map[row := Sent(version, 1)], None), gone := {Live()})
    }

    /** The deletion is taken for sent. */
    function ReadAgain(): Feed { Skipped().(reading := Some(Reading(false, 1, [Deletion()], FeedBatch([], 2, false, [])))) }

    function Quiet(): Feed
    {
      Skipped().(progress := Progress(0, 2, map[row := Sent(version, 1)], None), samples := [Sample(0, 2)], now := horizon)
    }

    function Sweeping(): Feed { Quiet().(progress := Quiet().progress.(sweep := Some(Sweep(0, 2, 2)))) }

    function SweepRead(): Feed { Sweeping().(reading := Some(Reading(true, 0, [Deletion()], FeedBatch([], 2, false, [])))) }

    /** The sweep moved the cursor past it. */
    function Passed(): Feed { Quiet().(progress := Progress(2, 2, map[], None)) }

    lemma Starts()
      requires horizon > 0
      ensures Init(Start()) && Leads(Start(), Start())
    {
      assert Runnable(Start(), []) && Run(Start(), []) == Start();
    }

    lemma ChangeCommits()
      requires horizon > 0 && Leads(Start(), Start())
      ensures Leads(Start(), Changed())
    {
      var taken := Apply(Start(), Take(Live()));
      LeadsOn(Start(), Start(), Take(Live()), taken);
      assert Apply(taken, Commit(1)) == Changed();
      LeadsOn(Start(), taken, Commit(1), Changed());
    }

    lemma ChangeIsRead()
      requires Leads(Start(), Changed())
      ensures Leads(Start(), ReadOnce())
    {
      OneEntry(map[], Live());
      assert Answers(Changed(), 0, [Live()], false);
      LeadsOn(Start(), Changed(), ReadMain([Live()], false), ReadOnce());
    }

    lemma OneEntry(sent: map<RowId, Sent>, r: FeedRow)
      requires r.readable && !r.theirs
      ensures EntriesOf(sent, [r]) == (if Recognised(sent, r) then [] else [r]) && SkippedOf(sent, [r]) == []
      ensures forall from | from <= r.pos :: ReadToOf(from, [r]) == r.pos
    {
      assert [r][..0] == [];
    }

    lemma DeletionCommits()
      requires horizon > 0 && Leads(Start(), ReadOnce())
      ensures Leads(Start(), Deleted())
    {
      var taken := Apply(ReadOnce(), Take(Deletion()));
      LeadsOn(Start(), ReadOnce(), Take(Deletion()), taken);
      assert Apply(taken, Commit(2)) == Deleted();
      LeadsOn(Start(), taken, Commit(2), Deleted());
    }

    lemma ChangeIsSkipped()
      requires Leads(Start(), Deleted())
      ensures Leads(Start(), Skipped())
    {
      var step := Delivered([Live()], {Live()}, []);
      assert [Live()][..0] == [];
      assert Remembered(map[], [Live()]) == map[row := Sent(version, 1)];
      assert multiset([Live()]) + multiset([]) == multiset([Live()]);
      assert Apply(Deleted(), step) == Skipped() by {
        assert Elements([Live()]) - {Live()} == {};
      }
      LeadsOn(Start(), Deleted(), step, Skipped());
    }

    lemma DeletionIsRead()
      requires Leads(Start(), Skipped())
      ensures Leads(Start(), ReadAgain())
    {
      OneEntry(Skipped().progress.sent, Deletion());
      assert Answers(Skipped(), 1, [Deletion()], false);
      LeadsOn(Start(), Skipped(), ReadMain([Deletion()], false), ReadAgain());
    }

    lemma DeletionIsRecognised()
      requires Leads(Start(), ReadAgain())
      ensures Leads(Start(), Quiet())
    {
      var read := Skipped().(progress := Progress(0, 2, map[row := Sent(version, 1)], None));
      assert Apply(ReadAgain(), Delivered([], {}, [])) == read;
      LeadsOn(Start(), ReadAgain(), Delivered([], {}, []), read);
      var noted := read.(samples := [Sample(0, 2)]);
      LeadsOn(Start(), read, NoteHead(2), noted);
      LeadsOn(Start(), noted, Tick(horizon), Quiet());
    }

    lemma SweepBegins()
      requires Leads(Start(), Quiet())
      ensures Leads(Start(), Sweeping())
    {
      assert Stable(Quiet()) == 2 by { assert [Sample(0, 2)][1..] == []; }
      LeadsOn(Start(), Quiet(), BeginSweep, Sweeping());
    }

    lemma SweepReads()
      requires Leads(Start(), Sweeping())
      ensures Leads(Start(), SweepRead())
    {
      OneEntry(Sweeping().progress.sent, Deletion());
      assert Answers(Sweeping(), 0, [Deletion()], false);
      LeadsOn(Start(), Sweeping(), ReadSweep([Deletion()], false), SweepRead());
    }

    lemma CursorMovesOn()
      requires Leads(Start(), SweepRead())
      ensures Leads(Start(), Passed())
    {
      assert Apply(SweepRead(), Delivered([], {}, [])) == Passed();
      LeadsOn(Start(), SweepRead(), Delivered([], {}, []), Passed());
    }

    /** The deletion lies at the cursor and may be pruned, and the peer has neither it nor the
        change before it. */
    lemma TieHidesDeletion() returns (f: Feed, g: Feed)
      requires horizon > 0
      ensures Init(f) && Leads(f, g)
      ensures row in g.registry && g.registry[row].deleted && g.registry[row].pos > g.start && g.registry[row].pos <= g.progress.cursor
      ensures Enabled(g, Prune(row)) && g.known == {}
    {
      Starts();
      ChangeCommits();
      ChangeIsRead();
      DeletionCommits();
      ChangeIsSkipped();
      DeletionIsRead();
      DeletionIsRecognised();
      SweepBegins();
      SweepReads();
      CursorMovesOn();
      f, g := Start(), Passed();
    }

    // ─── A row that is gone without a trace ──────────────────────────────────

    /** While the change waits to be sent, a transaction holds the row's record. */
    function Busy(): Feed { ReadOnce().(next := 3, open := map[2 := Open(Deletion(), 0)]) }

    /** The row is missing and its record locked: the sender is done with the change all the same. */
    function Missed(): Feed
    {
      Busy().(reading := None, progress := Progress(0, 1, map[row := Sent(version, 1)], None), gone := {Live()})
    }

    /** The transaction is undone. */
    function Undone(): Feed { Missed().(open := map[], stuck := {Live()}) }

    function Still(): Feed { Undone().(samples := [Sample(0, 2)], now := horizon) }

    function Swept(): Feed { Still().(progress := Still().progress.(sweep := Some(Sweep(0, 1, 2)))) }

    function SweptRead(): Feed { Swept().(reading := Some(Reading(true, 0, [Live()], FeedBatch([], 1, false, [])))) }

    function Over(): Feed { Still().(progress := Progress(1, 1, map[], None)) }

    lemma RecordIsLocked()
      requires horizon > 0 && Leads(Start(), ReadOnce())
      ensures Leads(Start(), Busy())
    {
      assert Apply(ReadOnce(), Take(Deletion())) == Busy();
      LeadsOn(Start(), ReadOnce(), Take(Deletion()), Busy());
    }

    lemma ChangeIsMissed()
      requires Leads(Start(), Busy())
      ensures Leads(Start(), Missed())
    {
      var step := Delivered([Live()], {Live()}, []);
      assert Busy().open[2].record.row == row;
      assert [Live()][..0] == [];
      assert Remembered(map[], [Live()]) == map[row := Sent(version, 1)];
      assert multiset([Live()]) + multiset([]) == multiset([Live()]);
      assert Apply(Busy(), step) == Missed() by {
        assert Elements([Live()]) - {Live()} == {};
      }
      LeadsOn(Start(), Busy(), step, Missed());
    }

    lemma WriteIsUndone()
      requires horizon > 0 && Leads(Start(), Missed())
      ensures Leads(Start(), Still())
    {
      assert Apply(Missed(), Abort(2)) == Undone();
      LeadsOn(Start(), Missed(), Abort(2), Undone());
      var noted := Undone().(samples := [Sample(0, 2)]);
      LeadsOn(Start(), Undone(), NoteHead(2), noted);
      LeadsOn(Start(), noted, Tick(horizon), Still());
    }

    lemma SweepStarts()
      requires Leads(Start(), Still())
      ensures Leads(Start(), Swept())
    {
      assert Stable(Still()) == 2 by { assert [Sample(0, 2)][1..] == []; }
      LeadsOn(Start(), Still(), BeginSweep, Swept());
    }

    lemma SweepRecognisesIt()
      requires Leads(Start(), Swept())
      ensures Leads(Start(), SweptRead())
    {
      OneEntry(Swept().progress.sent, Live());
      assert Answers(Swept(), 0, [Live()], false);
      LeadsOn(Start(), Swept(), ReadSweep([Live()], false), SweptRead());
    }

    /** The change lies at the cursor as the row's present record, the peer never had it, and no
        earlier record of the row is to blame. */
    lemma UndoneWriteHidesGoneRow() returns (f: Feed, g: Feed)
      requires horizon > 0
      ensures Init(f) && Leads(f, g)
      ensures row in g.registry && !g.registry[row].deleted && g.start < g.registry[row].pos <= g.progress.cursor
      ensures g.known == {} && !TiesWithEarlier(g, g.registry[row]) && LostItsRow(g, g.registry[row])
    {
      Starts();
      ChangeCommits();
      ChangeIsRead();
      RecordIsLocked();
      ChangeIsMissed();
      WriteIsUndone();
      SweepStarts();
      SweepRecognisesIt();
      assert Apply(SweptRead(), Delivered([], {}, [])) == Over();
      LeadsOn(Start(), SweptRead(), Delivered([], {}, []), Over());
      f, g := Start(), Over();
    }
  }
}
