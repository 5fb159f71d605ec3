/** Applying a whole received package in one transaction, and the careful path that applies
    it row by row (src/cluster/applier.ts). */
module ApplyPackage {
  import opened Versions
  import opened RowStore

  datatype Letter = Applied | Stale | Held

  datatype Outcome = Outcome(db: Database, letter: Letter)

  /** One change in its own transaction. `Held` covers collisions and failed writes, which
      leave the database as it was. */
  function Attempt(schema: Schema, db: Database, item: Item): Outcome
  {
    if !Fresh(db, item) then Outcome(db, Stale)
    else if item.row.Some? && Collides(schema, db.rows, item.key, item.row.value) then Outcome(db, Held)
    else match WriteRow(schema, db.rows, item, item.key in db.rows)
      case None => Outcome(db, Held)
      case Some(rows) => Outcome(WriteVersion(db, rows, item), Applied)
  }

  // ─── What a change does ──────────────────────────────────────────────────────

  /** Some other row of the table holds all values of a unique index that `row` needs. */
  predicate IsTaken(schema: Schema, rows: Rows, key: Key, row: Row)
  {
    exists other, n {:trigger IsTakenBy(schema, rows, key, row, other, n)} | other in rows && 0 <= n < |Uniques(schema, key.table)| ::
      IsTakenBy(schema, rows, key, row, other, n)
  }

  predicate IsTakenBy(schema: Schema, rows: Rows, key: Key, row: Row, other: Key, n: nat)
    requires other in rows && n < |Uniques(schema, key.table)|
  {
    && other != key && other.table == key.table
    && forall c | c in Uniques(schema, key.table)[n] :: ValueOf(row, c).Some? && ValueOf(row, c) == ValueOf(rows[other], c)
  }

  predicate IsKeyOnly(schema: Schema, key: Key)
  {
    key.table in schema && schema[key.table].keyOnly
  }

  /** A successful write: the deletion of a row that was found, or the received content. An update of
      a row that is missing, or has nothing besides its key, writes nothing. */
  ghost predicate Wrote(schema: Schema, before: Rows, after: Rows, item: Item, present: bool)
  {
    match item.row
    case None => if present && item.key in before then Removed(before, after, item.key) else after == before
    case Some(row) =>
      if present && (item.key !in before || IsKeyOnly(schema, item.key)) then after == before
      else && item.key in after && after[item.key] == row
           && forall k | k != item.key :: (k in after <==> k in before) && (k in before ==> after[k] == before[k])
  }

  /** What a letter says of the database before and after. */
  ghost predicate Did(schema: Schema, before: Database, after: Database, item: Item, present: bool, letter: Letter)
  {
    if letter == Applied then
      && Wrote(schema, before.rows, after.rows, item, present)
      && after.versions == before.versions[item.key := Registered(item.version, item.row.None?, Some(item.from))]
    else after == before
  }

  /** The write of a newer row cannot be made: a unique value is taken or a parent is missing. */
  predicate CannotStore(schema: Schema, rows: Rows, item: Item)
  {
    item.row.Some?
    && (IsTaken(schema, rows, item.key, item.row.value)
        || (!ParentsPresent(rows, item.key, item.row.value) && !(item.key in rows && IsKeyOnly(schema, item.key))))
  }

  lemma TakenIsCollision(schema: Schema, rows: Rows, key: Key, row: Row)
    ensures IsTaken(schema, rows, key, row) <==> Collides(schema, rows, key, row)
  {
    if other, n :| other in rows && 0 <= n < |Uniques(schema, key.table)| && IsTakenBy(schema, rows, key, row, other, n) {
      assert Clash(Uniques(schema, key.table)[n], row, rows[other]);
      assert CollidesWith(schema, rows, key, row, other);
    }
    if other :| other in rows && CollidesWith(schema, rows, key, row, other) {
      var index :| index in Uniques(schema, key.table) && Clash(index, row, rows[other]);
      var n :| 0 <= n < |Uniques(schema, key.table)| && Uniques(schema, key.table)[n] == index;
      assert IsTakenBy(schema, rows, key, row, other, n);
    }
  }

  lemma WriteRowWrites(schema: Schema, rows: Rows, item: Item, present: bool)
    requires WriteRow(schema, rows, item, present).Some?
    ensures Wrote(schema, rows, WriteRow(schema, rows, item, present).value, item, present)
  {
    if item.row.None? && present && item.key in rows { DeleteRemoves(rows, item.key); }
  }

  /** One change by itself: stale exactly if it is not newer, held exactly if it is a newer row that
      cannot be stored, and then nothing changed; applied otherwise, with the received content. */
  lemma AttemptStores(schema: Schema, db: Database, item: Item)
    ensures var o := Attempt(schema, db, item);
            && Did(schema, db, o.db, item, item.key in db.rows, o.letter)
            && (o.letter == Stale <==> !IsNewer(item.version, LocalVersion(db, item.key)))
            && (o.letter == Held <==> IsNewer(item.version, LocalVersion(db, item.key)) && CannotStore(schema, db.rows, item))
  {
    var present := item.key in db.rows;
    if item.row.Some? { TakenIsCollision(schema, db.rows, item.key, item.row.value); }
    if WriteRow(schema, db.rows, item, present).Some? { WriteRowWrites(schema, db.rows, item, present); }
  }

  /** The same inside a package, with what was found out about the row before. */
  lemma StepStores(schema: Schema, db: Database, item: Item, present: bool)
    ensures var o := FastStep(schema, db, item, present);
            && (o.Some? ==> o.value.letter != Held && Did(schema, db, o.value.db, item, present, o.value.letter)
                            && (o.value.letter == Stale <==> !IsNewer(item.version, LocalVersion(db, item.key))))
            && (o.None? <==> IsNewer(item.version, LocalVersion(db, item.key)) && item.row.Some?
                             && (IsTaken(schema, db.rows, item.key, item.row.value) || (!present && item.key in db.rows)
                                 || (!ParentsPresent(db.rows, item.key, item.row.value)
                                     && !(present && (item.key !in db.rows || IsKeyOnly(schema, item.key))))))
  {
    if item.row.Some? { TakenIsCollision(schema, db.rows, item.key, item.row.value); }
    if WriteRow(schema, db.rows, item, present).Some? { WriteRowWrites(schema, db.rows, item, present); }
  }

  datatype Applying = Applying(db: Database, letters: seq<Letter>)

  /** The careful path over a list of changes. */
  function Careful(schema: Schema, db: Database, items: seq<Item>): (a: Applying)
    ensures |a.letters| == |items|
  {
    if items == [] then Applying(db, [])
    else
      var before := Careful(schema, db, items[..|items| - 1]);
      var o := Attempt(schema, before.db, items[|items| - 1]);
      Applying(o.db, before.letters + [o.letter])
  }

  /** One change inside the package transaction; None means the package falls back. */
  function FastStep(schema: Schema, db: Database, item: Item, present: bool): Option<Outcome>
  {
    if !Fresh(db, item) then Some(Outcome(db, Stale))
    else if item.row.Some? && Collides(schema, db.rows, item.key, item.row.value) then None
    else match WriteRow(schema, db.rows, item, present)
      case None => None
      case Some(rows) => Some(Outcome(WriteVersion(db, rows, item), Applied))
  }

  /** The package transaction: which rows exist is found out before anything is written. */
  function Fast(schema: Schema, db: Database, items: seq<Item>): (a: Option<Applying>)
    ensures a.Some? ==> |a.value.letters| == |items|
  {
    if items == [] then Some(Applying(db, []))
    else
      var item := items[|items| - 1];
      match Fast(schema, db, items[..|items| - 1])
      case None => None
      case Some(before) =>
        match FastStep(schema, before.db, item, item.key in db.rows)
        case None => None
        case Some(o) => Some(Applying(o.db, before.letters + [o.letter]))
  }

  /** The local database with the connection that applies received changes. */
  class Store {
    const schema: Schema
    var rows: Rows
    var versions: map<Key, Registered>

    function Db(): Database
      reads this
    {
      Database(rows, versions)
    }

    constructor (schema: Schema, db: Database)
      ensures Db() == db && this.schema == schema
    {
      this.schema, rows, versions := schema, db.rows, db.versions;
    }

    method AttemptWithin(item: Item) returns (letter: Letter)
      modifies this
      ensures Outcome(Db(), letter) == Attempt(schema, old(Db()), item)
      ensures Did(schema, old(Db()), Db(), item, item.key in old(rows), letter)
      ensures letter == Stale <==> !IsNewer(item.version, LocalVersion(old(Db()), item.key))
      ensures letter == Held <==> IsNewer(item.version, LocalVersion(old(Db()), item.key)) && CannotStore(schema, old(rows), item)
    {
      AttemptStores(schema, Db(), item);
      var present := item.key in rows;
      if !Fresh(Db(), item) { return Stale; }
      if item.row.Some? && Collides(schema, rows, item.key, item.row.value) { return Held; }
      var written := WriteRow(schema, rows, item, present);
      if written.None? { return Held; }
      rows := written.value;
      versions := versions[item.key := Registered(item.version, item.row.None?, Some(item.from))];
      letter := Applied;
    }

    /** Locks the rows of all items and notes which of them exist; gives up at one locked elsewhere. */
    method LockAndLook(items: seq<Item>, busy: set<Key>) returns (existing: Option<seq<bool>>)
      ensures existing.None? <==> exists i :: 0 <= i < |items| && items[i].key in busy
      ensures existing.Some? ==> |existing.value| == |items| && forall i :: 0 <= i < |items| ==> existing.value[i] == (items[i].key in rows)
    {
      var found: seq<bool> := [];
      var i := 0;
      while i < |items|
        invariant 0 <= i <= |items| && |found| == i
        invariant forall j :: 0 <= j < i ==> found[j] == (items[j].key in rows) && items[j].key !in busy
      {
        if items[i].key in busy { return None; }
        found := found + [items[i].key in rows];
        i := i + 1;
      }
      existing := Some(found);
    }

    /** All items in a single transaction, or none of them; `busy` are rows locked elsewhere. */
    method ApplyPackage(items: seq<Item>, busy: set<Key>) returns (results: Option<seq<Letter>>)
      modifies this
      ensures results.Some? ==> Fast(schema, old(Db()), items) == Some(Applying(Db(), results.value))
      ensures results.None? ==> Db() == old(Db())
      ensures results.None? <==> Fast(schema, old(Db()), items).None? || exists i :: 0 <= i < |items| && items[i].key in busy
      ensures results.Some? && NamedOnce(items) && DeletionsFirst(items) ==> AllShow(schema, old(rows), rows, items, results.value)
    {
      var savedRows, savedVersions := rows, versions;
      var found := LockAndLook(items, busy);
      if found.None? { return None; }
      var existing := found.value;
      var letters: seq<Letter> := [];
      var i := 0;
      while i < |items|
        invariant 0 <= i <= |items| && |letters| == i
        invariant Fast(schema, old(Db()), items[..i]) == Some(Applying(Db(), letters))
      {
        assert items[..i + 1][..i] == items[..i];
        var step := FastStep(schema, Db(), items[i], existing[i]);
        if step.None? {
          FastFailsEarly(schema, old(Db()), items, i + 1);
          rows, versions := savedRows, savedVersions;
          return None;
        }
        rows, versions := step.value.db.rows, step.value.db.versions;
        letters := letters + [step.value.letter];
        i := i + 1;
      }
      assert items[..|items|] == items;
      PackageShows(schema, old(Db()), items);
      results := Some(letters);
    }
  }

  lemma {:induction false} FastFailsEarly(schema: Schema, db: Database, items: seq<Item>, n: nat)
    requires n <= |items| && Fast(schema, db, items[..n]).None?
    ensures Fast(schema, db, items).None?
    decreases |items| - n
  {
    if n < |items| {
      assert items[..n + 1][..n] == items[..n];
      FastFailsEarly(schema, db, items, n + 1);
    } else {
      assert items[..n] == items;
    }
  }

  predicate NamedOnce(items: seq<Item>)
  {
    forall i, j :: 0 <= i < j < |items| ==> items[i].key != items[j].key
  }

  /** Deletions come before rows, as every package is sorted. */
  predicate DeletionsFirst(items: seq<Item>)
  {
    forall i, j :: 0 <= i < j < |items| && items[j].row.None? ==> items[i].row.None?
  }

  function Deletions(items: seq<Item>): (d: seq<Item>)
    ensures |d| <= |items|
  {
    if items == [] then []
    else if items[|items| - 1].row.None? then items
    else Deletions(items[..|items| - 1])
  }

  /** Row `i` of the package is to be stored, was there when the package began, and went with
      one of the package's own deletions. */
  predicate CascadedAway(schema: Schema, db: Database, items: seq<Item>, i: nat)
    requires i < |items|
  {
    && items[i].row.Some? && Fresh(db, items[i]) && items[i].key in db.rows
    && items[i].key !in Careful(schema, db, Deletions(items)).db.rows
  }

  ghost predicate SomeCascadedAway(schema: Schema, db: Database, items: seq<Item>)
  {
    exists i :: 0 <= i < |items| && CascadedAway(schema, db, items, i)
  }

  lemma DeletionsArePrefix(items: seq<Item>)
    requires DeletionsFirst(items)
    ensures Deletions(items) == items[..|Deletions(items)|]
    ensures forall i :: 0 <= i < |items| ==> (items[i].row.None? <==> i < |Deletions(items)|)
  {
    if items != [] && items[|items| - 1].row.Some? {
      DeletionsArePrefix(items[..|items| - 1]);
    }
  }

  lemma AttemptFrame(schema: Schema, db: Database, item: Item, k: Key)
    requires k != item.key
    ensures var o := Attempt(schema, db, item);
            && LocalVersion(o.db, k) == LocalVersion(db, k)
            && (k in o.db.rows ==> k in db.rows)
            && (item.row.Some? && k in db.rows ==> k in o.db.rows)
  {
  }

  lemma FastStepFrame(schema: Schema, db: Database, item: Item, present: bool, k: Key)
    requires k != item.key && item.row.Some? && FastStep(schema, db, item, present).Some?
    ensures k in FastStep(schema, db, item, present).value.db.rows <==> k in db.rows
  {
  }

  /** What the careful path has done after the first `n` items: versions of other rows are
      untouched, no row appears that was not listed, deletions only take rows away. */
  lemma {:induction false} CarefulFrame(schema: Schema, db: Database, items: seq<Item>, k: Key)
    requires forall i :: 0 <= i < |items| ==> items[i].key != k
    ensures LocalVersion(Careful(schema, db, items).db, k) == LocalVersion(db, k)
    ensures k in Careful(schema, db, items).db.rows ==> k in db.rows
    ensures (forall i :: 0 <= i < |items| ==> items[i].row.Some?) && k in db.rows ==> k in Careful(schema, db, items).db.rows
  {
    if items != [] {
      CarefulFrame(schema, db, items[..|items| - 1], k);
      AttemptFrame(schema, Careful(schema, db, items[..|items| - 1]).db, items[|items| - 1], k);
    }
  }

  lemma {:induction false} RowsAfterDeletionsStay(schema: Schema, db: Database, items: seq<Item>, k: Key)
    requires DeletionsFirst(items)
    requires forall i :: |Deletions(items)| <= i < |items| ==> items[i].key != k
    ensures k in Careful(schema, db, items).db.rows <==> k in Careful(schema, db, Deletions(items)).db.rows
  {
    if items != [] && items[|items| - 1].row.Some? {
      var n := |items| - 1;
      RowsAfterDeletionsStay(schema, db, items[..n], k);
      AttemptFrame(schema, Careful(schema, db, items[..n]).db, items[n], k);
    }
  }

  /** A row not cascaded away is there for the fast path's step if the careful path finds it. */
  lemma FoundAlike(schema: Schema, db: Database, items: seq<Item>, n: nat)
    requires n < |items| && NamedOnce(items) && DeletionsFirst(items) && items[n].row.Some? && Fresh(db, items[n])
    requires !CascadedAway(schema, db, items, n)
    ensures items[n].key in db.rows ==> items[n].key in Careful(schema, db, items[..n]).db.rows
  {
    DeletionsArePrefix(items);
    DeletionsOfPrefix(items, n);
    RowsAfterDeletionsStay(schema, db, items[..n], items[n].key);
  }

  /** As long as no row was cascaded away, the two paths are in the same state. */
  lemma AgreeOneMore(schema: Schema, db: Database, items: seq<Item>, n: nat)
    requires n < |items| && NamedOnce(items) && DeletionsFirst(items)
    requires Fast(schema, db, items[..n]) == Some(Careful(schema, db, items[..n]))
    requires Fast(schema, db, items[..n + 1]).Some? && !CascadedAway(schema, db, items, n)
    ensures Fast(schema, db, items[..n + 1]) == Some(Careful(schema, db, items[..n + 1]))
  {
    var item := items[n];
    assert items[..n + 1][..n] == items[..n];
    CarefulFrame(schema, db, items[..n], item.key);
    if item.row.Some? && Fresh(db, item) { FoundAlike(schema, db, items, n); }
  }

  lemma {:induction false} DeletionsOfPrefix(items: seq<Item>, n: nat)
    requires DeletionsFirst(items) && |Deletions(items)| <= n <= |items|
    ensures Deletions(items[..n]) == Deletions(items)
    decreases |items|
  {
    DeletionsArePrefix(items);
    if n < |items| {
      DeletionsOfPrefix(items[..|items| - 1], n);
      assert items[..|items| - 1][..n] == items[..n];
    } else {
      assert items[..n] == items;
    }
  }

  lemma {:induction false} AgreeUpTo(schema: Schema, db: Database, items: seq<Item>, n: nat)
    requires n <= |items| && NamedOnce(items) && DeletionsFirst(items) && Fast(schema, db, items).Some?
    requires forall i :: 0 <= i < n ==> !CascadedAway(schema, db, items, i)
    ensures Fast(schema, db, items[..n]) == Some(Careful(schema, db, items[..n]))
  {
    if n > 0 {
      AgreeUpTo(schema, db, items, n - 1);
      if Fast(schema, db, items[..n]).None? { FastFailsEarly(schema, db, items, n); }
      AgreeOneMore(schema, db, items, n - 1);
    }
  }

  /** After item `j` was cascaded away: the package has lost the row although it answered
      "applied", the careful path has stored it or said that it could not. */
  ghost predicate Apart(schema: Schema, db: Database, items: seq<Item>, j: nat, n: nat)
    requires j < n <= |items|
  {
    var fast, careful := Fast(schema, db, items[..n]), Careful(schema, db, items[..n]);
    fast.Some? ==>
      && items[j].key !in fast.value.db.rows && fast.value.letters[j] == Applied
      && (careful.letters[j] != Applied || items[j].key in careful.db.rows)
  }

  lemma CascadedAwayIsGone(schema: Schema, db: Database, items: seq<Item>, j: nat)
    requires j < |items| && NamedOnce(items) && DeletionsFirst(items) && CascadedAway(schema, db, items, j)
    ensures var c := Careful(schema, db, items[..j]).db; Fresh(c, items[j]) && items[j].key !in c.rows
  {
    CarefulFrame(schema, db, items[..j], items[j].key);
    DeletionsArePrefix(items);
    DeletionsOfPrefix(items, j);
    RowsAfterDeletionsStay(schema, db, items[..j], items[j].key);
  }

  lemma ApartAtOnce(schema: Schema, db: Database, items: seq<Item>, j: nat)
    requires j < |items| && NamedOnce(items) && DeletionsFirst(items) && Fast(schema, db, items).Some?
    requires CascadedAway(schema, db, items, j)
    requires forall i :: 0 <= i < j ==> !CascadedAway(schema, db, items, i)
    ensures Apart(schema, db, items, j, j + 1)
  {
    AgreeUpTo(schema, db, items, j);
    CascadedAwayIsGone(schema, db, items, j);
    assert items[..j + 1][..j] == items[..j];
    MissedUpdate(schema, Careful(schema, db, items[..j]).db, items[j]);
  }

  /** Updating a row that is gone succeeds without storing it; the careful path inserts it or
      reports that it cannot. */
  lemma MissedUpdate(schema: Schema, db: Database, item: Item)
    requires item.row.Some? && Fresh(db, item) && item.key !in db.rows
    ensures var fast := FastStep(schema, db, item, true);
            fast.Some? ==> item.key !in fast.value.db.rows && fast.value.letter == Applied
    ensures var o := Attempt(schema, db, item); o.letter != Applied || item.key in o.db.rows
  {
  }

  lemma OneMoreApart(schema: Schema, db: Database, items: seq<Item>, j: nat, n: nat)
    requires j < n < |items| && NamedOnce(items) && items[j].row.Some? && DeletionsFirst(items)
    requires Apart(schema, db, items, j, n)
    ensures Apart(schema, db, items, j, n + 1)
  {
    assert items[..n + 1][..n] == items[..n];
    var item := items[n];
    AttemptFrame(schema, Careful(schema, db, items[..n]).db, item, items[j].key);
    if Fast(schema, db, items[..n + 1]).Some? {
      FastStepFrame(schema, Fast(schema, db, items[..n]).value.db, item, item.key in db.rows, items[j].key);
    }
  }

  lemma {:induction false} StayApart(schema: Schema, db: Database, items: seq<Item>, j: nat, n: nat)
    requires j < n <= |items| && NamedOnce(items) && items[j].row.Some? && DeletionsFirst(items)
    requires Apart(schema, db, items, j, j + 1)
    ensures Apart(schema, db, items, j, n)
    decreases n
  {
    if n > j + 1 {
      StayApart(schema, db, items, j, n - 1);
      OneMoreApart(schema, db, items, j, n - 1);
    }
  }

  /** When a package succeeds, tables, registry and answers are those of the careful path,
      exactly unless one of the package's own deletions took a row it also stores. */
  lemma FastRefinesCareful(schema: Schema, db: Database, items: seq<Item>)
    requires NamedOnce(items) && DeletionsFirst(items) && Fast(schema, db, items).Some?
    ensures Fast(schema, db, items) == Some(Careful(schema, db, items)) <==> !SomeCascadedAway(schema, db, items)
  {
    var n := |items|;
    assert items[..n] == items;
    if SomeCascadedAway(schema, db, items) {
      var j := FirstCascadedAway(schema, db, items);
      ApartAtOnce(schema, db, items, j);
      StayApart(schema, db, items, j, n);
    } else {
      AgreeUpTo(schema, db, items, n);
    }
  }

  lemma FirstCascadedAway(schema: Schema, db: Database, items: seq<Item>) returns (j: nat)
    requires SomeCascadedAway(schema, db, items)
    ensures j < |items| && CascadedAway(schema, db, items, j)
    ensures forall i :: 0 <= i < j ==> !CascadedAway(schema, db, items, i)
  {
    j := 0;
    while !CascadedAway(schema, db, items, j)
      invariant j < |items| && forall i :: 0 <= i < j ==> !CascadedAway(schema, db, items, i)
      decreases |items| - j
    {
      if j + 1 == |items| { assert false; }
      j := j + 1;
    }
  }

  /** What an applied change left: its row with the received content, or no row for a deletion. Of a row
      that was there before, one without other columns keeps its content, and in a package one that went
      with a deletion of the package may be missing. */
  predicate Shows(schema: Schema, before: Rows, after: Rows, item: Item, letter: Letter)
  {
    letter == Applied ==>
      match item.row
      case None => item.key !in after
      case Some(row) =>
        || (item.key in after && after[item.key] == row)
        || (item.key in before && (item.key !in after || IsKeyOnly(schema, item.key)))
  }

  predicate AllShow(schema: Schema, before: Rows, after: Rows, items: seq<Item>, letters: seq<Letter>)
  {
    |letters| == |items| && forall i | 0 <= i < |items| :: Shows(schema, before, after, items[i], letters[i])
  }

  /** The careful path leaves no applied row out. */
  lemma {:induction false} CarefulShows(schema: Schema, db: Database, items: seq<Item>, i: nat)
    requires i < |items| && NamedOnce(items) && DeletionsFirst(items)
    ensures var a := Careful(schema, db, items);
            && Shows(schema, db.rows, a.db.rows, items[i], a.letters[i])
            && (a.letters[i] == Applied && items[i].row.Some? ==> items[i].key in a.db.rows)
  {
    var n := |items| - 1;
    var before := Careful(schema, db, items[..n]);
    AttemptStores(schema, before.db, items[n]);
    if i < n {
      CarefulShows(schema, db, items[..n], i);
      var o, present := Attempt(schema, before.db, items[n]), items[n].key in before.db.rows;
      OtherStays(schema, before.db, o.db, items[n], present, items[i].key, o.letter);
      ShowsStill(schema, db.rows, before.db, o.db, items[n], present, o.letter, items[i], before.letters[i]);
    } else {
      CarefulFrame(schema, db, items[..n], items[n].key);
    }
  }

  /** Another change keeps the row, or its absence. */
  lemma OtherStays(schema: Schema, before: Database, after: Database, item: Item, present: bool, k: Key, letter: Letter)
    requires Did(schema, before, after, item, present, letter) && k != item.key
    ensures k !in before.rows ==> k !in after.rows
    ensures item.row.Some? && k in before.rows ==> k in after.rows && after.rows[k] == before.rows[k]
  {
  }

  lemma {:induction false} StepShows(schema: Schema, db: Database, items: seq<Item>, i: nat)
    requires i < |items| && NamedOnce(items) && DeletionsFirst(items) && Fast(schema, db, items).Some?
    ensures var a := Fast(schema, db, items).value; Shows(schema, db.rows, a.db.rows, items[i], a.letters[i])
  {
    var n := |items| - 1;
    var before := Fast(schema, db, items[..n]).value;
    var present := items[n].key in db.rows;
    StepStores(schema, before.db, items[n], present);
    var step := FastStep(schema, before.db, items[n], present).value;
    if i < n {
      StepShows(schema, db, items[..n], i);
      ShowsStill(schema, db.rows, before.db, step.db, items[n], present, step.letter, items[i], before.letters[i]);
    } else {
      FastFrame(schema, db, items[..n], items[n].key);
      ShowsAtOnce(schema, db.rows, before.db, step.db, items[n], present, step.letter);
    }
  }

  lemma ShowsStill(schema: Schema, start: Rows, before: Database, after: Database, item: Item, present: bool, letter: Letter,
                   shown: Item, shownLetter: Letter)
    requires Did(schema, before, after, item, present, letter) && item.key != shown.key && (shown.row.Some? ==> item.row.Some?)
    requires Shows(schema, start, before.rows, shown, shownLetter)
    ensures Shows(schema, start, after.rows, shown, shownLetter)
  {
    OtherStays(schema, before, after, item, present, shown.key, letter);
  }

  lemma ShowsAtOnce(schema: Schema, start: Rows, before: Database, after: Database, item: Item, present: bool, letter: Letter)
    requires Did(schema, before, after, item, present, letter) && (present <==> item.key in start)
    requires item.key !in start ==> item.key !in before.rows
    ensures Shows(schema, start, after.rows, item, letter)
  {
  }

  lemma {:induction false} FastFrame(schema: Schema, db: Database, items: seq<Item>, k: Key)
    requires Fast(schema, db, items).Some? && forall i | 0 <= i < |items| :: items[i].key != k
    ensures k !in db.rows ==> k !in Fast(schema, db, items).value.db.rows
  {
    if items != [] {
      var n := |items| - 1;
      FastFrame(schema, db, items[..n], k);
      var before := Fast(schema, db, items[..n]).value;
      StepStores(schema, before.db, items[n], items[n].key in db.rows);
      var step := FastStep(schema, before.db, items[n], items[n].key in db.rows).value;
      OtherStays(schema, before.db, step.db, items[n], items[n].key in db.rows, k, step.letter);
    }
  }

  lemma PackageShows(schema: Schema, db: Database, items: seq<Item>)
    requires Fast(schema, db, items).Some?
    ensures var a := Fast(schema, db, items).value;
            NamedOnce(items) && DeletionsFirst(items) ==> AllShow(schema, db.rows, a.db.rows, items, a.letters)
  {
    if NamedOnce(items) && DeletionsFirst(items) {
      var a := Fast(schema, db, items).value;
      forall i | 0 <= i < |items| ensures Shows(schema, db.rows, a.db.rows, items[i], a.letters[i]) {
        StepShows(schema, db, items, i);
      }
    }
  }

  predicate LetterFits(letter: Letter, before: Database, after: Database, item: Item)
  {
    match letter
    case Applied => item.key in after.versions
                    && after.versions[item.key] == Registered(item.version, item.row.None?, Some(item.from))
    case Stale => !Fresh(after, item)
    case Held => LocalVersion(after, item.key) == LocalVersion(before, item.key)
  }

  lemma OwnLetterFits(schema: Schema, before: Database, db: Database, item: Item)
    requires LocalVersion(db, item.key) == LocalVersion(before, item.key)
    ensures var o := Attempt(schema, db, item); LetterFits(o.letter, before, o.db, item)
  {
  }

  lemma OtherLetterFits(schema: Schema, before: Database, db: Database, item: Item, letter: Letter, other: Item)
    requires LetterFits(letter, before, db, other) && other.key != item.key
    ensures LetterFits(letter, before, Attempt(schema, db, item).db, other)
  {
  }

  /** Every answered row ends at its received version: what was applied is registered as
      received, what was stale was at that version or above. */
  lemma {:induction false} AnswersMatchRegistry(schema: Schema, db: Database, items: seq<Item>, i: nat)
    requires i < |items| && NamedOnce(items)
    ensures var a := Careful(schema, db, items); LetterFits(a.letters[i], db, a.db, items[i])
  {
    var n := |items| - 1;
    var before := Careful(schema, db, items[..n]);
    if i < n {
      AnswersMatchRegistry(schema, db, items[..n], i);
      OtherLetterFits(schema, db, before.db, items[n], before.letters[i], items[i]);
    } else {
      CarefulFrame(schema, db, items[..n], items[n].key);
      OwnLetterFits(schema, db, before.db, items[n]);
    }
  }

  /** A package that deletes a parent and stores its child succeeds: the child is reported as
      applied although it went with the parent. */
  lemma CascadeExample(parent: Item, child: Item)
    requires parent.row.None? && child.row == Some(Row(map[], {}, map[])) && parent.key != child.key
    ensures var db := CascadeStart(parent.key, child.key);
            Fast(map[], db, [parent, child]).Some? && SomeCascadedAway(map[], db, [parent, child])
  {
    var db := CascadeStart(parent.key, child.key);
    var items := [parent, child];
    CascadeTakesChild(parent.key, child.key);
    assert items[..1] == [parent] && [parent][..0] == [];
    assert Fast(map[], db, []) == Some(Applying(db, [])) && Careful(map[], db, []) == Applying(db, []);
    assert Fast(map[], db, [parent]) == Some(Careful(map[], db, [parent]));
    assert Careful(map[], db, [parent]).db.rows == map[];
    assert Deletions(items) == Deletions([parent]) == [parent];
    assert CascadedAway(map[], db, items, 1);
  }

  function CascadeStart(parent: Key, child: Key): Database
  {
    Database(map[parent := Row(map[], {}, map[]), child := Row(map[], {parent}, map[])], map[])
  }

  lemma CascadeTakesChild(parent: Key, child: Key)
    requires parent != child
    ensures Delete(CascadeStart(parent, child).rows, parent) == map[]
  {
    var rows := CascadeStart(parent, child).rows;
    assert rows[child].cascades * {parent} == {parent};
    assert (set k | k in rows && k !in {parent} && rows[k].cascades * {parent} != {}) == {child};
    assert Dependents(rows, {parent}) == Dependents(rows, {parent} + {child});
  }
}
