/** A group of rows that are in each other's way: one transaction parks them under throw-away
    values and then writes what was received (src/cluster/applier.ts). */
module ParkAndSwap {
  import opened Versions
  import opened RowStore
  import opened ApplyPackage

  /** The throw-away value drawn for the n-th unique index of a row. */
  type Draw = (Key, nat) -> string

  /** The first column of the index that may hold a throw-away value. */
  function ParkingColumn(table: Table, index: Index): (c: Option<string>)
    ensures c.Some? ==> c.value in index
  {
    if index == [] then None
    else if index[0] !in table.pk && index[0] !in table.fkColumns && index[0] in table.parkable then Some(index[0])
    else ParkingColumn(table, index[1..])
  }

  /** A column that may hold a throw-away value: not of the key, not a reference, of a fitting type. */
  predicate IsUsable(table: Table, column: string)
  {
    !(column in table.pk) && !(column in table.fkColumns) && column in table.parkable
  }

  lemma {:induction false} ParkingColumnIsFirst(table: Table, index: Index)
    ensures match ParkingColumn(table, index)
            case None => forall k | 0 <= k < |index| :: !IsUsable(table, index[k])
            case Some(c) => exists k | 0 <= k < |index| :: index[k] == c && IsUsable(table, c) && forall j | 0 <= j < k :: !IsUsable(table, index[j])
  {
    if index != [] && !IsUsable(table, index[0]) {
      ParkingColumnIsFirst(table, index[1..]);
      assert forall k | 0 < k < |index| :: index[k] == index[1..][k - 1];
      if ParkingColumn(table, index[1..]).Some? {
        var c := ParkingColumn(table, index[1..]).value;
        var k :| 0 <= k < |index[1..]| && index[1..][k] == c && forall j | 0 <= j < k :: !IsUsable(table, index[1..][j]);
        assert index[k + 1] == c;
      }
    }
  }

  function ColumnFor(schema: Schema, table: string, n: nat): (c: Option<string>)
    requires n < |Uniques(schema, table)|
    ensures c.Some? ==> c.value in Uniques(schema, table)[n]
  {
    if table in schema then ParkingColumn(schema[table], Uniques(schema, table)[n]) else None
  }

  /** `NoColumn` is the early return in the middle of the transaction, which then commits. */
  datatype Parking = Going(rows: Rows) | NoColumn(rows: Rows) | Thrown

  function SetColumn(schema: Schema, rows: Rows, key: Key, column: string, value: string): Option<Rows>
    requires key in rows
  {
    Put(schema, rows, key, rows[key].(values := rows[key].values[column := Some(value)]))
  }

  /** Parks one row in its first `n` unique indexes. */
  function ParkRow(schema: Schema, rows: Rows, key: Key, n: nat, draw: Draw): (p: Parking)
    requires key in rows && n <= |Uniques(schema, key.table)|
    ensures p.Going? || p.NoColumn? ==> p.rows.Keys == rows.Keys
  {
    if n == 0 then Going(rows)
    else match ParkRow(schema, rows, key, n - 1, draw)
      case Going(before) =>
        (match ColumnFor(schema, key.table, n - 1)
         case None => NoColumn(before)
         case Some(column) =>
           match SetColumn(schema, before, key, column, draw(key, n - 1))
           case None => Thrown
           case Some(after) => Going(after))
      case stopped => stopped
  }

  /** Parks every member that exists. */
  function ParkGroup(schema: Schema, rows: Rows, group: seq<Item>, draw: Draw): (p: Parking)
    ensures p.Going? || p.NoColumn? ==> p.rows.Keys == rows.Keys
  {
    if group == [] then Going(rows)
    else
      var key := group[|group| - 1].key;
      match ParkGroup(schema, rows, group[..|group| - 1], draw)
      case Going(before) =>
        if key in rows then ParkRow(schema, before, key, |Uniques(schema, key.table)|, draw) else Going(before)
      case stopped => stopped
  }

  /** Gives every member its received values. */
  function WriteGroup(schema: Schema, rows: Rows, present: set<Key>, group: seq<Item>): Option<Rows>
  {
    if group == [] then Some(rows)
    else
      var item := group[|group| - 1];
      match WriteGroup(schema, rows, present, group[..|group| - 1])
      case None => None
      case Some(before) => WriteRow(schema, before, item, item.key in present)
  }

  function Registrations(versions: map<Key, Registered>, group: seq<Item>): map<Key, Registered>
  {
    if group == [] then versions
    else
      var item := group[|group| - 1];
      Registrations(versions, group[..|group| - 1])[item.key := Registered(item.version, item.row.None?, Some(item.from))]
  }

  predicate AllFresh(db: Database, group: seq<Item>)
  {
    forall i :: 0 <= i < |group| ==> Fresh(db, group[i])
  }

  datatype GroupOutcome = GroupOutcome(db: Database, applied: bool)

  function GroupResult(schema: Schema, db: Database, group: seq<Item>, draw: Draw): GroupOutcome
  {
    if !AllFresh(db, group) then GroupOutcome(db, false)
    else match ParkGroup(schema, db.rows, group, draw)
      case Thrown => GroupOutcome(db, false)
      case NoColumn(rows) => GroupOutcome(Database(rows, db.versions), false)
      case Going(parked) =>
        match WriteGroup(schema, parked, db.rows.Keys, group)
        case None => GroupOutcome(db, false)
        case Some(rows) => GroupOutcome(Database(rows, Registrations(db.versions, group)), true)
  }

  datatype Ending = Finished | Returned | Threw

  /** How the statements end, and with which rows unless one of them threw. */
  predicate EndsAs(p: Parking, ending: Ending, rows: Rows)
  {
    match p
    case Going(parked) => ending == Finished && rows == parked
    case NoColumn(parked) => ending == Returned && rows == parked
    case Thrown => ending == Threw
  }

  lemma ParkOneIndexMore(schema: Schema, rows: Rows, key: Key, n: nat, draw: Draw, parked: Rows)
    requires key in rows && n < |Uniques(schema, key.table)| && ParkRow(schema, rows, key, n, draw) == Going(parked)
    ensures ParkRow(schema, rows, key, n + 1, draw) ==
            match ColumnFor(schema, key.table, n)
            case None => NoColumn(parked)
            case Some(column) =>
              match SetColumn(schema, parked, key, column, draw(key, n))
              case None => Thrown
              case Some(after) => Going(after)
  {
  }

  /** Parks one existing row, one statement per unique index. */
  method ParkOne(store: Store, key: Key, draw: Draw) returns (ending: Ending)
    requires key in store.rows
    modifies store`rows
    ensures EndsAs(ParkRow(store.schema, old(store.rows), key, |Uniques(store.schema, key.table)|, draw), ending, store.rows)
  {
    var schema := store.schema;
    ghost var before := store.rows;
    var n := 0;
    while n < |Uniques(schema, key.table)|
      invariant 0 <= n <= |Uniques(schema, key.table)|
      invariant ParkRow(schema, before, key, n, draw) == Going(store.rows)
    {
      ParkOneIndexMore(schema, before, key, n, draw, store.rows);
      var column := ColumnFor(schema, key.table, n);
      if column.None? {
        ParkRowStops(schema, before, key, n + 1, draw);
        return Returned;
      }
      var updated := SetColumn(schema, store.rows, key, column.value, draw(key, n));
      if updated.None? {
        ParkRowStops(schema, before, key, n + 1, draw);
        return Threw;
      }
      store.rows := updated.value;
      n := n + 1;
    }
    ending := Finished;
  }

  method ParkMembers(store: Store, group: seq<Item>, draw: Draw) returns (ending: Ending)
    modifies store`rows
    ensures EndsAs(ParkGroup(store.schema, old(store.rows), group, draw), ending, store.rows)
  {
    var schema, saved := store.schema, store.rows;
    var i := 0;
    while i < |group|
      invariant 0 <= i <= |group|
      invariant ParkGroup(schema, saved, group[..i], draw) == Going(store.rows)
    {
      assert group[..i + 1][..i] == group[..i];
      if group[i].key in saved {
        ending := ParkOne(store, group[i].key, draw);
        if ending != Finished {
          ParkGroupStops(schema, saved, group, i + 1, draw);
          return;
        }
      }
      i := i + 1;
    }
    assert group[..|group|] == group;
    ending := Finished;
  }

  method WriteMembers(store: Store, present: set<Key>, group: seq<Item>) returns (ok: bool)
    modifies store
    ensures match WriteGroup(store.schema, old(store.rows), present, group)
            case None => !ok
            case Some(rows) => ok && store.rows == rows && store.versions == Registrations(old(store.versions), group)
  {
    var schema := store.schema;
    ghost var parked, versions := store.rows, store.versions;
    var i := 0;
    while i < |group|
      invariant 0 <= i <= |group|
      invariant WriteGroup(schema, parked, present, group[..i]) == Some(store.rows)
      invariant store.versions == Registrations(versions, group[..i])
    {
      assert group[..i + 1][..i] == group[..i];
      var item := group[i];
      var written := WriteRow(schema, store.rows, item, item.key in present);
      if written.None? {
        WriteGroupStops(schema, parked, present, group, i + 1);
        return false;
      }
      store.rows := written.value;
      store.versions := store.versions[item.key := Registered(item.version, item.row.None?, Some(item.from))];
      i := i + 1;
    }
    assert group[..|group|] == group;
    ok := true;
  }

  /** The transaction. A failing statement throws and rolls everything back; a missing parking
      column returns in the middle, and what was parked before stays. */
  method ApplyGroup(store: Store, group: seq<Item>, draw: Draw) returns (applied: bool)
    modifies store
    ensures GroupOutcome(store.Db(), applied) == GroupResult(store.schema, old(store.Db()), group, draw)
    ensures (exists i | 0 <= i < |group| :: !IsNewer(group[i].version, LocalVersion(old(store.Db()), group[i].key))) ==>
              !applied && store.Db() == old(store.Db())
  {
    var savedRows, savedVersions := store.rows, store.versions;
    var i := 0;
    while i < |group|
      invariant 0 <= i <= |group| && store.Db() == old(store.Db())
      invariant forall j :: 0 <= j < i ==> Fresh(old(store.Db()), group[j])
    {
      if !Fresh(store.Db(), group[i]) { return false; }
      i := i + 1;
    }
    var ending := ParkMembers(store, group, draw);
    if ending == Returned { return false; }
    if ending == Finished {
      applied := WriteMembers(store, savedRows.Keys, group);
      if applied { return; }
    }
    store.rows, store.versions := savedRows, savedVersions;
    applied := false;
  }

  lemma {:induction false} ParkRowStops(schema: Schema, rows: Rows, key: Key, n: nat, draw: Draw)
    requires key in rows && n <= |Uniques(schema, key.table)| && !ParkRow(schema, rows, key, n, draw).Going?
    ensures ParkRow(schema, rows, key, |Uniques(schema, key.table)|, draw) == ParkRow(schema, rows, key, n, draw)
    decreases |Uniques(schema, key.table)| - n
  {
    if n < |Uniques(schema, key.table)| {
      ParkRowStops(schema, rows, key, n + 1, draw);
    }
  }

  lemma {:induction false} ParkGroupStops(schema: Schema, rows: Rows, group: seq<Item>, n: nat, draw: Draw)
    requires n <= |group| && !ParkGroup(schema, rows, group[..n], draw).Going?
    ensures ParkGroup(schema, rows, group, draw) == ParkGroup(schema, rows, group[..n], draw)
    decreases |group| - n
  {
    if n < |group| {
      assert group[..n + 1][..n] == group[..n];
      ParkGroupStops(schema, rows, group, n + 1, draw);
    } else {
      assert group[..n] == group;
    }
  }

  lemma {:induction false} WriteGroupStops(schema: Schema, rows: Rows, present: set<Key>, group: seq<Item>, n: nat)
    requires n <= |group| && WriteGroup(schema, rows, present, group[..n]).None?
    ensures WriteGroup(schema, rows, present, group).None?
    decreases |group| - n
  {
    if n < |group| {
      assert group[..n + 1][..n] == group[..n];
      WriteGroupStops(schema, rows, present, group, n + 1);
    } else {
      assert group[..n] == group;
    }
  }

  // ─── What the transaction achieves ───────────────────────────────────────────

  predicate NoDeletions(group: seq<Item>)
  {
    forall i :: 0 <= i < |group| ==> group[i].row.Some?
  }

  /** All members belong to one table, as collisions only lead to rows of the same table, and
      a table without other columns than its key has nothing to park. */
  predicate OneTable(schema: Schema, table: string, group: seq<Item>)
  {
    && table in schema && (schema[table].keyOnly ==> schema[table].parkable <= schema[table].pk)
    && |schema[table].uniques| > 0
    && forall i :: 0 <= i < |group| ==> group[i].key.table == table
  }

  lemma {:induction false} KeyOnlyIsNeverParked(schema: Schema, table: string, index: Index)
    requires table in schema && schema[table].parkable <= schema[table].pk
    ensures ParkingColumn(schema[table], index).None?
  {
    if index != [] {
      KeyOnlyIsNeverParked(schema, table, index[1..]);
    }
  }

  lemma {:induction false} ParkRowTouchesOne(schema: Schema, rows: Rows, key: Key, n: nat, draw: Draw, other: Key)
    requires key in rows && n <= |Uniques(schema, key.table)| && other in rows && other != key
    requires !ParkRow(schema, rows, key, n, draw).Thrown?
    ensures ParkRow(schema, rows, key, n, draw).rows[other] == rows[other]
  {
    if n > 0 {
      ParkRowTouchesOne(schema, rows, key, n - 1, draw, other);
    }
  }

  lemma {:induction false} ParkGroupTouchesMembers(schema: Schema, rows: Rows, group: seq<Item>, draw: Draw, other: Key)
    requires other in rows && forall i :: 0 <= i < |group| ==> group[i].key != other
    requires !ParkGroup(schema, rows, group, draw).Thrown?
    ensures ParkGroup(schema, rows, group, draw).rows[other] == rows[other]
  {
    if group != [] {
      ParkGroupTouchesMembers(schema, rows, group[..|group| - 1], draw, other);
      match ParkGroup(schema, rows, group[..|group| - 1], draw)
      case Going(before) =>
        var key := group[|group| - 1].key;
        if key in rows { ParkRowTouchesOne(schema, before, key, |Uniques(schema, key.table)|, draw, other); }
      case _ =>
    }
  }

  predicate Names(group: seq<Item>, key: Key)
  {
    exists i :: 0 <= i < |group| && group[i].key == key
  }

  lemma WriteRowGives(schema: Schema, before: Rows, item: Item, key: Key)
    requires item.row.Some? && WriteRow(schema, before, item, item.key in before).Some?
    requires item.key in before ==> !(item.key.table in schema && schema[item.key.table].keyOnly)
    ensures var after := WriteRow(schema, before, item, item.key in before).value;
            && (item.key == key ==> key in after && after[key] == item.row.value)
            && (item.key != key ==> (key in after <==> key in before) && (key in before ==> after[key] == before[key]))
  {
  }

  /** The row under this key is the one received for it, or the one before if it is no member. */
  predicate Given(group: seq<Item>, before: Rows, after: Rows, key: Key)
  {
    && (forall i :: 0 <= i < |group| && group[i].key == key ==> key in after && group[i].row == Some(after[key]))
    && (!Names(group, key) ==> (key in after <==> key in before) && (key in before ==> after[key] == before[key]))
  }

  lemma GivenMore(front: seq<Item>, item: Item, before: Rows, between: Rows, after: Rows, key: Key)
    requires Given(front, before, between, key) && NamedOnce(front + [item])
    requires item.key == key ==> key in after && item.row == Some(after[key])
    requires item.key != key ==> (key in after <==> key in between) && (key in between ==> after[key] == between[key])
    ensures Given(front + [item], before, after, key)
  {
    var group := front + [item];
    assert group[|front|] == item;
    forall i | 0 <= i < |front| ensures group[i] == front[i] && front[i].key != item.key {
      assert group[i].key != group[|front|].key;
    }
    if Names(front, key) {
      var i :| 0 <= i < |front| && front[i].key == key;
      assert group[i].key == key;
    }
  }

  lemma FrontOf(group: seq<Item>) returns (front: seq<Item>, item: Item)
    requires group != []
    ensures group == front + [item] && front == group[..|group| - 1] && item == group[|group| - 1]
  {
    front, item := group[..|group| - 1], group[|group| - 1];
  }

  lemma ItemIsNew(front: seq<Item>, item: Item)
    requires NamedOnce(front + [item])
    ensures NamedOnce(front) && !Names(front, item.key)
  {
    var group := front + [item];
    forall i | 0 <= i < |front| ensures group[i] == front[i] && front[i].key != item.key {
      assert group[i].key != group[|front|].key;
    }
  }

  lemma {:induction false} WriteGroupGives(schema: Schema, table: string, rows: Rows, present: set<Key>, group: seq<Item>, key: Key)
    requires OneTable(schema, table, group) && NoDeletions(group) && NamedOnce(group)
    requires WriteGroup(schema, rows, present, group).Some? && present == rows.Keys
    requires forall i :: 0 <= i < |group| && group[i].key in present ==> !schema[table].keyOnly
    ensures Given(group, rows, WriteGroup(schema, rows, present, group).value, key)
    decreases |group|
  {
    if group != [] {
      var front, item := FrontOf(group);
      ItemIsNew(front, item);
      WriteGroupGives(schema, table, rows, present, front, key);
      WriteGroupGives(schema, table, rows, present, front, item.key);
      var between := WriteGroup(schema, rows, present, front).value;
      WriteRowGives(schema, between, item, key);
      GivenMore(front, item, rows, between, WriteGroup(schema, rows, present, group).value, key);
    }
  }

  lemma {:induction false} RegistrationsGive(versions: map<Key, Registered>, group: seq<Item>, key: Key)
    requires NamedOnce(group)
    ensures var after := Registrations(versions, group);
            && (forall i :: 0 <= i < |group| && group[i].key == key ==>
                  key in after && after[key] == Registered(group[i].version, group[i].row.None?, Some(group[i].from)))
            && (!Names(group, key) ==> (key in after <==> key in versions) && (key in versions ==> after[key] == versions[key]))
  {
    if group != [] {
      var n := |group| - 1;
      RegistrationsGive(versions, group[..n], key);
      if Names(group[..n], key) {
        var i :| 0 <= i < n && group[..n][i].key == key;
        assert group[i].key == key;
      }
    }
  }

  lemma {:induction false} KeyOnlyStops(schema: Schema, table: string, rows: Rows, group: seq<Item>, draw: Draw, i: nat)
    requires OneTable(schema, table, group) && schema[table].keyOnly
    requires i < |group| && group[i].key in rows
    ensures !ParkGroup(schema, rows, group, draw).Going?
    decreases |group|
  {
    var n := |group| - 1;
    if i < n {
      KeyOnlyStops(schema, table, rows, group[..n], draw, i);
    } else {
      match ParkGroup(schema, rows, group[..n], draw)
      case Going(before) =>
        KeyOnlyIsNeverParked(schema, table, Uniques(schema, table)[0]);
        assert ParkRow(schema, before, group[n].key, 1, draw) == NoColumn(before);
        ParkRowStops(schema, before, group[n].key, 1, draw);
      case _ =>
    }
  }

  /** An applied group gives each member exactly its received row and version and leaves every
      other row and version alone: nothing that was parked shows. */
  lemma AppliedGroupIsExact(schema: Schema, table: string, db: Database, group: seq<Item>, draw: Draw, key: Key)
    requires OneTable(schema, table, group) && NoDeletions(group) && NamedOnce(group)
    requires GroupResult(schema, db, group, draw).applied
    ensures var after := GroupResult(schema, db, group, draw).db;
            && (forall i :: 0 <= i < |group| && group[i].key == key ==>
                  && key in after.rows && after.rows[key] == group[i].row.value
                  && key in after.versions
                  && after.versions[key] == Registered(group[i].version, false, Some(group[i].from)))
            && (!Names(group, key) ==>
                  && (key in after.rows <==> key in db.rows) && (key in db.rows ==> after.rows[key] == db.rows[key])
                  && LocalVersion(after, key) == LocalVersion(db, key))
  {
    var parked := ParkGroup(schema, db.rows, group, draw).rows;
    forall i | 0 <= i < |group| && group[i].key in db.rows ensures !schema[table].keyOnly {
      if schema[table].keyOnly { KeyOnlyStops(schema, table, db.rows, group, draw, i); }
    }
    WriteGroupGives(schema, table, parked, db.rows.Keys, group, key);
    RegistrationsGive(db.versions, group, key);
    if key in db.rows && !Names(group, key) {
      ParkGroupTouchesMembers(schema, db.rows, group, draw, key);
    }
  }

  // ─── When it succeeds ────────────────────────────────────────────────────────

  predicate DrawnFor(schema: Schema, key: Key, draw: Draw, value: Option<string>)
  {
    exists n :: 0 <= n < |Uniques(schema, key.table)| && value == Some(draw(key, n))
  }

  predicate UnusedInRows(schema: Schema, rows: Rows, key: Key, draw: Draw, k: Key, c: string)
  {
    k in rows ==> !DrawnFor(schema, key, draw, ValueOf(rows[k], c))
  }

  predicate UnusedInItem(schema: Schema, item: Item, key: Key, draw: Draw, c: string)
  {
    item.row.Some? ==> !DrawnFor(schema, key, draw, ValueOf(item.row.value, c))
  }

  predicate DrawsDiffer(schema: Schema, a: Key, b: Key, draw: Draw, v: Option<string>)
  {
    DrawnFor(schema, a, draw, v) && DrawnFor(schema, b, draw, v) ==> a == b
  }

  /** The throw-away values are used nowhere else: not in any row, not in any received value,
      and no two members draw the same one. */
  ghost predicate DrawsAreUnused(schema: Schema, rows: Rows, group: seq<Item>, draw: Draw)
  {
    && (forall i, k, c {:trigger UnusedInRows(schema, rows, group[i].key, draw, k, c)} | 0 <= i < |group| ::
          UnusedInRows(schema, rows, group[i].key, draw, k, c))
    && (forall i, j, c {:trigger UnusedInItem(schema, group[j], group[i].key, draw, c)} | 0 <= i < |group| && 0 <= j < |group| ::
          UnusedInItem(schema, group[j], group[i].key, draw, c))
    && (forall i, j, v {:trigger DrawsDiffer(schema, group[i].key, group[j].key, draw, v)} | 0 <= i < |group| && 0 <= j < |group| ::
          DrawsDiffer(schema, group[i].key, group[j].key, draw, v))
  }

  /** The column is as it was, or it belongs to a member and holds one of its draws. */
  predicate OldOrDrawn(schema: Schema, before: Rows, rows: Rows, group: seq<Item>, draw: Draw, k: Key, c: string)
  {
    k in rows && k in before ==>
      ValueOf(rows[k], c) == ValueOf(before[k], c) || (Names(group, k) && DrawnFor(schema, k, draw, ValueOf(rows[k], c)))
  }

  /** `rows` is the database with some members' columns overwritten by their draws. */
  ghost predicate Overwritten(schema: Schema, before: Rows, rows: Rows, group: seq<Item>, draw: Draw)
  {
    && rows.Keys == before.Keys
    && forall k, c {:trigger OldOrDrawn(schema, before, rows, group, draw, k, c)} :: OldOrDrawn(schema, before, rows, group, draw, k, c)
  }

  function WithColumn(row: Row, column: string, value: string): (r: Row)
    ensures forall c :: ValueOf(r, c) == if c == column then Some(value) else ValueOf(row, c)
  {
    row.(values := row.values[column := Some(value)])
  }

  /** A value nobody else has in that column cannot bring a row into a collision. */
  lemma UnusedValueCollidesNowhere(schema: Schema, rows: Rows, key: Key, column: string, value: string)
    requires key in rows && !Collides(schema, rows, key, rows[key])
    requires forall other | other in rows && other != key :: ValueOf(rows[other], column) != Some(value)
    ensures !Collides(schema, rows, key, WithColumn(rows[key], column, value))
  {
    var row := WithColumn(rows[key], column, value);
    forall other | other in rows ensures !CollidesWith(schema, rows, key, row, other) {
      if other != key && other.table == key.table {
        forall index | index in Uniques(schema, key.table) ensures !Clash(index, row, rows[other]) {
          assert !CollidesWith(schema, rows, key, rows[key], other);
          assert !Clash(index, rows[key], rows[other]);
          var c :| c in index && !(ValueOf(rows[key], c).Some? && ValueOf(rows[key], c) == ValueOf(rows[other], c));
          if column in index { assert ValueOf(row, column) != ValueOf(rows[other], column); }
          else { assert ValueOf(row, c) == ValueOf(rows[key], c); }
        }
      }
    }
  }

  lemma DrawIsNobodyElses(schema: Schema, before: Rows, rows: Rows, group: seq<Item>, draw: Draw, i: nat, n: nat, other: Key, column: string)
    requires i < |group| && n < |Uniques(schema, group[i].key.table)| && other in rows && other != group[i].key
    requires DrawsAreUnused(schema, before, group, draw) && Overwritten(schema, before, rows, group, draw)
    ensures ValueOf(rows[other], column) != Some(draw(group[i].key, n))
  {
    var v := Some(draw(group[i].key, n));
    assert DrawnFor(schema, group[i].key, draw, v);
    assert OldOrDrawn(schema, before, rows, group, draw, other, column);
    if ValueOf(rows[other], column) == ValueOf(before[other], column) {
      assert UnusedInRows(schema, before, group[i].key, draw, other, column);
    } else {
      var j :| 0 <= j < |group| && group[j].key == other;
      assert DrawsDiffer(schema, group[i].key, group[j].key, draw, v);
    }
  }

  lemma StillOverwritten(schema: Schema, before: Rows, rows: Rows, group: seq<Item>, draw: Draw, key: Key, column: string, value: string)
    requires key in rows && Names(group, key) && DrawnFor(schema, key, draw, Some(value))
    requires Overwritten(schema, before, rows, group, draw)
    ensures Overwritten(schema, before, rows[key := WithColumn(rows[key], column, value)], group, draw)
  {
    var after := rows[key := WithColumn(rows[key], column, value)];
    forall k, c ensures OldOrDrawn(schema, before, after, group, draw, k, c) {
      assert OldOrDrawn(schema, before, rows, group, draw, k, c);
    }
  }

  lemma SetColumnWorks(schema: Schema, before: Rows, rows: Rows, group: seq<Item>, draw: Draw, i: nat, n: nat, column: string)
    requires i < |group| && group[i].key in rows && n < |Uniques(schema, group[i].key.table)|
    requires DrawsAreUnused(schema, before, group, draw)
    requires Overwritten(schema, before, rows, group, draw) && ConstraintsHold(schema, rows)
    ensures var key := group[i].key;
            var after := rows[key := WithColumn(rows[key], column, draw(key, n))];
            SetColumn(schema, rows, key, column, draw(key, n)) == Some(after) && ConstraintsHold(schema, after)
  {
    var key, v := group[i].key, draw(group[i].key, n);
    forall other | other in rows && other != key ensures ValueOf(rows[other], column) != Some(v) {
      DrawIsNobodyElses(schema, before, rows, group, draw, i, n, other, column);
    }
    SetToUnusedWorks(schema, rows, key, column, v);
  }

  lemma SetToUnusedWorks(schema: Schema, rows: Rows, key: Key, column: string, value: string)
    requires key in rows && ConstraintsHold(schema, rows)
    requires forall other | other in rows && other != key :: ValueOf(rows[other], column) != Some(value)
    ensures var after := rows[key := WithColumn(rows[key], column, value)];
            SetColumn(schema, rows, key, column, value) == Some(after) && ConstraintsHold(schema, after)
  {
    UnusedValueCollidesNowhere(schema, rows, key, column, value);
    assert ParentsPresent(rows, key, rows[key]);
    PutKeepsConstraints(schema, rows, key, WithColumn(rows[key], column, value));
  }

  /** The row holds one of its draws in some column of its n-th unique index. */
  predicate IndexParked(schema: Schema, rows: Rows, key: Key, n: int, draw: Draw)
  {
    key in rows && 0 <= n < |Uniques(schema, key.table)| ==>
      exists c :: c in Uniques(schema, key.table)[n] && DrawnFor(schema, key, draw, ValueOf(rows[key], c))
  }

  ghost predicate IndexesParked(schema: Schema, rows: Rows, key: Key, n: int, draw: Draw)
  {
    forall m {:trigger IndexParked(schema, rows, key, m, draw)} | m < n :: IndexParked(schema, rows, key, m, draw)
  }

  lemma IndexesStayParked(schema: Schema, rows: Rows, key: Key, n: nat, draw: Draw, column: string, value: string)
    requires key in rows && n < |Uniques(schema, key.table)| && IndexesParked(schema, rows, key, n, draw)
    requires DrawnFor(schema, key, draw, Some(value)) && column in Uniques(schema, key.table)[n]
    ensures IndexesParked(schema, rows[key := WithColumn(rows[key], column, value)], key, n + 1, draw)
  {
    var after := rows[key := WithColumn(rows[key], column, value)];
    forall m | m < n + 1 ensures IndexParked(schema, after, key, m, draw) {
      if 0 <= m < n {
        assert IndexParked(schema, rows, key, m, draw);
        var c :| c in Uniques(schema, key.table)[m] && DrawnFor(schema, key, draw, ValueOf(rows[key], c));
        assert DrawnFor(schema, key, draw, ValueOf(after[key], c));
      } else if m == n {
        assert DrawnFor(schema, key, draw, ValueOf(after[key], column));
      }
    }
  }

  lemma ParkOneMore(schema: Schema, before: Rows, rows: Rows, group: seq<Item>, draw: Draw, i: nat, n: nat)
    requires i < |group| && group[i].key in rows && n < |Uniques(schema, group[i].key.table)|
    requires DrawsAreUnused(schema, before, group, draw)
    requires Overwritten(schema, before, rows, group, draw) && ConstraintsHold(schema, rows)
    requires IndexesParked(schema, rows, group[i].key, n, draw) && ColumnFor(schema, group[i].key.table, n).Some?
    ensures var key := group[i].key;
            var after := rows[key := WithColumn(rows[key], ColumnFor(schema, key.table, n).value, draw(key, n))];
            && SetColumn(schema, rows, key, ColumnFor(schema, key.table, n).value, draw(key, n)) == Some(after)
            && Overwritten(schema, before, after, group, draw) && ConstraintsHold(schema, after)
            && IndexesParked(schema, after, key, n + 1, draw)
  {
    var key, column := group[i].key, ColumnFor(schema, group[i].key.table, n).value;
    assert DrawnFor(schema, key, draw, Some(draw(key, n)));
    assert Names(group, key);
    IndexesStayParked(schema, rows, key, n, draw, column, draw(key, n));
    StillOverwritten(schema, before, rows, group, draw, key, column, draw(key, n));
    SetColumnWorks(schema, before, rows, group, draw, i, n, column);
  }

  lemma {:induction false} ParkRowWorks(schema: Schema, before: Rows, rows: Rows, group: seq<Item>, draw: Draw, i: nat, n: nat)
    requires i < |group| && group[i].key in rows && n <= |Uniques(schema, group[i].key.table)|
    requires DrawsAreUnused(schema, before, group, draw)
    requires Overwritten(schema, before, rows, group, draw) && ConstraintsHold(schema, rows)
    ensures var p := ParkRow(schema, rows, group[i].key, n, draw);
            && !p.Thrown?
            && Overwritten(schema, before, p.rows, group, draw) && ConstraintsHold(schema, p.rows)
            && (p.Going? ==> IndexesParked(schema, p.rows, group[i].key, n, draw))
            && (n > 0 && ColumnFor(schema, group[i].key.table, 0).Some? ==> IndexParked(schema, p.rows, group[i].key, 0, draw))
  {
    var key := group[i].key;
    if n > 0 {
      ParkRowWorks(schema, before, rows, group, draw, i, n - 1);
      var p := ParkRow(schema, rows, key, n - 1, draw);
      if p.Going? && ColumnFor(schema, key.table, n - 1).Some? {
        ParkOneMore(schema, before, p.rows, group, draw, i, n - 1);
        assert IndexParked(schema, ParkRow(schema, rows, key, n, draw).rows, key, 0, draw);
      }
    }
  }

  /** Parking a row ends early exactly when an index without a parking column comes up. */
  lemma {:induction false} ParkRowEnds(schema: Schema, rows: Rows, key: Key, n: nat, draw: Draw)
    requires key in rows && n <= |Uniques(schema, key.table)| && !ParkRow(schema, rows, key, n, draw).Thrown?
    ensures ParkRow(schema, rows, key, n, draw).Going? <==> forall m | 0 <= m < n :: ColumnFor(schema, key.table, m).Some?
  {
    if n > 0 { ParkRowEnds(schema, rows, key, n - 1, draw); }
  }

  predicate AllParkable(schema: Schema, table: string)
  {
    forall m | 0 <= m < |Uniques(schema, table)| :: ColumnFor(schema, table, m).Some?
  }

  lemma {:induction false} ParkGroupWorks(schema: Schema, table: string, before: Rows, group: seq<Item>, draw: Draw, n: nat)
    requires n <= |group| && OneTable(schema, table, group) && AllParkable(schema, table) && ConstraintsHold(schema, before)
    requires DrawsAreUnused(schema, before, group, draw) && NamedOnce(group)
    ensures var p := ParkGroup(schema, before, group[..n], draw);
            && p.Going? && Overwritten(schema, before, p.rows, group, draw) && ConstraintsHold(schema, p.rows)
            && forall i | 0 <= i < n && group[i].key in before ::
                 IndexesParked(schema, p.rows, group[i].key, |Uniques(schema, group[i].key.table)|, draw)
  {
    if n > 0 {
      assert group[..n][..n - 1] == group[..n - 1];
      ParkGroupWorks(schema, table, before, group, draw, n - 1);
      var r := ParkGroup(schema, before, group[..n - 1], draw).rows;
      var key := group[n - 1].key;
      if key in before {
        var k := |Uniques(schema, key.table)|;
        ParkRowWorks(schema, before, r, group, draw, n - 1, k);
        ParkRowEnds(schema, r, key, k, draw);
        var after := ParkRow(schema, r, key, k, draw).rows;
        forall i | 0 <= i < n - 1 && group[i].key in before
          ensures IndexesParked(schema, after, group[i].key, |Uniques(schema, group[i].key.table)|, draw)
        {
          ParkRowTouchesOne(schema, r, key, k, draw, group[i].key);
          forall m | m < |Uniques(schema, group[i].key.table)| ensures IndexParked(schema, after, group[i].key, m, draw) {
            assert IndexParked(schema, r, group[i].key, m, draw);
          }
        }
      }
    }
  }

  /** The received rows fit together and with everything outside the group. */
  ghost predicate FinalsFit(schema: Schema, table: string, rows: Rows, group: seq<Item>)
    requires NoDeletions(group)
  {
    forall i | 0 <= i < |group| ::
      && ParentsPresent(rows, group[i].key, group[i].row.value)
      && (forall j, index | 0 <= j < |group| && j != i && index in Uniques(schema, table) ::
            !Clash(index, group[i].row.value, group[j].row.value))
      && (forall other, index | other in rows && !Names(group, other) && other.table == table && index in Uniques(schema, table) ::
            !Clash(index, group[i].row.value, rows[other]))
  }

  /** Everything in place when the received values are written. */
  ghost predicate ReadyToWrite(schema: Schema, table: string, before: Rows, parked: Rows, group: seq<Item>, draw: Draw)
  {
    && OneTable(schema, table, group) && !schema[table].keyOnly && NoDeletions(group) && NamedOnce(group)
    && DrawsAreUnused(schema, before, group, draw) && FinalsFit(schema, table, before, group)
    && ParkGroup(schema, before, group, draw) == Going(parked) && parked.Keys == before.Keys
    && forall i | 0 <= i < |group| && group[i].key in before ::
         IndexesParked(schema, parked, group[i].key, |Uniques(schema, group[i].key.table)|, draw)
  }

  lemma {:induction false} WriteGroupWorks(schema: Schema, table: string, before: Rows, parked: Rows, group: seq<Item>, draw: Draw, n: nat)
    requires n <= |group| && ReadyToWrite(schema, table, before, parked, group, draw)
    ensures WriteGroup(schema, parked, before.Keys, group[..n]).Some?
  {
    if n > 0 {
      assert group[..n][..n - 1] == group[..n - 1];
      WriteGroupWorks(schema, table, before, parked, group, draw, n - 1);
      WriteOneWorks(schema, table, before, parked, group, draw, n - 1);
    }
  }

  lemma WriteOneWorks(schema: Schema, table: string, before: Rows, parked: Rows, group: seq<Item>, draw: Draw, i: nat)
    requires i < |group| && ReadyToWrite(schema, table, before, parked, group, draw)
    requires WriteGroup(schema, parked, before.Keys, group[..i]).Some?
    ensures WriteRow(schema, WriteGroup(schema, parked, before.Keys, group[..i]).value, group[i], group[i].key in before).Some?
  {
    var rows := WriteGroup(schema, parked, before.Keys, group[..i]).value;
    var item := group[i];
    forall other | other in rows ensures !CollidesWith(schema, rows, item.key, item.row.value, other) {
      if other != item.key && other.table == table {
        FinalMeetsOther(schema, table, before, parked, group, draw, i, other);
      }
    }
    WriteGroupGives(schema, table, parked, before.Keys, group[..i], item.key);
    assert !Names(group[..i], item.key);
    forall k | k in before ensures k in rows {
      WriteGroupGives(schema, table, parked, before.Keys, group[..i], k);
      if Names(group[..i], k) { var j :| 0 <= j < i && group[..i][j].key == k; }
    }
    assert ParentsPresent(rows, item.key, item.row.value);
  }

  /** Member `i`'s received row meets no row it would clash with, be it written, parked or
      outside the group. */
  lemma FinalMeetsOther(schema: Schema, table: string, before: Rows, parked: Rows, group: seq<Item>, draw: Draw, i: nat, other: Key)
    requires i < |group| && ReadyToWrite(schema, table, before, parked, group, draw)
    requires WriteGroup(schema, parked, before.Keys, group[..i]).Some?
    requires other in WriteGroup(schema, parked, before.Keys, group[..i]).value && other != group[i].key && other.table == table
    ensures var rows := WriteGroup(schema, parked, before.Keys, group[..i]).value;
            forall index | index in Uniques(schema, table) :: !Clash(index, group[i].row.value, rows[other])
  {
    var rows := WriteGroup(schema, parked, before.Keys, group[..i]).value;
    WriteGroupGives(schema, table, parked, before.Keys, group[..i], other);
    if Names(group[..i], other) {
      var j :| 0 <= j < i && group[..i][j].key == other;
      assert group[j].key == other;
    } else if Names(group, other) {
      var j :| 0 <= j < |group| && group[j].key == other;
      forall index | index in Uniques(schema, table) ensures !Clash(index, group[i].row.value, rows[other]) {
        FinalMeetsParked(schema, table, before, parked, group, draw, i, j, index);
      }
    } else {
      ParkGroupTouchesMembers(schema, before, group, draw, other);
    }
  }

  lemma FinalMeetsParked(schema: Schema, table: string, before: Rows, parked: Rows, group: seq<Item>, draw: Draw, i: nat, j: nat, index: Index)
    requires i < |group| && j < |group| && group[i].row.Some? && group[j].key in parked && group[j].key.table == table
    requires DrawsAreUnused(schema, before, group, draw) && index in Uniques(schema, table)
    requires IndexesParked(schema, parked, group[j].key, |Uniques(schema, table)|, draw)
    ensures !Clash(index, group[i].row.value, parked[group[j].key])
  {
    var m :| 0 <= m < |Uniques(schema, table)| && Uniques(schema, table)[m] == index;
    assert IndexParked(schema, parked, group[j].key, m, draw);
    var c :| c in index && DrawnFor(schema, group[j].key, draw, ValueOf(parked[group[j].key], c));
    assert UnusedInItem(schema, group[i], group[j].key, draw, c);
  }

  /** A closed group of current changes with fitting received rows is applied: every statement
      of the transaction keeps all unique indexes, so none of them fails. */
  lemma ClosedGroupIsApplied(schema: Schema, table: string, db: Database, group: seq<Item>, draw: Draw)
    requires OneTable(schema, table, group) && !schema[table].keyOnly && NoDeletions(group) && NamedOnce(group)
    requires ConstraintsHold(schema, db.rows) && AllFresh(db, group)
    requires AllParkable(schema, table) && DrawsAreUnused(schema, db.rows, group, draw)
    requires FinalsFit(schema, table, db.rows, group)
    ensures GroupResult(schema, db, group, draw).applied
  {
    assert group[..|group|] == group;
    ParkGroupWorks(schema, table, db.rows, group, draw, |group|);
    WriteGroupWorks(schema, table, db.rows, ParkGroup(schema, db.rows, group, draw).rows, group, draw, |group|);
  }

  // ─── All or nothing ──────────────────────────────────────────────────────────

  /** The transaction stops halfway and commits what it parked: some member exists, its first
      unique index can be parked and a later one cannot. */
  predicate LeavesParked(schema: Schema, table: string, db: Database, group: seq<Item>)
  {
    && AllFresh(db, group) && (exists i :: 0 <= i < |group| && group[i].key in db.rows)
    && |Uniques(schema, table)| > 0 && ColumnFor(schema, table, 0).Some? && !AllParkable(schema, table)
  }

  lemma {:induction false} NothingToPark(schema: Schema, rows: Rows, group: seq<Item>, draw: Draw)
    requires forall i :: 0 <= i < |group| ==> group[i].key !in rows
    ensures ParkGroup(schema, rows, group, draw) == Going(rows)
  {
    if group != [] { NothingToPark(schema, rows, group[..|group| - 1], draw); }
  }

  lemma FirstPresent(rows: Rows, group: seq<Item>) returns (e: nat)
    requires exists i :: 0 <= i < |group| && group[i].key in rows
    ensures e < |group| && group[e].key in rows && forall i :: 0 <= i < e ==> group[i].key !in rows
  {
    e := 0;
    while group[e].key !in rows
      invariant e < |group| && forall i :: 0 <= i < e ==> group[i].key !in rows
      decreases |group| - e
    {
      if e + 1 == |group| { assert false; }
      e := e + 1;
    }
  }

  /** What is left behind when an index cannot be parked. */
  lemma UnparkableStops(schema: Schema, table: string, db: Database, group: seq<Item>, draw: Draw)
    requires OneTable(schema, table, group) && ConstraintsHold(schema, db.rows) && DrawsAreUnused(schema, db.rows, group, draw)
    requires !AllParkable(schema, table) && exists i :: 0 <= i < |group| && group[i].key in db.rows
    ensures var p := ParkGroup(schema, db.rows, group, draw);
            p.NoColumn? && (p.rows == db.rows <==> ColumnFor(schema, table, 0).None?)
  {
    var e := FirstPresent(db.rows, group);
    var key, k := group[e].key, |Uniques(schema, table)|;
    NothingToPark(schema, db.rows, group[..e], draw);
    assert group[..e + 1][..e] == group[..e];
    ParkRowWorks(schema, db.rows, db.rows, group, draw, e, k);
    ParkRowEnds(schema, db.rows, key, k, draw);
    var p := ParkRow(schema, db.rows, key, k, draw);
    assert p.NoColumn?;
    ParkGroupStops(schema, db.rows, group, e + 1, draw);
    if ColumnFor(schema, table, 0).None? {
      assert ParkRow(schema, db.rows, key, 0, draw) == Going(db.rows);
      assert ParkRow(schema, db.rows, key, 1, draw) == NoColumn(db.rows);
      ParkRowStops(schema, db.rows, key, 1, draw);
    } else {
      assert IndexParked(schema, p.rows, key, 0, draw);
      var c :| c in Uniques(schema, table)[0] && DrawnFor(schema, key, draw, ValueOf(p.rows[key], c));
      assert UnusedInRows(schema, db.rows, group[e].key, draw, key, c);
    }
  }

  /** Either the whole group is applied or the database is as before, exactly unless the
      transaction returns after parking something. */
  lemma AllOrNothingUnlessParked(schema: Schema, table: string, db: Database, group: seq<Item>, draw: Draw)
    requires OneTable(schema, table, group) && NamedOnce(group)
    requires ConstraintsHold(schema, db.rows) && DrawsAreUnused(schema, db.rows, group, draw)
    ensures var r := GroupResult(schema, db, group, draw);
            (r.applied || r.db == db) <==> !LeavesParked(schema, table, db, group)
  {
    assert group[..|group|] == group;
    if AllFresh(db, group) {
      if AllParkable(schema, table) {
        ParkGroupWorks(schema, table, db.rows, group, draw, |group|);
      } else if exists i :: 0 <= i < |group| && group[i].key in db.rows {
        UnparkableStops(schema, table, db, group, draw);
      } else {
        NothingToPark(schema, db.rows, group, draw);
      }
    }
  }

  // ─── An example ──────────────────────────────────────────────────────────────

  /** Unique in `nick` and in `rank`; `rank` is of a type without throw-away values. */
  function TwoUniques(): Schema
  {
    map["users" := Table([["nick"], ["rank"]], {}, {}, {"nick"}, false)]
  }

  function Named(nick: string, rank: string): Row
  {
    Row(map["nick" := Some(nick), "rank" := Some(rank)], {}, map[])
  }

  lemma RankStaysUnparked()
    ensures Uniques(TwoUniques(), "users") == [["nick"], ["rank"]]
    ensures ColumnFor(TwoUniques(), "users", 0) == Some("nick") && ColumnFor(TwoUniques(), "users", 1) == None
  {
    var table := TwoUniques()["users"];
    assert ["nick"][0] == "nick" && ["rank"][0] == "rank" && ["rank"][1..] == [];
    assert ParkingColumn(table, ["rank"]) == ParkingColumn(table, []);
  }

  lemma NobodyCollides(a: Key, b: Key, rows: Rows, nick: string)
    requires a.table == "users" && rows.Keys == {a, b} && a != b && rows[b] == Named("y", "2") && nick != "y"
    ensures !Collides(TwoUniques(), rows, a, Named(nick, "1"))
  {
    RankStaysUnparked();
    var row := Named(nick, "1");
    assert ValueOf(row, "nick") != ValueOf(rows[b], "nick") && ValueOf(row, "rank") != ValueOf(rows[b], "rank");
    assert "nick" in ["nick"] && "rank" in ["rank"];
    assert !Clash(["nick"], row, rows[b]) && !Clash(["rank"], row, rows[b]);
  }

  lemma ParksHalf(a: Key, b: Key, rows: Rows, draw: Draw)
    requires a.table == "users" && a != b
    requires rows == map[a := Named("x", "1"), b := Named("y", "2")] && draw(a, 0) != "y"
    ensures ParkRow(TwoUniques(), rows, a, 2, draw) == NoColumn(rows[a := Named(draw(a, 0), "1")])
  {
    RankStaysUnparked();
    NobodyCollides(a, b, rows, draw(a, 0));
    var parked := rows[a].(values := rows[a].values["nick" := Some(draw(a, 0))]);
    assert parked == Named(draw(a, 0), "1");
    assert ParkRow(TwoUniques(), rows, a, 0, draw) == Going(rows);
    assert ParkRow(TwoUniques(), rows, a, 1, draw) == Going(rows[a := parked]);
  }

  /** Two rows that exchange their nicks: the first keeps the throw-away value, and the group
      is not applied. */
  lemma HalfParkedSwap(a: Key, b: Key, db: Database, group: seq<Item>, draw: Draw)
    requires a.table == b.table == "users" && a != b
    requires db.rows == map[a := Named("x", "1"), b := Named("y", "2")] && draw(a, 0) != "y"
    requires |group| == 2 && group[0].key == a && group[1].key == b
    requires group[0].row == Some(Named("y", "1")) && group[1].row == Some(Named("x", "2")) && AllFresh(db, group)
    ensures GroupResult(TwoUniques(), db, group, draw)
              == GroupOutcome(Database(db.rows[a := Named(draw(a, 0), "1")], db.versions), false)
    ensures LeavesParked(TwoUniques(), "users", db, group)
  {
    RankStaysUnparked();
    ParksHalf(a, b, db.rows, draw);
    assert group[..1][..0] == [] && group[..2] == group && group[..2][..1] == group[..1];
    assert ParkGroup(TwoUniques(), db.rows, group[..0], draw) == Going(db.rows);
    assert group[..1][0].key == a;
    assert ParkGroup(TwoUniques(), db.rows, group[..1], draw) == NoColumn(db.rows[a := Named(draw(a, 0), "1")]);
    ParkGroupStops(TwoUniques(), db.rows, group, 1, draw);
    assert ColumnFor(TwoUniques(), "users", 1).None?;
  }
}
