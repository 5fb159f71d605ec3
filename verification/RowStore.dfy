/** The database as the applier sees it: rows with unique indexes and foreign keys, and the
    version registry (src/cluster/applier.ts, src/cluster/sqlgen.ts). */
module RowStore {
  import opened Versions

  datatype Key = Key(table: string, hash: string)

  /** `cascades` are the rows it cannot exist without; `optional` names the columns that are
      emptied when the row they refer to goes. NULL is None. */
  datatype Row = Row(values: map<string, Option<string>>, cascades: set<Key>, optional: map<string, Key>)

  type Rows = map<Key, Row>

  type Index = seq<string>

  /** `parkable` are the columns whose type has throw-away values. */
  datatype Table = Table(uniques: seq<Index>, pk: set<string>, fkColumns: set<string>, parkable: set<string>, keyOnly: bool)

  type Schema = map<string, Table>

  datatype Registered = Registered(version: RowVersion, deleted: bool, via: Option<string>)

  datatype Database = Database(rows: Rows, versions: map<Key, Registered>)

  /** A received change; `row` is None for a deletion. */
  datatype Item = Item(key: Key, version: RowVersion, from: string, row: Option<Row>)

  function ValueOf(row: Row, column: string): Option<string>
  {
    if column in row.values then row.values[column] else None
  }

  /** Both rows hold the same values in every column of the index, none of them NULL. */
  predicate Clash(index: Index, a: Row, b: Row)
  {
    forall c {:trigger ValueOf(a, c)} {:trigger ValueOf(b, c)} | c in index :: ValueOf(a, c).Some? && ValueOf(a, c) == ValueOf(b, c)
  }

  function Uniques(schema: Schema, table: string): seq<Index>
  {
    if table in schema then schema[table].uniques else []
  }

  predicate CollidesWith(schema: Schema, rows: Rows, key: Key, row: Row, other: Key)
  {
    other in rows && other != key && other.table == key.table
    && exists index {:trigger Clash(index, row, rows[other])} | index in Uniques(schema, key.table) :: Clash(index, row, rows[other])
  }

  /** Some other row clashes with `row` in a unique index. */
  predicate Collides(schema: Schema, rows: Rows, key: Key, row: Row)
  {
    exists other {:trigger CollidesWith(schema, rows, key, row, other)} | other in rows :: CollidesWith(schema, rows, key, row, other)
  }

  predicate ParentsPresent(rows: Rows, key: Key, row: Row)
  {
    row.cascades + row.optional.Values <= rows.Keys + {key}
  }

  /** Stores a row unless a unique value is taken or a parent is missing. */
  function Put(schema: Schema, rows: Rows, key: Key, row: Row): Option<Rows>
  {
    if Collides(schema, rows, key, row) || !ParentsPresent(rows, key, row) then None else Some(rows[key := row])
  }

  function Insert(schema: Schema, rows: Rows, key: Key, row: Row): Option<Rows>
  {
    if key in rows then None else Put(schema, rows, key, row)
  }

  /** An update of a row that is not there changes nothing and does not fail. */
  function Update(schema: Schema, rows: Rows, key: Key, row: Row): Option<Rows>
  {
    if key !in rows || (key.table in schema && schema[key.table].keyOnly) then Some(rows)
    else Put(schema, rows, key, row)
  }

  /** The rows that go together with `gone`: everything that depends on them. */
  function Dependents(rows: Rows, gone: set<Key>): (all: set<Key>)
    ensures gone <= all
    decreases |rows.Keys - gone|
  {
    var more := set k | k in rows && k !in gone && rows[k].cascades * gone != {};
    if more == {} then gone
    else
      assert rows.Keys - (gone + more) < rows.Keys - gone;
      SmallerSet(rows.Keys - (gone + more), rows.Keys - gone);
      Dependents(rows, gone + more)
  }

  lemma SmallerSet<T>(a: set<T>, b: set<T>)
    requires a < b
    ensures |a| < |b|
  {
    assert b == a + (b - a);
  }

  function Unlink(row: Row, gone: set<Key>): Row
  {
    Row(map c | c in row.values :: if c in row.optional && row.optional[c] in gone then None else row.values[c],
        row.cascades,
        map c | c in row.optional && row.optional[c] !in gone :: row.optional[c])
  }

  /** Deletes a row together with its dependents. */
  function Delete(rows: Rows, key: Key): Rows
  {
    if key !in rows then rows
    else
      var gone := Dependents(rows, {key});
      map k | k in rows && k !in gone :: Unlink(rows[k], gone)
  }

  /** The write of one change; `present` is what the caller found out about the row. */
  function WriteRow(schema: Schema, rows: Rows, item: Item, present: bool): Option<Rows>
  {
    if item.row.None? then if present then Some(Delete(rows, item.key)) else Some(rows)
    else if present then Update(schema, rows, item.key, item.row.value)
    else Insert(schema, rows, item.key, item.row.value)
  }

  function LocalVersion(db: Database, key: Key): Option<RowVersion>
  {
    if key in db.versions then Some(db.versions[key].version) else None
  }

  function WriteVersion(db: Database, rows: Rows, item: Item): Database
  {
    Database(rows, db.versions[item.key := Registered(item.version, item.row.None?, Some(item.from))])
  }

  predicate Fresh(db: Database, item: Item)
  {
    IsNewer(item.version, LocalVersion(db, item.key))
  }

  predicate UniqueValuesHold(schema: Schema, rows: Rows)
  {
    forall k {:trigger Collides(schema, rows, k, rows[k])} | k in rows :: !Collides(schema, rows, k, rows[k])
  }

  /** Unique values are unique and every row's parents exist. */
  predicate ConstraintsHold(schema: Schema, rows: Rows)
  {
    && UniqueValuesHold(schema, rows)
    && forall k {:trigger ParentsPresent(rows, k, rows[k])} | k in rows :: ParentsPresent(rows, k, rows[k])
  }

  lemma {:induction false} DependentsAreClosed(rows: Rows, gone: set<Key>, k: Key)
    requires k in rows && k !in Dependents(rows, gone)
    ensures rows[k].cascades * Dependents(rows, gone) == {}
    decreases |rows.Keys - gone|
  {
    var more := set k | k in rows && k !in gone && rows[k].cascades * gone != {};
    if more != {} {
      SmallerSet(rows.Keys - (gone + more), rows.Keys - gone);
      DependentsAreClosed(rows, gone + more, k);
    }
  }

  /** No row outside depends on one inside. */
  predicate IsClosed(rows: Rows, gone: set<Key>)
  {
    forall k | k in rows && k !in gone :: rows[k].cascades * gone == {}
  }

  lemma DependentIsInside(rows: Rows, gone: set<Key>, other: set<Key>, k: Key)
    requires k in rows && rows[k].cascades * gone != {} && gone <= other && IsClosed(rows, other)
    ensures k in other
  {
    var g :| g in rows[k].cascades * gone;
    assert g in other;
  }

  /** Nothing goes that does not have to. */
  lemma {:induction false} DependentsAreLeast(rows: Rows, gone: set<Key>, other: set<Key>)
    requires gone <= other && IsClosed(rows, other)
    ensures Dependents(rows, gone) <= other
    decreases |rows.Keys - gone|
  {
    var more := set k | k in rows && k !in gone && rows[k].cascades * gone != {};
    if more != {} {
      forall k | k in more ensures k in other { DependentIsInside(rows, gone, other, k); }
      SmallerSet(rows.Keys - (gone + more), rows.Keys - gone);
      DependentsAreLeast(rows, gone + more, other);
    }
  }

  /** A row as it is left when these are gone: what refers to one of them is emptied. */
  predicate LeftOf(before: Row, after: Row, gone: set<Key>)
  {
    && after.cascades == before.cascades && after.values.Keys == before.values.Keys
    && (forall c | c in before.values ::
          after.values[c] == if c in before.optional && before.optional[c] in gone then None else before.values[c])
    && after.optional == (map c | c in before.optional && before.optional[c] !in gone :: before.optional[c])
  }

  /** The row is gone with what depends on it, directly or through others, and nothing else. */
  ghost predicate Removed(before: Rows, after: Rows, key: Key)
  {
    exists gone {:trigger IsClosed(before, gone)} ::
      && key in gone && IsClosed(before, gone)
      && (forall other {:trigger IsClosed(before, other)} :: key in other && IsClosed(before, other) ==> gone <= other)
      && after.Keys == before.Keys - gone && forall k | k in after :: LeftOf(before[k], after[k], gone)
  }

  lemma DeleteRemoves(rows: Rows, key: Key)
    requires key in rows
    ensures Removed(rows, Delete(rows, key), key) && key !in Delete(rows, key)
  {
    var gone := Dependents(rows, {key});
    forall k | k in rows && k !in gone ensures rows[k].cascades * gone == {} {
      DependentsAreClosed(rows, {key}, k);
    }
    forall other | key in other && IsClosed(rows, other) ensures gone <= other {
      DependentsAreLeast(rows, {key}, other);
    }
    assert IsClosed(rows, gone);
    var after := Delete(rows, key);
    forall k | k in after ensures LeftOf(rows[k], after[k], gone) { UnlinkLeaves(rows[k], gone); }
    assert after.Keys == rows.Keys - gone;
  }

  lemma UnlinkLeaves(row: Row, gone: set<Key>)
    ensures LeftOf(row, Unlink(row, gone), gone)
  {
  }

  lemma UnlinkClashesLess(index: Index, a: Row, b: Row, gone: set<Key>)
    ensures Clash(index, Unlink(a, gone), Unlink(b, gone)) ==> Clash(index, a, b)
  {
    if Clash(index, Unlink(a, gone), Unlink(b, gone)) {
      forall c | c in index ensures ValueOf(a, c).Some? && ValueOf(a, c) == ValueOf(b, c) {
        assert ValueOf(Unlink(a, gone), c).Some? && ValueOf(Unlink(a, gone), c) == ValueOf(Unlink(b, gone), c);
      }
    }
  }

  lemma DeleteAddsNoCollision(schema: Schema, rows: Rows, key: Key, k: Key)
    requires k in Delete(rows, key)
    ensures Collides(schema, Delete(rows, key), k, Delete(rows, key)[k]) ==> Collides(schema, rows, k, rows[k])
  {
    var gone, after := Dependents(rows, {key}), Delete(rows, key);
    if key in rows && Collides(schema, after, k, after[k]) {
      var other :| other in after && CollidesWith(schema, after, k, after[k], other);
      var index :| index in Uniques(schema, k.table) && Clash(index, after[k], after[other]);
      UnlinkClashesLess(index, rows[k], rows[other], gone);
      assert CollidesWith(schema, rows, k, rows[k], other);
    }
  }

  lemma DeleteKeepsConstraints(schema: Schema, rows: Rows, key: Key)
    requires ConstraintsHold(schema, rows)
    ensures ConstraintsHold(schema, Delete(rows, key))
  {
    if key in rows {
      var gone, after := Dependents(rows, {key}), Delete(rows, key);
      forall k | k in after ensures !Collides(schema, after, k, after[k]) && ParentsPresent(after, k, after[k]) {
        DependentsAreClosed(rows, {key}, k);
        assert ParentsPresent(rows, k, rows[k]) && !Collides(schema, rows, k, rows[k]);
        assert after[k].cascades == rows[k].cascades;
        forall c | c in after[k].optional ensures after[k].optional[c] in after.Keys + {k} {
          assert rows[k].optional[c] in rows[k].optional.Values;
        }
        DeleteAddsNoCollision(schema, rows, key, k);
      }
    }
  }

  lemma ClashIsSymmetric(index: Index, a: Row, b: Row)
    ensures Clash(index, a, b) <==> Clash(index, b, a)
  {
  }

  lemma CollisionAfterPut(schema: Schema, rows: Rows, key: Key, row: Row, k: Key, other: Key)
    requires k in rows[key := row] && CollidesWith(schema, rows[key := row], k, rows[key := row][k], other)
    ensures k == key ==> CollidesWith(schema, rows, key, row, other)
    ensures other == key ==> k in rows && CollidesWith(schema, rows, key, row, k)
    ensures k != key && other != key ==> k in rows && CollidesWith(schema, rows, k, rows[k], other)
  {
    var index :| index in Uniques(schema, k.table) && Clash(index, rows[key := row][k], rows[key := row][other]);
    ClashIsSymmetric(index, rows[key := row][k], rows[key := row][other]);
  }

  lemma PutKeepsConstraints(schema: Schema, rows: Rows, key: Key, row: Row)
    requires ConstraintsHold(schema, rows) && Put(schema, rows, key, row).Some?
    ensures ConstraintsHold(schema, Put(schema, rows, key, row).value)
  {
    var after := rows[key := row];
    forall k | k in after ensures !Collides(schema, after, k, after[k]) && ParentsPresent(after, k, after[k]) {
      if k != key { assert ParentsPresent(rows, k, rows[k]) && !Collides(schema, rows, k, rows[k]); }
      if Collides(schema, after, k, after[k]) {
        var other :| other in after && CollidesWith(schema, after, k, after[k], other);
        CollisionAfterPut(schema, rows, key, row, k, other);
      }
    }
  }

  /** No write of a received change breaks a unique index or leaves a row without its parent. */
  lemma WriteRowKeepsConstraints(schema: Schema, rows: Rows, item: Item, present: bool)
    requires ConstraintsHold(schema, rows) && WriteRow(schema, rows, item, present).Some?
    ensures ConstraintsHold(schema, WriteRow(schema, rows, item, present).value)
  {
    if item.row.None? {
      DeleteKeepsConstraints(schema, rows, item.key);
    } else if Put(schema, rows, item.key, item.row.value).Some? {
      PutKeepsConstraints(schema, rows, item.key, item.row.value);
    }
  }
}
