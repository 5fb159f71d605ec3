/** From collecting a group to applying it (src/cluster/applier.ts): a group that was closed when
    it was collected passes its transaction. */
module Groups {
  import opened Versions
  import opened RowStore
  import ApplyPackage
  import Processing
  import ParkAndSwap

  /** The row with the same values in this unique index, as the query for it answers. */
  ghost predicate IsInTheWay(schema: Schema, rows: Rows, item: Item, index: Index, other: Key)
    requires item.row.Some?
  {
    other in rows && other != item.key && other.table == item.key.table && Clash(index, item.row.value, rows[other])
  }

  /** The pass's name for a received row. */
  ghost predicate Stands(schema: Schema, named: Processing.Item, item: Item)
  {
    && item.key == Key(named.table, named.hash) && item.row.Some?
    && named.uniques == |Uniques(schema, named.table)|
  }

  ghost predicate StandFor(schema: Schema, named: seq<Processing.Item>, group: seq<Item>)
  {
    |named| == |group| && forall i | 0 <= i < |named| :: Stands(schema, named[i], group[i])
  }

  /** While the group was collected the queries for rows in the way saw these rows. */
  ghost predicate AnswersFrom(schema: Schema, rows: Rows, world: Processing.World, named: Processing.Item, item: Item)
    requires Stands(schema, named, item)
  {
    forall index: nat, call: nat {:trigger world.otherRow(named, index, call)} | index < named.uniques ::
      match world.otherRow(named, index, call)
      case None => forall other :: !IsInTheWay(schema, rows, item, Uniques(schema, named.table)[index], other)
      case Some(hash) => IsInTheWay(schema, rows, item, Uniques(schema, named.table)[index], Key(named.table, hash))
  }

  /** The received rows have their parents and do not clash with each other. */
  ghost predicate ReceivedRowsFit(schema: Schema, table: string, rows: Rows, group: seq<Item>)
    requires ParkAndSwap.NoDeletions(group)
  {
    forall i | 0 <= i < |group| ::
      && ParentsPresent(rows, group[i].key, group[i].row.value)
      && forall j, index | 0 <= j < |group| && j != i && index in Uniques(schema, table) ::
           !Clash(index, group[i].row.value, group[j].row.value)
  }

  ghost predicate IsClosed(world: Processing.World, named: seq<Processing.Item>)
  {
    forall k | 0 <= k < |named| :: Processing.WaysLeadInside(world, named, named[k], named[k].uniques)
  }

  lemma OneRowInTheWay(schema: Schema, rows: Rows, item: Item, m: nat, a: Key, b: Key)
    requires UniqueValuesHold(schema, rows) && item.row.Some? && m < |Uniques(schema, item.key.table)|
    requires IsInTheWay(schema, rows, item, Uniques(schema, item.key.table)[m], a)
    requires IsInTheWay(schema, rows, item, Uniques(schema, item.key.table)[m], b)
    ensures a == b
  {
    var index := Uniques(schema, item.key.table)[m];
    if a != b {
      assert Clash(index, rows[a], rows[b]) by {
        forall c | c in index ensures ValueOf(rows[a], c).Some? && ValueOf(rows[a], c) == ValueOf(rows[b], c) {
          assert ValueOf(item.row.value, c).Some?;
        }
      }
      assert CollidesWith(schema, rows, a, rows[a], b);
      assert Collides(schema, rows, a, rows[a]);
    }
  }

  /** A row in a member's way is a member. */
  lemma WayIsMember(schema: Schema, rows: Rows, world: Processing.World, named: seq<Processing.Item>, group: seq<Item>,
                    k: nat, m: nat, other: Key)
    requires StandFor(schema, named, group) && k < |group| && UniqueValuesHold(schema, rows)
    requires AnswersFrom(schema, rows, world, named[k], group[k])
    requires Processing.WaysLeadInside(world, named, named[k], named[k].uniques)
    requires m < |Uniques(schema, group[k].key.table)|
    requires IsInTheWay(schema, rows, group[k], Uniques(schema, group[k].key.table)[m], other)
    ensures ParkAndSwap.Names(group, other)
  {
    assert Stands(schema, named[k], group[k]);
    assert Processing.WayClear(world, named, named[k], m);
    var answer :| Processing.WayLeadsInside(world, named, named[k], m, answer);
    var call: nat :| world.otherRow(named[k], m, call) == answer;
    assert answer.Some?;
    OneRowInTheWay(schema, rows, group[k], m, Key(named[k].table, answer.value), other);
    var i :| 0 <= i < |named| && named[i].table == named[k].table && named[i].hash == answer.value;
    assert Stands(schema, named[i], group[i]);
  }

  lemma ClosedFinalsFit(schema: Schema, table: string, rows: Rows, world: Processing.World, named: seq<Processing.Item>, group: seq<Item>)
    requires StandFor(schema, named, group) && Processing.OfOneTable(named, table) && UniqueValuesHold(schema, rows)
    requires forall k | 0 <= k < |group| :: Stands(schema, named[k], group[k]) && AnswersFrom(schema, rows, world, named[k], group[k])
    requires IsClosed(world, named) && ParkAndSwap.NoDeletions(group) && ReceivedRowsFit(schema, table, rows, group)
    ensures ParkAndSwap.FinalsFit(schema, table, rows, group)
  {
    forall i, other, index | 0 <= i < |group| && other in rows && !ParkAndSwap.Names(group, other) && other.table == table
                             && index in Uniques(schema, table)
      ensures !Clash(index, group[i].row.value, rows[other])
    {
      assert Stands(schema, named[i], group[i]);
      var m :| 0 <= m < |Uniques(schema, table)| && Uniques(schema, table)[m] == index;
      if Clash(index, group[i].row.value, rows[other]) {
        WayIsMember(schema, rows, world, named, group, i, m, other);
      }
    }
  }

  /** A group collected as closed, of current rows that fit together and have their parents, is
      applied by its transaction. */
  lemma CollectedGroupIsApplied(schema: Schema, db: Database, world: Processing.World, entry: Processing.Item,
                                open: set<Processing.Item>, named: seq<Processing.Item>, group: seq<Item>, draw: ParkAndSwap.Draw)
    requires Processing.IsGroup(named, entry, open) && IsClosed(world, named)
    requires StandFor(schema, named, group) && ConstraintsHold(schema, db.rows) && ParkAndSwap.AllFresh(db, group)
    requires forall k | 0 <= k < |group| :: Stands(schema, named[k], group[k]) && AnswersFrom(schema, db.rows, world, named[k], group[k])
    requires var table := entry.table;
             && table in schema && !schema[table].keyOnly && |schema[table].uniques| > 0
             && ParkAndSwap.AllParkable(schema, table) && ParkAndSwap.DrawsAreUnused(schema, db.rows, group, draw)
             && ParkAndSwap.NoDeletions(group) && ReceivedRowsFit(schema, table, db.rows, group)
    ensures ParkAndSwap.GroupResult(schema, db, group, draw).applied
  {
    var table := entry.table;
    forall i | 0 <= i < |group| ensures group[i].key == Key(table, named[i].hash) {
      assert Stands(schema, named[i], group[i]);
    }
    ClosedFinalsFit(schema, table, db.rows, world, named, group);
    ParkAndSwap.ClosedGroupIsApplied(schema, table, db, group, draw);
  }
}
