/** Which offered rows a node still needs (src/cluster/applier.ts): the registry is asked table by
    table and in chunks. */
module Offers {
  import opened Versions

  type Key = (string, string)

  type Registry = map<Key, RowVersion>

  datatype OfferItem = OfferItem(table: string, hash: string, version: RowVersion)

  const LOOKUP_CHUNK := 500

  function Known(registry: Registry, key: Key): Option<RowVersion>
  {
    if key in registry then Some(registry[key]) else None
  }

  predicate IsNeeded(catalog: set<string>, registry: Registry, item: OfferItem)
  {
    item.table in catalog && IsNewer(item.version, Known(registry, (item.table, item.hash)))
  }

  /** The hashes asked about for one table. */
  function HashesOf(items: seq<OfferItem>, table: string): (r: seq<string>)
    ensures forall h :: h in r <==> exists i :: 0 <= i < |items| && items[i].table == table && items[i].hash == h
  {
    if items == [] then []
    else
      var last := items[|items| - 1];
      HashesOf(items[..|items| - 1], table) + if last.table == table then [last.hash] else []
  }

  /** What is known of a table's hashes agrees with the registry. */
  ghost predicate Agrees(known: Registry, registry: Registry)
  {
    forall key {:trigger key in known} | key in known :: key in registry && known[key] == registry[key]
  }

  /** Looks one table up, a chunk at a time. */
  method LookUp(registry: Registry, table: string, hashes: seq<string>, before: Registry) returns (known: Registry)
    requires Agrees(before, registry)
    ensures Agrees(known, registry) && before.Keys <= known.Keys
    ensures forall h | h in hashes && (table, h) in registry :: (table, h) in known
  {
    known := before;
    var start := 0;
    while start < |hashes|
      invariant 0 <= start <= |hashes|
      invariant Agrees(known, registry) && before.Keys <= known.Keys
      invariant forall h | h in hashes[..start] && (table, h) in registry :: (table, h) in known
    {
      var end := if start + LOOKUP_CHUNK <= |hashes| then start + LOOKUP_CHUNK else |hashes|;
      var rows := map key: Key | key in registry && key.0 == table && key.1 in hashes[start..end] :: registry[key];
      assert hashes[..end] == hashes[..start] + hashes[start..end];
      known := known + rows;
      start := end;
    }
    assert hashes[..start] == hashes;
  }

  /** The positions of the offered rows that are missing here or older, in order. */
  method WantedFromOffer(catalog: set<string>, registry: Registry, items: seq<OfferItem>) returns (wanted: seq<nat>)
    ensures forall i: nat :: i in wanted <==> i < |items| && IsNeeded(catalog, registry, items[i])
    ensures forall i: nat :: i in wanted <==>
              && i < |items| && items[i].table in catalog
              && var key := (items[i].table, items[i].hash); key in registry ==> IsNewer(items[i].version, Some(registry[key]))
    ensures forall a, b | 0 <= a < b < |wanted| :: wanted[a] < wanted[b]
  {
    var known := LookUpAll(catalog, registry, items);
    wanted := [];
    var i := 0;
    while i < |items|
      invariant 0 <= i <= |items|
      invariant forall k: nat :: k in wanted <==> k < i && IsNeeded(catalog, registry, items[k])
      invariant forall a, b | 0 <= a < b < |wanted| :: wanted[a] < wanted[b]
    {
      var item := items[i];
      assert item.table in catalog ==> Known(known, (item.table, item.hash)) == Known(registry, (item.table, item.hash));
      if item.table in catalog && IsNewer(item.version, Known(known, (item.table, item.hash))) {
        forall a | 0 <= a < |wanted| ensures wanted[a] < i {
          assert wanted[a] in wanted;
        }
        wanted := wanted + [i];
      }
      i := i + 1;
    }
  }

  method LookUpAll(catalog: set<string>, registry: Registry, items: seq<OfferItem>) returns (known: Registry)
    ensures Agrees(known, registry)
    ensures forall i | 0 <= i < |items| && items[i].table in catalog ::
              (items[i].table, items[i].hash) in registry ==> (items[i].table, items[i].hash) in known
  {
    known := map[];
    var left := set i | 0 <= i < |items| :: items[i].table;
    ghost var done: set<string> := {};
    while left != {}
      invariant forall i | 0 <= i < |items| :: items[i].table in left || items[i].table in done
      invariant Agrees(known, registry)
      invariant forall i | 0 <= i < |items| && items[i].table in catalog && items[i].table in done ::
                  (items[i].table, items[i].hash) in registry ==> (items[i].table, items[i].hash) in known
      decreases left
    {
      var table :| table in left;
      left := left - {table};
      done := done + {table};
      if table !in catalog { continue; }
      known := LookUp(registry, table, HashesOf(items, table), known);
      forall i | 0 <= i < |items| && items[i].table == table && (table, items[i].hash) in registry
        ensures (table, items[i].hash) in known
      {
        assert items[i].hash in HashesOf(items, table);
      }
    }
  }
}
