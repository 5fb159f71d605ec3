/** The complete transfer's walk over the version registry (src/cluster/replicator.ts): a stretch
    at a time from a saved position, tables by dependency, rows by key.

    Key hashes are fixed-length hexadecimal and are modelled by the numbers they write. */
module Transfer {
  import opened Versions

  type Hash = nat

  /** A row of the registry; one without a readable key does not become an entry. */
  datatype Record = Record(hash: Hash, decodes: bool)

  /** `table` is the table's place in the dependency order. */
  datatype Entry = Entry(table: nat, hash: Hash)

  datatype Position = Position(table: Option<string>, hash: Option<Hash>)

  /** What a query ordered by key hash returns for each table. */
  type Registry = map<string, seq<Record>>

  function RowsOf(registry: Registry, table: string): seq<Record>
  {
    if table in registry then registry[table] else []
  }

  ghost predicate Ascending(rows: seq<Record>)
  {
    forall i, j | 0 <= i < j < |rows| :: rows[i].hash < rows[j].hash
  }

  ghost predicate WellFormed(registry: Registry)
  {
    forall t {:trigger RowsOf(registry, t)} :: Ascending(RowsOf(registry, t))
  }

  ghost predicate AllDecode(registry: Registry)
  {
    forall t {:trigger RowsOf(registry, t)} :: forall r | r in RowsOf(registry, t) :: r.decodes
  }

  /** The first place from `i` on whose key lies above `after`. */
  function FirstAbove(rows: seq<Record>, after: int, i: nat): (r: nat)
    requires i <= |rows|
    ensures i <= r <= |rows| && (r < |rows| ==> rows[r].hash > after)
    decreases |rows| - i
  {
    if i == |rows| || rows[i].hash > after then i else FirstAbove(rows, after, i + 1)
  }

  function Page(rows: seq<Record>, after: int, limit: nat): seq<Record>
  {
    var from := FirstAbove(rows, after, 0);
    rows[from..if |rows| - from <= limit then |rows| else from + limit]
  }

  /** The entries of the first `n` rows. */
  function DecodedUpTo(table: nat, rows: seq<Record>, n: nat): (r: seq<Entry>)
    requires n <= |rows|
    ensures |r| <= n
  {
    if n == 0 then []
    else DecodedUpTo(table, rows, n - 1) + if rows[n - 1].decodes then [Entry(table, rows[n - 1].hash)] else []
  }

  function Decoded(table: nat, rows: seq<Record>): (r: seq<Entry>)
    ensures |r| <= |rows|
  {
    DecodedUpTo(table, rows, |rows|)
  }

  /** One stretch of at most `room` entries from a place in the order on. */
  function ReadFrom(tables: seq<string>, registry: Registry, index: nat, after: int, room: nat): (seq<Entry>, Option<Position>)
    requires room > 0
    decreases |tables| - index
  {
    if index >= |tables| then ([], None)
    else
      var page := Page(RowsOf(registry, tables[index]), after, room);
      var found := Decoded(index, page);
      if |found| >= room then (found, Some(Position(Some(tables[index]), Some(page[|page| - 1].hash))))
      else
        var rest := ReadFrom(tables, registry, index + 1, -1, room - |found|);
        (found + rest.0, rest.1)
  }

  /** The first place from `i` on that holds this name, or -1. */
  function PlaceFrom(tables: seq<string>, name: string, i: nat): (r: int)
    requires i <= |tables|
    ensures -1 <= r < |tables| && (r >= 0 ==> r >= i && tables[r] == name)
    decreases |tables| - i
  {
    if i == |tables| then -1 else if tables[i] == name then i else PlaceFrom(tables, name, i + 1)
  }

  function FirstPlace(tables: seq<string>, name: string): int
  {
    PlaceFrom(tables, name, 0)
  }

  /** The first place from `i` on that holds a greater name, or -1. */
  function GreaterFrom(tables: seq<string>, name: string, i: nat): (r: int)
    requires i <= |tables|
    ensures -1 <= r < |tables| && (r >= 0 ==> r >= i && StringLess(name, tables[r]))
    decreases |tables| - i
  {
    if i == |tables| then -1 else if StringLess(name, tables[i]) then i else GreaterFrom(tables, name, i + 1)
  }

  function FirstGreater(tables: seq<string>, name: string): int
  {
    GreaterFrom(tables, name, 0)
  }

  /** Where a saved position starts: place and key hash, or past the end. */
  function StartOf(tables: seq<string>, position: Position): (nat, int)
  {
    var at := if position.table.None? || position.table.value == "" then 0 else FirstPlace(tables, position.table.value);
    if at >= 0 then (at, if position.hash.None? then -1 else position.hash.value)
    else
      var later := FirstGreater(tables, position.table.value);
      if later < 0 then (|tables|, -1) else (later, -1)
  }

  method ReadTransfer(tables: seq<string>, registry: Registry, position: Position, limit: nat)
    returns (entries: seq<Entry>, next: Option<Position>)
    requires limit > 0
    ensures var start := StartOf(tables, position);
            (entries, next) == ReadFrom(tables, registry, start.0, start.1, limit)
  {
    var index: int := if position.table.None? || position.table.value == "" then 0 else FirstPlace(tables, position.table.value);
    var after: int := if position.hash.None? then -1 else position.hash.value;
    if index < 0 {
      index := FirstGreater(tables, position.table.value);
      after := -1;
      if index < 0 { return [], None; }
    }
    entries, next := ReadTables(tables, registry, index, after, limit);
  }

  /** The loop over the tables. */
  method ReadTables(tables: seq<string>, registry: Registry, from: nat, afterHash: int, limit: nat)
    returns (entries: seq<Entry>, next: Option<Position>)
    requires limit > 0
    ensures (entries, next) == ReadFrom(tables, registry, from, afterHash, limit)
  {
    var index, after := from, afterHash;
    entries := [];
    next := None;
    ghost var whole := ReadFrom(tables, registry, index, after, limit);
    assert [] + whole.0 == whole.0;
    while index < |tables|
      invariant |entries| < limit
      invariant Continues(whole, entries, tables, registry, index, after, limit)
    {
      var rows := Page(RowsOf(registry, tables[index]), after, limit - |entries|);
      OneTable(whole, entries, tables, registry, index, after, limit, rows);
      entries := entries + Decoded(index, rows);
      if |rows| > 0 { next := Some(LastOf(tables[index], rows)); }
      if |entries| >= limit {
        return entries, next;
      }
      index := index + 1;
      after := -1;
      if index < |tables| { next := Some(Position(Some(tables[index]), None)); }
    }
    NoTableLeft(whole, entries, tables, registry, index, after, limit);
    return entries, None;
  }

  function LastOf(table: string, page: seq<Record>): Position
    requires page != []
  {
    Position(Some(table), Some(page[|page| - 1].hash))
  }

  /** `entries` and what is read from here on make up the whole stretch. */
  ghost predicate Continues(whole: (seq<Entry>, Option<Position>), entries: seq<Entry>, tables: seq<string>, registry: Registry,
                            index: nat, after: int, limit: nat)
    requires |entries| < limit
  {
    var rest := ReadFrom(tables, registry, index, after, limit - |entries|);
    whole == (entries + rest.0, rest.1)
  }

  lemma OneTable(whole: (seq<Entry>, Option<Position>), entries: seq<Entry>, tables: seq<string>, registry: Registry,
                 index: nat, after: int, limit: nat, page: seq<Record>)
    requires index < |tables| && |entries| < limit && Continues(whole, entries, tables, registry, index, after, limit)
    requires page == Page(RowsOf(registry, tables[index]), after, limit - |entries|)
    ensures var more := entries + Decoded(index, page);
            if |more| >= limit then page != [] && whole == (more, Some(LastOf(tables[index], page)))
            else Continues(whole, more, tables, registry, index + 1, -1, limit)
  {
    var found := Decoded(index, page);
    if |entries + found| < limit {
      var rest := ReadFrom(tables, registry, index + 1, -1, limit - |entries + found|);
      assert entries + (found + rest.0) == (entries + found) + rest.0;
    }
  }

  lemma NoTableLeft(whole: (seq<Entry>, Option<Position>), entries: seq<Entry>, tables: seq<string>, registry: Registry,
                    index: nat, after: int, limit: nat)
    requires |entries| < limit && index >= |tables| && Continues(whole, entries, tables, registry, index, after, limit)
    ensures whole == (entries, None)
  {
    assert entries + [] == entries;
  }

  // ─── One stretch ─────────────────────────────────────────────────────────────

  /** A record lies behind a place in the walk. */
  predicate Behind(index: nat, after: int, table: nat, hash: Hash)
  {
    table > index || (table == index && hash > after)
  }

  /** A record lies behind the position a call returned; nothing lies behind the end. */
  predicate StillToCome(tables: seq<string>, next: Option<Position>, table: nat, hash: Hash)
  {
    next.Some? && var start := StartOf(tables, next.value); Behind(start.0, start.1, table, hash)
  }

  ghost predicate Distinct(tables: seq<string>)
  {
    (forall i, j | 0 <= i < j < |tables| :: tables[i] != tables[j]) && forall i | 0 <= i < |tables| :: tables[i] != ""
  }

  lemma {:induction false} FoundFrom(tables: seq<string>, name: string, i: nat, j: nat)
    requires i <= j < |tables| && tables[j] == name
    ensures PlaceFrom(tables, name, i) >= 0
    decreases j - i
  {
    if i < j && tables[i] != name { FoundFrom(tables, name, i + 1, j); }
  }

  /** A position in a table that is there is where the walk goes on. */
  lemma StartsThere(tables: seq<string>, i: nat, hash: Hash)
    requires Distinct(tables) && i < |tables|
    ensures StartOf(tables, Position(Some(tables[i]), Some(hash))) == (i, hash as int)
  {
    FoundFrom(tables, tables[i], 0, i);
  }

  lemma {:induction false} AllBelow(rows: seq<Record>, after: int, i: nat, k: nat)
    requires i <= |rows| && i <= k < FirstAbove(rows, after, i)
    ensures rows[k].hash <= after
    decreases k - i
  {
    if i < k { AllBelow(rows, after, i + 1, k); }
  }

  lemma {:induction false} DecodedAllUpTo(table: nat, rows: seq<Record>, n: nat)
    requires n <= |rows| && forall r | r in rows :: r.decodes
    ensures |DecodedUpTo(table, rows, n)| == n
    ensures forall i | 0 <= i < n :: DecodedUpTo(table, rows, n)[i] == Entry(table, rows[i].hash)
  {
    if n > 0 { DecodedAllUpTo(table, rows, n - 1); }
  }

  lemma DecodedAll(table: nat, rows: seq<Record>)
    requires forall r | r in rows :: r.decodes
    ensures |Decoded(table, rows)| == |rows|
    ensures forall i | 0 <= i < |rows| :: Decoded(table, rows)[i] == Entry(table, rows[i].hash)
  {
    DecodedAllUpTo(table, rows, |rows|);
  }

  ghost predicate Has(rows: seq<Record>, h: Hash)
  {
    exists i {:trigger rows[i]} :: 0 <= i < |rows| && rows[i].hash == h
  }

  ghost predicate IsFull(page: seq<Record>, limit: nat)
  {
    |page| > 0 && |page| >= limit
  }

  lemma PageIsSlice(rows: seq<Record>, after: int, limit: nat) returns (from: nat)
    requires Ascending(rows)
    ensures var page := Page(rows, after, limit);
            && from + |page| <= |rows| && page == rows[from..from + |page|] && |page| <= limit
            && (from + |page| == |rows| || |page| == limit)
            && (forall i | 0 <= i < from :: rows[i].hash <= after) && (forall i | from <= i < |rows| :: rows[i].hash > after)
  {
    from := FirstAbove(rows, after, 0);
    forall i | 0 <= i < from ensures rows[i].hash <= after {
      AllBelow(rows, after, 0, i);
    }
  }

  /** What one page holds: the rows above `after`, up to its last one when it is full. */
  lemma PageIsRange(rows: seq<Record>, after: int, limit: nat, h: Hash)
    requires Ascending(rows) && limit > 0
    ensures var page := Page(rows, after, limit);
            Has(page, h) <==> Has(rows, h) && h > after && (IsFull(page, limit) ==> h <= page[|page| - 1].hash)
  {
    var from := PageIsSlice(rows, after, limit);
    var page := Page(rows, after, limit);
    assert forall i {:trigger page[i]} | 0 <= i < |page| :: page[i] == rows[from + i];
    if i :| 0 <= i < |rows| && rows[i].hash == h && h > after && (IsFull(page, limit) ==> h <= page[|page| - 1].hash) {
      assert i >= from;
      assert i - from < |page|;
      assert page[i - from].hash == h;
    }
    if Has(page, h) {
      var i :| 0 <= i < |page| && page[i].hash == h;
      assert rows[from + i].hash == h;
    }
  }

  ghost predicate InRegistry(tables: seq<string>, registry: Registry, table: nat, hash: Hash)
  {
    table < |tables| && Has(RowsOf(registry, tables[table]), hash)
  }

  /** The position returned lies at or behind where the stretch started. */
  lemma {:induction false} NextIsLater(tables: seq<string>, registry: Registry, index: nat, after: int, room: nat)
    requires Distinct(tables) && WellFormed(registry) && room > 0
    ensures var next := ReadFrom(tables, registry, index, after, room).1;
            next.Some? ==> var start := StartOf(tables, next.value); start.1 >= 0 && Behind(index, after, start.0, start.1)
    decreases |tables| - index
  {
    if index < |tables| {
      var page := Page(RowsOf(registry, tables[index]), after, room);
      var found := Decoded(index, page);
      if |found| < room {
        NextIsLater(tables, registry, index + 1, -1, room - |found|);
      } else {
        var from := PageIsSlice(RowsOf(registry, tables[index]), after, room);
        StartsThere(tables, index, page[|page| - 1].hash);
        assert page[|page| - 1] == RowsOf(registry, tables[index])[from + |page| - 1];
      }
    }
  }

  lemma FoundInPage(index: nat, page: seq<Record>, table: nat, hash: Hash)
    requires forall r | r in page :: r.decodes
    ensures Entry(table, hash) in Decoded(index, page) <==> table == index && Has(page, hash)
  {
    DecodedAll(index, page);
    var found := Decoded(index, page);
    if table == index && Has(page, hash) {
      var i :| 0 <= i < |page| && page[i].hash == hash;
      assert found[i] == Entry(table, hash);
    }
    if Entry(table, hash) in found {
      var i :| 0 <= i < |found| && found[i] == Entry(table, hash);
      assert page[i].hash == hash;
    }
  }

  lemma PageDecodes(registry: Registry, table: string, after: int, limit: nat)
    requires WellFormed(registry) && AllDecode(registry)
    ensures var page := Page(RowsOf(registry, table), after, limit); Ascending(page) && forall r | r in page :: r.decodes
  {
    var from := PageIsSlice(RowsOf(registry, table), after, limit);
  }

  /** `read`, from this place on, holds this record exactly if it lies between there and the end. */
  ghost predicate HoldsInRange(tables: seq<string>, registry: Registry, index: nat, after: int, read: (seq<Entry>, Option<Position>),
                               table: nat, hash: Hash)
  {
    Entry(table, hash) in read.0 <==>
      InRegistry(tables, registry, table, hash) && Behind(index, after, table, hash) && !StillToCome(tables, read.1, table, hash)
  }

  /** A record of the page read in one table: in the registry, above `after`, and not above the last
      row of a full page. */
  ghost predicate PageHolds(tables: seq<string>, registry: Registry, index: nat, after: int, room: nat, table: nat, hash: Hash,
                            page: seq<Record>, found: seq<Entry>)
  {
    && |found| == |page| <= room
    && (Entry(table, hash) in found <==>
          table == index && InRegistry(tables, registry, table, hash) && hash > after
          && (|page| > 0 && |page| == room ==> hash <= page[|page| - 1].hash))
  }

  lemma PageHoldsRange(tables: seq<string>, registry: Registry, index: nat, after: int, room: nat, table: nat, hash: Hash)
    requires WellFormed(registry) && AllDecode(registry) && room > 0 && index < |tables|
    ensures var page := Page(RowsOf(registry, tables[index]), after, room);
            PageHolds(tables, registry, index, after, room, table, hash, page, Decoded(index, page))
  {
    var page := Page(RowsOf(registry, tables[index]), after, room);
    PageIsRange(RowsOf(registry, tables[index]), after, room, hash);
    PageDecodes(registry, tables[index], after, room);
    FoundInPage(index, page, table, hash);
    DecodedAll(index, page);
  }

  lemma ToComeInTable(tables: seq<string>, i: nat, last: Hash, table: nat, hash: Hash)
    requires Distinct(tables) && i < |tables|
    ensures StillToCome(tables, Some(Position(Some(tables[i]), Some(last))), table, hash) <==> Behind(i, last, table, hash)
  {
    StartsThere(tables, i, last);
  }

  lemma FullPageHolds(tables: seq<string>, registry: Registry, index: nat, after: int, room: nat, table: nat, hash: Hash,
                      page: seq<Record>, found: seq<Entry>)
    requires Distinct(tables) && index < |tables| && |found| >= room > 0
    requires PageHolds(tables, registry, index, after, room, table, hash, page, found)
    ensures HoldsInRange(tables, registry, index, after, (found, Some(LastOf(tables[index], page))), table, hash)
  {
    ToComeInTable(tables, index, page[|page| - 1].hash, table, hash);
  }

  /** What one page and the stretch from the next table on hold together. */
  lemma JoinedHolds(tables: seq<string>, registry: Registry, index: nat, after: int, room: nat, table: nat, hash: Hash,
                    page: seq<Record>, found: seq<Entry>, rest: (seq<Entry>, Option<Position>))
    requires |found| < room && PageHolds(tables, registry, index, after, room, table, hash, page, found)
    requires HoldsInRange(tables, registry, index + 1, -1, rest, table, hash)
    requires StillToCome(tables, rest.1, table, hash) ==> table > index
    ensures HoldsInRange(tables, registry, index, after, (found + rest.0, rest.1), table, hash)
  {
  }

  /** A stretch holds exactly the records between where it started and where it ended. */
  lemma {:induction false} StretchIsRange(tables: seq<string>, registry: Registry, index: nat, after: int, room: nat, table: nat, hash: Hash)
    requires Distinct(tables) && WellFormed(registry) && AllDecode(registry) && room > 0
    ensures HoldsInRange(tables, registry, index, after, ReadFrom(tables, registry, index, after, room), table, hash)
    decreases |tables| - index
  {
    if index < |tables| {
      var page := Page(RowsOf(registry, tables[index]), after, room);
      var found := Decoded(index, page);
      PageHoldsRange(tables, registry, index, after, room, table, hash);
      if |found| >= room {
        FullPageHolds(tables, registry, index, after, room, table, hash, page, found);
      } else {
        var rest := ReadFrom(tables, registry, index + 1, -1, room - |found|);
        StretchIsRange(tables, registry, index + 1, -1, room - |found|, table, hash);
        NextIsLater(tables, registry, index + 1, -1, room - |found|);
        JoinedHolds(tables, registry, index, after, room, table, hash, page, found, rest);
      }
    }
  }

  predicate Precedes(a: Entry, b: Entry)
  {
    a.table < b.table || (a.table == b.table && a.hash < b.hash)
  }

  ghost predicate InWalkOrder(entries: seq<Entry>)
  {
    forall i, j | 0 <= i < j < |entries| :: Precedes(entries[i], entries[j])
  }

  /** In order, and of no table before `index`. */
  ghost predicate OrderedFrom(entries: seq<Entry>, index: nat)
  {
    InWalkOrder(entries) && forall i | 0 <= i < |entries| :: entries[i].table >= index
  }

  lemma PageInWalkOrder(index: nat, page: seq<Record>)
    requires Ascending(page) && forall r | r in page :: r.decodes
    ensures InWalkOrder(Decoded(index, page)) && forall i | 0 <= i < |Decoded(index, page)| :: Decoded(index, page)[i].table == index
  {
    DecodedAll(index, page);
  }

  lemma JoinInWalkOrder(index: nat, found: seq<Entry>, rest: seq<Entry>)
    requires InWalkOrder(found) && (forall i | 0 <= i < |found| :: found[i].table == index) && OrderedFrom(rest, index + 1)
    ensures OrderedFrom(found + rest, index)
  {
  }

  lemma PageIsNoLonger(registry: Registry, table: string, index: nat, after: int, room: nat)
    requires WellFormed(registry) && AllDecode(registry)
    ensures var page := Page(RowsOf(registry, table), after, room); |page| <= room && |Decoded(index, page)| == |page|
  {
    PageDecodes(registry, table, after, room);
    DecodedAll(index, Page(RowsOf(registry, table), after, room));
  }

  /** A stretch is full unless the walk ends. */
  lemma {:induction false} StretchIsFull(tables: seq<string>, registry: Registry, index: nat, after: int, room: nat)
    requires WellFormed(registry) && AllDecode(registry) && room > 0
    ensures var read := ReadFrom(tables, registry, index, after, room); |read.0| <= room && (read.1.Some? <==> |read.0| == room)
    decreases |tables| - index
  {
    if index < |tables| {
      PageIsNoLonger(registry, tables[index], index, after, room);
      var found := Decoded(index, Page(RowsOf(registry, tables[index]), after, room));
      if |found| < room { StretchIsFull(tables, registry, index + 1, -1, room - |found|); }
    }
  }

  /** A stretch lists its records by table, parents first, and by key; it is full unless the walk ends. */
  lemma {:induction false} StretchIsOrdered(tables: seq<string>, registry: Registry, index: nat, after: int, room: nat)
    requires WellFormed(registry) && AllDecode(registry) && room > 0
    ensures var read := ReadFrom(tables, registry, index, after, room);
            OrderedFrom(read.0, index) && |read.0| <= room && (read.1.Some? <==> |read.0| == room)
    decreases |tables| - index
  {
    StretchIsFull(tables, registry, index, after, room);
    if index < |tables| {
      PageDecodes(registry, tables[index], after, room);
      var page := Page(RowsOf(registry, tables[index]), after, room);
      var found := Decoded(index, page);
      PageInWalkOrder(index, page);
      if |found| < room {
        StretchIsOrdered(tables, registry, index + 1, -1, room - |found|);
        JoinInWalkOrder(index, found, ReadFrom(tables, registry, index + 1, -1, room - |found|).0);
      }
    }
  }

  // ─── The whole walk ──────────────────────────────────────────────────────────

  /** One call. `registry` holds for each table what the one query for it saw: between two queries, and
      between two calls, everything may change. */
  datatype Call = Call(registry: Registry, position: Position, entries: seq<Entry>, next: Option<Position>)

  ghost predicate IsCall(tables: seq<string>, limit: nat, call: Call)
    requires limit > 0
  {
    && WellFormed(call.registry) && AllDecode(call.registry)
    && var start := StartOf(tables, call.position);
       (call.entries, call.next) == ReadFrom(tables, call.registry, start.0, start.1, limit)
  }

  /** Calls from the beginning, each from the position the one before returned. */
  ghost predicate IsWalk(tables: seq<string>, limit: nat, calls: seq<Call>)
    requires limit > 0
  {
    && |calls| > 0 && calls[0].position == Position(None, None)
    && (forall k {:trigger CallAt(tables, limit, calls, k)} | 0 <= k < |calls| :: CallAt(tables, limit, calls, k))
    && forall k {:trigger LinkAt(calls, k)} | 0 <= k < |calls| - 1 :: LinkAt(calls, k)
  }

  ghost predicate CallAt(tables: seq<string>, limit: nat, calls: seq<Call>, k: int)
    requires limit > 0 && 0 <= k < |calls|
  {
    IsCall(tables, limit, calls[k])
  }

  ghost predicate LinkAt(calls: seq<Call>, k: int)
    requires 0 <= k < |calls| - 1
  {
    calls[k].next == Some(calls[k + 1].position)
  }

  ghost predicate StaysThroughout(tables: seq<string>, calls: seq<Call>, table: nat, hash: Hash)
  {
    forall k {:trigger calls[k]} | 0 <= k < |calls| :: InRegistry(tables, calls[k].registry, table, hash)
  }

  /** How often a record was yielded. */
  function TimesYielded(calls: seq<Call>, e: Entry): nat
  {
    if calls == [] then 0
    else TimesYielded(calls[..|calls| - 1], e) + multiset(calls[|calls| - 1].entries)[e]
  }

  lemma {:induction false} OrderedHasNoRepeats(entries: seq<Entry>, e: Entry)
    requires InWalkOrder(entries)
    ensures multiset(entries)[e] == if e in entries then 1 else 0
  {
    if entries != [] {
      var front := entries[..|entries| - 1];
      var last := entries[|entries| - 1];
      assert entries == front + [last];
      assert forall i | 0 <= i < |front| :: Precedes(front[i], last);
      OrderedHasNoRepeats(front, e);
    }
  }

  lemma CallFacts(tables: seq<string>, limit: nat, calls: seq<Call>, k: nat, table: nat, hash: Hash)
    requires limit > 0 && Distinct(tables) && IsWalk(tables, limit, calls) && k < |calls|
    ensures var call := calls[k]; var start := StartOf(tables, call.position);
            && (Entry(table, hash) in call.entries <==>
                 InRegistry(tables, call.registry, table, hash) && Behind(start.0, start.1, table, hash) && !StillToCome(tables, call.next, table, hash))
            && (StillToCome(tables, call.next, table, hash) ==> Behind(start.0, start.1, table, hash))
            && multiset(call.entries)[Entry(table, hash)] == if Entry(table, hash) in call.entries then 1 else 0
  {
    var call := calls[k];
    var start := StartOf(tables, call.position);
    assert CallAt(tables, limit, calls, k);
    StretchIsRange(tables, call.registry, start.0, start.1, limit, table, hash);
    NextIsLater(tables, call.registry, start.0, start.1, limit);
    StretchIsOrdered(tables, call.registry, start.0, start.1, limit);
    OrderedHasNoRepeats(call.entries, Entry(table, hash));
  }

  lemma WalkPrefix(tables: seq<string>, limit: nat, calls: seq<Call>)
    requires limit > 0 && IsWalk(tables, limit, calls) && |calls| > 1
    ensures IsWalk(tables, limit, calls[..|calls| - 1]) && calls[|calls| - 2].next == Some(calls[|calls| - 1].position)
  {
    var front := calls[..|calls| - 1];
    forall k | 0 <= k < |front| ensures CallAt(tables, limit, front, k) {
      assert CallAt(tables, limit, calls, k);
    }
    forall k | 0 <= k < |front| - 1 ensures LinkAt(front, k) {
      assert LinkAt(calls, k);
    }
    assert LinkAt(calls, |calls| - 2);
  }

  /** After any number of calls a record that stayed was yielded once if the walk passed it, and
      not at all if it is still to come. */
  lemma {:induction false} YieldedOnceWhenPassed(tables: seq<string>, limit: nat, calls: seq<Call>, table: nat, hash: Hash)
    requires limit > 0 && Distinct(tables) && IsWalk(tables, limit, calls) && StaysThroughout(tables, calls, table, hash)
    ensures TimesYielded(calls, Entry(table, hash)) == if StillToCome(tables, calls[|calls| - 1].next, table, hash) then 0 else 1
    decreases |calls|
  {
    var last := calls[|calls| - 1];
    CallFacts(tables, limit, calls, |calls| - 1, table, hash);
    if |calls| > 1 {
      WalkPrefix(tables, limit, calls);
      var front := calls[..|calls| - 1];
      forall k | 0 <= k < |front| ensures InRegistry(tables, front[k].registry, table, hash) {
        assert InRegistry(tables, calls[k].registry, table, hash);
      }
      YieldedOnceWhenPassed(tables, limit, front, table, hash);
    } else {
      assert TimesYielded(calls[..0], Entry(table, hash)) == 0;
    }
  }

  /** A finished walk yields every record that existed throughout exactly once, however the rest
      of the registry changed meanwhile and for every batch limit. */
  lemma FinishedWalkYieldsEverythingOnce(tables: seq<string>, limit: nat, calls: seq<Call>, table: nat, hash: Hash)
    requires limit > 0 && Distinct(tables) && IsWalk(tables, limit, calls) && calls[|calls| - 1].next == None
    requires StaysThroughout(tables, calls, table, hash)
    ensures TimesYielded(calls, Entry(table, hash)) == 1
  {
    YieldedOnceWhenPassed(tables, limit, calls, table, hash);
  }

  lemma {:induction false} LaterCallsAreBehind(tables: seq<string>, limit: nat, calls: seq<Call>, i: nat, k: nat, table: nat, hash: Hash)
    requires limit > 0 && Distinct(tables) && IsWalk(tables, limit, calls) && i < k < |calls|
    requires var start := StartOf(tables, calls[k].position); Behind(start.0, start.1, table, hash)
    ensures StillToCome(tables, calls[i].next, table, hash)
    decreases k
  {
    assert LinkAt(calls, k - 1);
    if i < k - 1 {
      CallFacts(tables, limit, calls, k - 1, table, hash);
      LaterCallsAreBehind(tables, limit, calls, i, k - 1, table, hash);
    }
  }

  /** Records come by table, parents before children, across all the calls of a walk. */
  lemma ParentsFirst(tables: seq<string>, limit: nat, calls: seq<Call>, i: nat, k: nat, a: Entry, b: Entry)
    requires limit > 0 && Distinct(tables) && IsWalk(tables, limit, calls) && i < k < |calls|
    requires a in calls[i].entries && b in calls[k].entries
    ensures Precedes(a, b)
  {
    CallFacts(tables, limit, calls, i, a.table, a.hash);
    CallFacts(tables, limit, calls, k, b.table, b.hash);
    LaterCallsAreBehind(tables, limit, calls, i, k, b.table, b.hash);
    assert !StillToCome(tables, calls[i].next, a.table, a.hash);
  }

  // ─── The walk ends ───────────────────────────────────────────────────────────

  function RowsAbove(rows: seq<Record>, after: int): nat
  {
    |rows| - FirstAbove(rows, after, 0)
  }

  /** The number of records behind a place. */
  function Remaining(tables: seq<string>, registry: Registry, index: nat, after: int): nat
    decreases |tables| - index
  {
    if index >= |tables| then 0
    else RowsAbove(RowsOf(registry, tables[index]), after) + Remaining(tables, registry, index + 1, -1)
  }

  lemma {:induction false} FirstAboveIs(rows: seq<Record>, after: int, i: nat, n: nat)
    requires i <= n <= |rows| && (forall k | i <= k < n :: rows[k].hash <= after) && (n < |rows| ==> rows[n].hash > after)
    ensures FirstAbove(rows, after, i) == n
    decreases n - i
  {
    if i < n { FirstAboveIs(rows, after, i + 1, n); }
  }

  lemma RowsAbovePage(rows: seq<Record>, after: int, room: nat)
    requires Ascending(rows) && room > 0 && |Page(rows, after, room)| == room
    ensures var page := Page(rows, after, room); RowsAbove(rows, page[room - 1].hash) + room == RowsAbove(rows, after)
  {
    var from := FirstAbove(rows, after, 0);
    var last := rows[from + room - 1].hash;
    forall k | 0 <= k < from ensures rows[k].hash <= last { AllBelow(rows, after, 0, k); }
    FirstAboveIs(rows, last, 0, from + room);
  }

  lemma FullPageGetsFurther(tables: seq<string>, registry: Registry, index: nat, after: int, room: nat)
    requires Distinct(tables) && WellFormed(registry) && AllDecode(registry) && room > 0 && index < |tables|
    requires |Decoded(index, Page(RowsOf(registry, tables[index]), after, room))| >= room
    ensures var next := ReadFrom(tables, registry, index, after, room).1;
            next.Some? && RemainingAt(tables, registry, next.value) + room == Remaining(tables, registry, index, after)
  {
    var rows := RowsOf(registry, tables[index]);
    PageIsNoLonger(registry, tables[index], index, after, room);
    StartsThere(tables, index, Page(rows, after, room)[room - 1].hash);
    RowsAbovePage(rows, after, room);
  }

  lemma PartPageIsTheRest(registry: Registry, table: string, index: nat, after: int, room: nat)
    requires WellFormed(registry) && AllDecode(registry) && |Decoded(index, Page(RowsOf(registry, table), after, room))| < room
    ensures RowsAbove(RowsOf(registry, table), after) == |Decoded(index, Page(RowsOf(registry, table), after, room))|
  {
    PageIsNoLonger(registry, table, index, after, room);
  }

  /** On a registry that does not change each call leaves `limit` fewer records to come. */
  lemma {:induction false} EveryCallGetsFurther(tables: seq<string>, registry: Registry, index: nat, after: int, room: nat)
    requires Distinct(tables) && WellFormed(registry) && AllDecode(registry) && room > 0
    ensures var next := ReadFrom(tables, registry, index, after, room).1;
            next.Some? ==> RemainingAt(tables, registry, next.value) + room == Remaining(tables, registry, index, after)
    decreases |tables| - index
  {
    if index < |tables| {
      var found := Decoded(index, Page(RowsOf(registry, tables[index]), after, room));
      if |found| >= room {
        FullPageGetsFurther(tables, registry, index, after, room);
      } else {
        PartPageIsTheRest(registry, tables[index], index, after, room);
        EveryCallGetsFurther(tables, registry, index + 1, -1, room - |found|);
      }
    }
  }

  function RemainingAt(tables: seq<string>, registry: Registry, position: Position): nat
  {
    var start := StartOf(tables, position);
    Remaining(tables, registry, start.0, start.1)
  }

  /** Calls that follow each other while the registry does not change. */
  ghost predicate IsQuietWalk(tables: seq<string>, registry: Registry, limit: nat, calls: seq<Call>)
    requires limit > 0
  {
    && (forall k {:trigger CallAt(tables, limit, calls, k)} | 0 <= k < |calls| :: CallAt(tables, limit, calls, k) && calls[k].registry == registry)
    && forall k {:trigger LinkAt(calls, k)} | 0 <= k < |calls| - 1 :: LinkAt(calls, k)
  }

  lemma Prepend(tables: seq<string>, registry: Registry, limit: nat, call: Call, rest: seq<Call>)
    requires limit > 0 && IsQuietWalk(tables, registry, limit, rest) && IsCall(tables, limit, call) && call.registry == registry
    requires rest != [] ==> call.next == Some(rest[0].position)
    ensures IsQuietWalk(tables, registry, limit, [call] + rest)
  {
    var calls := [call] + rest;
    forall k | 0 <= k < |calls| ensures CallAt(tables, limit, calls, k) && calls[k].registry == registry {
      if k > 0 { assert CallAt(tables, limit, rest, k - 1); }
    }
    forall k | 0 <= k < |calls| - 1 ensures LinkAt(calls, k) {
      if k > 0 { assert LinkAt(rest, k - 1); }
    }
  }

  lemma NextCallHasLess(tables: seq<string>, registry: Registry, position: Position, limit: nat) returns (call: Call)
    requires limit > 0 && Distinct(tables) && WellFormed(registry) && AllDecode(registry)
    ensures IsCall(tables, limit, call) && call.registry == registry && call.position == position
    ensures call.next.Some? ==> RemainingAt(tables, registry, call.next.value) + limit == RemainingAt(tables, registry, position)
  {
    var start := StartOf(tables, position);
    var read := ReadFrom(tables, registry, start.0, start.1, limit);
    call := Call(registry, position, read.0, read.1);
    EveryCallGetsFurther(tables, registry, start.0, start.1, limit);
  }

  lemma OneCallMore(calls: nat, limit: nat, remaining: nat)
    requires calls * limit <= remaining
    ensures (calls + 1) * limit <= remaining + limit
  {
  }

  /** Reading an unchanging registry from any place ends; the number of calls is bounded by the
      records that are left. */
  lemma {:induction false} WalkEnds(tables: seq<string>, registry: Registry, position: Position, limit: nat) returns (calls: seq<Call>)
    requires limit > 0 && Distinct(tables) && WellFormed(registry) && AllDecode(registry)
    ensures IsQuietWalk(tables, registry, limit, calls)
    ensures |calls| > 0 && calls[0].position == position && calls[|calls| - 1].next == None
    ensures (|calls| - 1) * limit <= RemainingAt(tables, registry, position)
    decreases RemainingAt(tables, registry, position)
  {
    var call := NextCallHasLess(tables, registry, position, limit);
    if call.next.None? {
      calls := [call] + [];
      Prepend(tables, registry, limit, call, []);
    } else {
      var rest := WalkEnds(tables, registry, call.next.value, limit);
      calls := [call] + rest;
      Prepend(tables, registry, limit, call, rest);
      OneCallMore(|rest| - 1, limit, RemainingAt(tables, registry, call.next.value));
    }
  }

  // ─── Rows that do not decode ─────────────────────────────────────────────────

  ghost predicate HasReadable(rows: seq<Record>, h: Hash)
  {
    exists i {:trigger rows[i]} :: 0 <= i < |rows| && rows[i] == Record(h, true)
  }

  ghost predicate Readable(tables: seq<string>, registry: Registry, table: nat, hash: Hash)
  {
    table < |tables| && HasReadable(RowsOf(registry, tables[table]), hash)
  }

  /** A readable record between where the stretch started and where it ended that it left out. */
  ghost predicate Missed(tables: seq<string>, registry: Registry, index: nat, after: int, room: nat, table: nat, hash: Hash)
    requires room > 0
  {
    var read := ReadFrom(tables, registry, index, after, room);
    && Readable(tables, registry, table, hash) && Behind(index, after, table, hash)
    && !StillToCome(tables, read.1, table, hash) && Entry(table, hash) !in read.0
  }

  /** The record follows a page of its table that was full of rows, but not all of them readable:
      fewer entries than asked for look like the end of the table. */
  ghost predicate TableLeftBefore(tables: seq<string>, registry: Registry, index: nat, after: int, room: nat, table: nat, hash: Hash)
    requires room > 0
    decreases |tables| - index
  {
    index < |tables| &&
    var page := Page(RowsOf(registry, tables[index]), after, room);
    var found := Decoded(index, page);
    |found| < room &&
    if table == index then IsFull(page, room) && Readable(tables, registry, table, hash) && hash > page[|page| - 1].hash
    else TableLeftBefore(tables, registry, index + 1, -1, room - |found|, table, hash)
  }

  ghost predicate HasReadableUpTo(rows: seq<Record>, n: nat, h: Hash)
    requires n <= |rows|
  {
    exists i {:trigger rows[i]} :: 0 <= i < n && rows[i] == Record(h, true)
  }

  lemma {:induction false} DecodedUpToAreReadable(index: nat, page: seq<Record>, n: nat, table: nat, hash: Hash)
    requires n <= |page|
    ensures Entry(table, hash) in DecodedUpTo(index, page, n) <==> table == index && HasReadableUpTo(page, n, hash)
  {
    if n > 0 { DecodedUpToAreReadable(index, page, n - 1, table, hash); }
  }

  lemma DecodedAreReadable(index: nat, page: seq<Record>, table: nat, hash: Hash)
    ensures Entry(table, hash) in Decoded(index, page) <==> table == index && HasReadable(page, hash)
  {
    DecodedUpToAreReadable(index, page, |page|, table, hash);
  }

  lemma ReadableOnPage(rows: seq<Record>, after: int, limit: nat, h: Hash)
    requires Ascending(rows) && limit > 0
    ensures var page := Page(rows, after, limit);
            HasReadable(page, h) <==> HasReadable(rows, h) && h > after && (IsFull(page, limit) ==> h <= page[|page| - 1].hash)
  {
    var from := PageIsSlice(rows, after, limit);
    var page := Page(rows, after, limit);
    assert forall i {:trigger page[i]} | 0 <= i < |page| :: page[i] == rows[from + i];
    if i :| 0 <= i < |rows| && rows[i] == Record(h, true) && h > after && (IsFull(page, limit) ==> h <= page[|page| - 1].hash) {
      assert i >= from && i - from < |page|;
      assert page[i - from] == Record(h, true);
    }
    if HasReadable(page, h) {
      var i :| 0 <= i < |page| && page[i] == Record(h, true);
      assert rows[from + i] == Record(h, true);
    }
  }

  /** A stretch misses a readable record exactly when it left the record's table after a full page
      with an unreadable row. */
  lemma {:induction false} MissedExactlyWhenTableIsLeftEarly(tables: seq<string>, registry: Registry, index: nat, after: int, room: nat,
                                                             table: nat, hash: Hash)
    requires Distinct(tables) && WellFormed(registry) && room > 0
    ensures Missed(tables, registry, index, after, room, table, hash) <==>
            TableLeftBefore(tables, registry, index, after, room, table, hash)
    decreases |tables| - index
  {
    if index < |tables| {
      var page := Page(RowsOf(registry, tables[index]), after, room);
      var found := Decoded(index, page);
      if |found| >= room {
        NothingMissedOnFullPage(tables, registry, index, after, room, table, hash);
      } else if table == index {
        MissedInThisTable(tables, registry, index, after, room, hash);
      } else {
        MissedExactlyWhenTableIsLeftEarly(tables, registry, index + 1, -1, room - |found|, table, hash);
        MissedInOtherTable(tables, registry, index, after, room, table, hash);
      }
    }
  }

  lemma MissedInOtherTable(tables: seq<string>, registry: Registry, index: nat, after: int, room: nat, table: nat, hash: Hash)
    requires room > 0 && index < |tables| && table != index
    requires |Decoded(index, Page(RowsOf(registry, tables[index]), after, room))| < room
    ensures var found := Decoded(index, Page(RowsOf(registry, tables[index]), after, room));
            Missed(tables, registry, index, after, room, table, hash) <==>
            Missed(tables, registry, index + 1, -1, room - |found|, table, hash)
  {
    var page := Page(RowsOf(registry, tables[index]), after, room);
    DecodedAreReadable(index, page, table, hash);
  }

  /** The readable rows on the page read in one table. */
  lemma PageOfTable(tables: seq<string>, registry: Registry, index: nat, after: int, room: nat, table: nat, hash: Hash)
    requires WellFormed(registry) && room > 0 && index < |tables|
    ensures var page := Page(RowsOf(registry, tables[index]), after, room);
            && (Entry(table, hash) in Decoded(index, page) <==>
                  table == index && Readable(tables, registry, table, hash) && hash > after
                  && (IsFull(page, room) ==> hash <= page[|page| - 1].hash))
            && (IsFull(page, room) ==> page[|page| - 1].hash > after)
  {
    var rows := RowsOf(registry, tables[index]);
    var page := Page(rows, after, room);
    ReadableOnPage(rows, after, room, hash);
    DecodedAreReadable(index, page, table, hash);
    var from := PageIsSlice(rows, after, room);
    if IsFull(page, room) { assert page[|page| - 1] == rows[from + |page| - 1]; }
  }

  lemma MissedInThisTable(tables: seq<string>, registry: Registry, index: nat, after: int, room: nat, hash: Hash)
    requires Distinct(tables) && WellFormed(registry) && room > 0 && index < |tables|
    requires |Decoded(index, Page(RowsOf(registry, tables[index]), after, room))| < room
    ensures var page := Page(RowsOf(registry, tables[index]), after, room);
            Missed(tables, registry, index, after, room, index, hash) <==>
            IsFull(page, room) && Readable(tables, registry, index, hash) && hash > page[|page| - 1].hash
  {
    var found := Decoded(index, Page(RowsOf(registry, tables[index]), after, room));
    NextTablesComeAfter(tables, registry, index, room - |found|, index, hash);
    PageOfTable(tables, registry, index, after, room, index, hash);
    ReadsOn(tables, registry, index, after, room);
  }

  lemma NothingMissedOnFullPage(tables: seq<string>, registry: Registry, index: nat, after: int, room: nat, table: nat, hash: Hash)
    requires Distinct(tables) && WellFormed(registry) && room > 0 && index < |tables|
    requires |Decoded(index, Page(RowsOf(registry, tables[index]), after, room))| >= room
    ensures !Missed(tables, registry, index, after, room, table, hash)
  {
    var page := Page(RowsOf(registry, tables[index]), after, room);
    PageOfTable(tables, registry, index, after, room, table, hash);
    ToComeInTable(tables, index, page[|page| - 1].hash, table, hash);
  }

  /** Reading the following tables neither returns to this one nor yields anything of it. */
  lemma NextTablesComeAfter(tables: seq<string>, registry: Registry, index: nat, room: nat, table: nat, hash: Hash)
    requires Distinct(tables) && WellFormed(registry) && room > 0 && table <= index
    ensures var read := ReadFrom(tables, registry, index + 1, -1, room);
            !StillToCome(tables, read.1, table, hash) && Entry(table, hash) !in read.0
  {
    NextIsLater(tables, registry, index + 1, -1, room);
    NothingFromBefore(tables, registry, index + 1, -1, room, table, hash);
  }

  lemma {:induction false} DecodedOfTable(index: nat, page: seq<Record>, n: nat, e: Entry)
    requires n <= |page|
    ensures e in DecodedUpTo(index, page, n) ==> e.table == index
  {
    if n > 0 { DecodedOfTable(index, page, n - 1, e); }
  }

  /** No stretch yields anything from before its start. */
  lemma {:induction false} NothingFromBefore(tables: seq<string>, registry: Registry, index: nat, after: int, room: nat, table: nat, hash: Hash)
    requires room > 0 && table < index
    ensures Entry(table, hash) !in ReadFrom(tables, registry, index, after, room).0
    decreases |tables| - index
  {
    if index < |tables| {
      var page := Page(RowsOf(registry, tables[index]), after, room);
      var found := Decoded(index, page);
      DecodedOfTable(index, page, |page|, Entry(table, hash));
      if |found| < room { NothingFromBefore(tables, registry, index + 1, -1, room - |found|, table, hash); }
    }
  }

  /** An unreadable row followed by two readable ones, two rows a page: the last is never sent. */
  lemma UnreadableRowHidesLaterRows(t: string)
    requires t != ""
    ensures var registry := map[t := [Record(1, false), Record(2, true), Record(3, true)]];
            ReadFrom([t], registry, 0, -1, 2) == ([Entry(0, 2)], None)
  {
    var rows := [Record(1, false), Record(2, true), Record(3, true)];
    var registry := map[t := rows];
    var page := Page(RowsOf(registry, t), -1, 2);
    assert FirstAbove(rows, -1, 0) == 0;
    assert page == [Record(1, false), Record(2, true)];
    assert DecodedUpTo(0, page, 0) == [] && DecodedUpTo(0, page, 1) == [];
    assert Decoded(0, page) == [] + [Entry(0, 2)];
    assert ReadFrom([t], registry, 1, -1, 1) == ([], None);
    ReadsOn([t], registry, 0, -1, 2);
    assert Decoded(0, page) + [] == [Entry(0, 2)];
  }

  lemma ReadsOn(tables: seq<string>, registry: Registry, index: nat, after: int, room: nat)
    requires index < |tables| && |Decoded(index, Page(RowsOf(registry, tables[index]), after, room))| < room
    ensures var found := Decoded(index, Page(RowsOf(registry, tables[index]), after, room));
            var rest := ReadFrom(tables, registry, index + 1, -1, room - |found|);
            ReadFrom(tables, registry, index, after, room) == (found + rest.0, rest.1)
  {
  }

  // ─── A table that is gone ────────────────────────────────────────────────────

  /** Some table at or before this place has a greater name. */
  predicate GreaterNameUpTo(tables: seq<string>, name: string, table: nat)
    requires table < |tables|
  {
    exists j | 0 <= j <= table :: StringLess(name, tables[j])
  }

  lemma {:induction false} GreaterIsFound(tables: seq<string>, name: string, i: nat, j: nat)
    requires i <= j < |tables| && StringLess(name, tables[j])
    ensures 0 <= GreaterFrom(tables, name, i) <= j
    decreases j - i
  {
    if i < j && !StringLess(name, tables[i]) { GreaterIsFound(tables, name, i + 1, j); }
  }

  lemma FirstGreaterIsFirst(tables: seq<string>, name: string)
    ensures forall j | 0 <= j < |tables| :: StringLess(name, tables[j]) ==> 0 <= FirstGreater(tables, name) <= j
  {
    forall j | 0 <= j < |tables| && StringLess(name, tables[j]) ensures 0 <= FirstGreater(tables, name) <= j {
      GreaterIsFound(tables, name, 0, j);
    }
  }

  /** When the position's table no longer exists, the order of the walk is by dependency and the
      place to go on is by name: a table is walked from there on exactly when some table at or
      before it has a name greater than the one that is gone. */
  lemma GoneTableResumesByName(tables: seq<string>, position: Position, table: nat, hash: Hash)
    requires position.table.Some? && position.table.value != "" && position.table.value !in tables && table < |tables|
    ensures var start := StartOf(tables, position);
            Behind(start.0, start.1, table, hash) <==> GreaterNameUpTo(tables, position.table.value, table)
  {
    FirstGreaterIsFirst(tables, position.table.value);
  }

  /** A record is in the next stretch or still to come after it if its table is one of these, and
      is left out by the rest of the walk if not. */
  lemma LeftOutAfterGoneTable(tables: seq<string>, registry: Registry, position: Position, limit: nat, table: nat, hash: Hash)
    requires Distinct(tables) && WellFormed(registry) && AllDecode(registry) && limit > 0
    requires position.table.Some? && position.table.value != "" && position.table.value !in tables
    requires InRegistry(tables, registry, table, hash)
    ensures var start := StartOf(tables, position); var read := ReadFrom(tables, registry, start.0, start.1, limit);
            Entry(table, hash) in read.0 || StillToCome(tables, read.1, table, hash) <==>
              GreaterNameUpTo(tables, position.table.value, table)
  {
    var start := StartOf(tables, position);
    GoneTableResumesByName(tables, position, table, hash);
    StretchIsRange(tables, registry, start.0, start.1, limit, table, hash);
    NextIsLater(tables, registry, start.0, start.1, limit);
  }

  /** Tables a, m, b in this order and the walk inside m: once m is gone, the walk ends without b. */
  lemma GoneTableEndsTheWalk(registry: Registry, hash: Hash, limit: nat)
    requires limit > 0
    ensures var start := StartOf(["a", "b"], Position(Some("m"), Some(hash)));
            ReadFrom(["a", "b"], registry, start.0, start.1, limit) == ([], None)
  {
    FirstGreaterIsFirst(["a", "b"], "m");
    assert !StringLess("m", "a") && !StringLess("m", "b");
  }
}
