/** The comparison of two nodes' version registries by a digest tree (src/cluster/verify.ts). */
module DataCheck {
  import opened Versions

  const GROUP_ROWS_LIMIT := 2000
  const MAX_PREFIX := 4
  const ROWS_LIMIT := 20000

  type Hash = string

  datatype Record = Record(version: RowVersion, deleted: bool)

  /** The version records of one table, by key hash. */
  type Registry = map<Hash, Record>

  /** The summary of a set of records besides their number: an XOR of row hashes. */
  type Digest = Registry -> int

  datatype Group = Group(count: nat, digest: int)

  predicate Kept(r: Record, floor: int)
  {
    !(r.deleted && r.version.version < floor)
  }

  /** Either side leaves old deletion records out. */
  function Filtered(registry: Registry, floor: int): Registry
  {
    map h | h in registry && Kept(registry[h], floor) :: registry[h]
  }

  function Sub(registry: Registry, prefix: string): Registry
  {
    map h | h in registry && prefix <= h :: registry[h]
  }

  /** One group per next character of the hash. */
  function GroupNames(registry: Registry, prefix: string): set<string>
  {
    set h | h in registry && prefix <= h && |h| > |prefix| :: h[..|prefix| + 1]
  }

  function LocalDigest(registry: Registry, prefix: string, digest: Digest): map<string, Group>
  {
    map n | n in GroupNames(registry, prefix) :: Group(|Sub(registry, n)|, digest(Sub(registry, n)))
  }

  function SmallerHashes(rows: Registry, h: Hash): set<Hash>
  {
    set g | g in rows && StringLess(g, h)
  }

  /** At most `limit` rows, those with the least hashes. */
  function LimitedRows(rows: Registry, limit: nat): Registry
  {
    map h | h in rows && |SmallerHashes(rows, h)| < limit :: rows[h]
  }

  function VersionIn(registry: Registry, h: Hash): Option<RowVersion>
  {
    if h in registry then Some(registry[h].version) else None
  }

  /** What a flat row-by-row comparison finds newer in `ours`. */
  function NewerIn(ours: Registry, theirs: Registry): set<Hash>
  {
    set h | h in ours && IsNewer(ours[h].version, VersionIn(theirs, h))
  }

  /** Key hashes are longer than any prefix looked at, and no leaf holds more rows than one
      answer may carry. */
  ghost predicate Fits(registry: Registry)
  {
    && (forall h {:trigger h in registry} | h in registry :: |h| > MAX_PREFIX)
    && (forall p: string {:trigger LeafFits(registry, p)} :: LeafFits(registry, p))
  }

  ghost predicate LeafFits(registry: Registry, prefix: string)
  {
    |prefix| == MAX_PREFIX ==> |Sub(registry, prefix)| <= ROWS_LIMIT
  }

  /** No two differing sets of records met in this comparison have the same summary. */
  ghost predicate NoDigestCollision(ours: Registry, theirs: Registry, digest: Digest)
  {
    forall p: string {:trigger NoCollisionBelow(ours, theirs, digest, p)} :: NoCollisionBelow(ours, theirs, digest, p)
  }

  ghost predicate NoCollisionBelow(ours: Registry, theirs: Registry, digest: Digest, prefix: string)
  {
    var a, b := Sub(ours, prefix), Sub(theirs, prefix);
    |a| == |b| && digest(a) == digest(b) ==> a == b
  }

  lemma LimitChangesNothing(rows: Registry, limit: nat)
    requires |rows| <= limit
    ensures LimitedRows(rows, limit) == rows
  {
    forall h | h in rows ensures |SmallerHashes(rows, h)| < limit {
      var smaller := SmallerHashes(rows, h);
      StringLessTotal(h, h);
      assert h !in smaller && h in rows.Keys && smaller <= rows.Keys;
      SmallerSet(smaller, rows.Keys);
      assert |rows.Keys| == |rows|;
    }
  }

  lemma SmallerSet<T>(a: set<T>, b: set<T>)
    requires a < b
    ensures |a| < |b|
  {
    assert b == a + (b - a);
  }

  lemma SubsetSize<T>(a: set<T>, b: set<T>)
    requires a <= b
    ensures |a| <= |b|
  {
    if a != b { SmallerSet(a, b); }
  }

  /** Compares one leaf row by row. Returns the rows offered to the peer. */
  method CompareRows(ours: Registry, theirs: Registry, prefix: string) returns (offered: set<Hash>)
    requires |Sub(ours, prefix)| <= ROWS_LIMIT && |Sub(theirs, prefix)| <= ROWS_LIMIT
    ensures offered == NewerIn(Sub(ours, prefix), Sub(theirs, prefix))
  {
    var remote := LimitedRows(Sub(theirs, prefix), ROWS_LIMIT);
    var local := LimitedRows(Sub(ours, prefix), ROWS_LIMIT);
    offered := set h | h in local && IsNewer(local[h].version, VersionIn(remote, h));
    LimitChangesNothing(Sub(theirs, prefix), ROWS_LIMIT);
    LimitChangesNothing(Sub(ours, prefix), ROWS_LIMIT);
  }

  lemma SmallSubFits(registry: Registry, prefix: string)
    requires Fits(registry) && (|Sub(registry, prefix)| <= GROUP_ROWS_LIMIT || |prefix| >= MAX_PREFIX)
    ensures |Sub(registry, prefix)| <= ROWS_LIMIT
  {
    if |prefix| >= MAX_PREFIX {
      var p := prefix[..MAX_PREFIX];
      forall h | h in Sub(registry, prefix).Keys ensures h in Sub(registry, p).Keys {
        assert p == h[..MAX_PREFIX];
      }
      SubsetSize(Sub(registry, prefix).Keys, Sub(registry, p).Keys);
      assert LeafFits(registry, p);
      assert |Sub(registry, p)| == |Sub(registry, p).Keys| && |Sub(registry, prefix)| == |Sub(registry, prefix).Keys|;
    }
  }

  /** What is newer in `ours` below the given groups of `prefix`. */
  function NewerBelow(ours: Registry, theirs: Registry, prefix: string, names: set<string>): set<Hash>
  {
    set h | h in ours && prefix <= h && |h| > |prefix| && h[..|prefix| + 1] in names
            && IsNewer(ours[h].version, VersionIn(theirs, h))
  }

  /** The rows below `prefix` are those of its groups. */
  lemma GroupsCoverPrefix(ours: Registry, theirs: Registry, prefix: string)
    requires Fits(ours) && |prefix| < MAX_PREFIX
    ensures NewerIn(Sub(ours, prefix), Sub(theirs, prefix)) == NewerBelow(ours, theirs, prefix, GroupNames(ours, prefix))
  {
    forall h | h in Sub(ours, prefix) ensures h[..|prefix| + 1] in GroupNames(ours, prefix) {
    }
  }

  lemma NewerBelowMore(ours: Registry, theirs: Registry, prefix: string, names: set<string>, name: string)
    ensures NewerBelow(ours, theirs, prefix, names + {name})
              == NewerBelow(ours, theirs, prefix, names) + NewerBelow(ours, theirs, prefix, {name})
  {
  }

  lemma OwnGroupsSuffice(ours: Registry, theirs: Registry, prefix: string, names: set<string>)
    requires GroupNames(ours, prefix) <= names
    ensures NewerBelow(ours, theirs, prefix, names) == NewerBelow(ours, theirs, prefix, GroupNames(ours, prefix))
  {
    assert forall h | h in ours && prefix <= h && |h| > |prefix| :: h[..|prefix| + 1] in GroupNames(ours, prefix);
  }

  lemma OneGroup(ours: Registry, theirs: Registry, prefix: string, name: string)
    requires |name| == |prefix| + 1 && prefix <= name
    ensures NewerIn(Sub(ours, name), Sub(theirs, name)) == NewerBelow(ours, theirs, prefix, {name})
  {
    forall h | h in ours ensures name <= h <==> prefix <= h && |h| > |prefix| && h[..|prefix| + 1] == name {
      if prefix <= h && |h| > |prefix| && h[..|prefix| + 1] == name {
        assert name <= h;
      }
    }
  }

  lemma GroupNameShape(registry: Registry, prefix: string, name: string)
    requires name in GroupNames(registry, prefix)
    ensures |name| == |prefix| + 1 && prefix <= name
  {
    var h :| h in registry && prefix <= h && |h| > |prefix| && name == h[..|prefix| + 1];
  }

  lemma EmptyWithoutGroup(registry: Registry, prefix: string, name: string)
    requires |name| == |prefix| + 1 && prefix <= name && name !in GroupNames(registry, prefix)
    ensures Sub(registry, name) == map[]
  {
    forall h | h in registry && name <= h ensures h[..|prefix| + 1] in GroupNames(registry, prefix) {
    }
    assert forall h | h in registry && name <= h :: h[..|prefix| + 1] == name;
  }

  method Descend(ours: Registry, theirs: Registry, prefix: string, localCount: nat, remoteCount: nat, digest: Digest)
    returns (offered: set<Hash>)
    requires Fits(ours) && Fits(theirs) && NoDigestCollision(ours, theirs, digest) && |prefix| <= MAX_PREFIX
    requires localCount == |Sub(ours, prefix)| && remoteCount == |Sub(theirs, prefix)|
    ensures offered == NewerIn(Sub(ours, prefix), Sub(theirs, prefix))
    decreases MAX_PREFIX - |prefix|, 2
  {
    if localCount + remoteCount <= GROUP_ROWS_LIMIT || |prefix| >= MAX_PREFIX {
      SmallSubFits(ours, prefix);
      SmallSubFits(theirs, prefix);
      offered := CompareRows(ours, theirs, prefix);
      return;
    }
    var ourGroups, theirGroups := LocalDigest(ours, prefix, digest), LocalDigest(theirs, prefix, digest);
    var names := ourGroups.Keys + theirGroups.Keys;
    forall n | n in names ensures GroupsAt(ours, theirs, prefix, n, ourGroups, theirGroups, digest) {
      LocalDigestGives(ours, theirs, prefix, n, digest);
    }
    offered := DescendGroups(ours, theirs, prefix, names, ourGroups, theirGroups, digest);
    GroupsCoverPrefix(ours, theirs, prefix);
    OwnGroupsSuffice(ours, theirs, prefix, names);
  }

  ghost predicate ComparableBelow(ours: Registry, theirs: Registry, prefix: string, digest: Digest)
  {
    Fits(ours) && Fits(theirs) && NoDigestCollision(ours, theirs, digest) && |prefix| < MAX_PREFIX
  }

  ghost predicate GroupsAt(ours: Registry, theirs: Registry, prefix: string, name: string,
                           ourGroups: map<string, Group>, theirGroups: map<string, Group>, digest: Digest)
  {
    && |name| == |prefix| + 1 && prefix <= name
    && (if name in ourGroups then ourGroups[name] == Group(|Sub(ours, name)|, digest(Sub(ours, name))) else Sub(ours, name) == map[])
    && (if name in theirGroups then theirGroups[name] == Group(|Sub(theirs, name)|, digest(Sub(theirs, name))) else Sub(theirs, name) == map[])
  }

  lemma LocalDigestGives(ours: Registry, theirs: Registry, prefix: string, name: string, digest: Digest)
    requires name in GroupNames(ours, prefix) + GroupNames(theirs, prefix)
    ensures GroupsAt(ours, theirs, prefix, name, LocalDigest(ours, prefix, digest), LocalDigest(theirs, prefix, digest), digest)
  {
    GroupNameShape(if name in GroupNames(ours, prefix) then ours else theirs, prefix, name);
    if name !in GroupNames(ours, prefix) { EmptyWithoutGroup(ours, prefix, name); }
    if name !in GroupNames(theirs, prefix) { EmptyWithoutGroup(theirs, prefix, name); }
  }

  /** Every group held on either side, one after the other. */
  method DescendGroups(ours: Registry, theirs: Registry, prefix: string, names: set<string>,
                       ourGroups: map<string, Group>, theirGroups: map<string, Group>, digest: Digest)
    returns (offered: set<Hash>)
    requires ComparableBelow(ours, theirs, prefix, digest)
    requires forall n {:trigger GroupsAt(ours, theirs, prefix, n, ourGroups, theirGroups, digest)} | n in names ::
               GroupsAt(ours, theirs, prefix, n, ourGroups, theirGroups, digest)
    ensures offered == NewerBelow(ours, theirs, prefix, names)
    decreases MAX_PREFIX - |prefix|, 1
  {
    ghost var seen := {};
    var left := names;
    offered := {};
    while left != {}
      invariant left <= names && seen == names - left
      invariant offered == NewerBelow(ours, theirs, prefix, seen)
      decreases left
    {
      var name :| name in left;
      left := left - {name};
      assert GroupsAt(ours, theirs, prefix, name, ourGroups, theirGroups, digest);
      var found := DescendGroup(ours, theirs, prefix, name, ourGroups, theirGroups, digest);
      NewerBelowMore(ours, theirs, prefix, seen, name);
      offered := offered + found;
      seen := seen + {name};
    }
    assert seen == names;
  }

  /** One group of a prefix: skipped when it is not held here or both sides summarise it alike. */
  method DescendGroup(ours: Registry, theirs: Registry, prefix: string, name: string,
                      ourGroups: map<string, Group>, theirGroups: map<string, Group>, digest: Digest)
    returns (offered: set<Hash>)
    requires ComparableBelow(ours, theirs, prefix, digest)
    requires GroupsAt(ours, theirs, prefix, name, ourGroups, theirGroups, digest)
    ensures offered == NewerBelow(ours, theirs, prefix, {name})
    decreases MAX_PREFIX - |prefix|, 0
  {
    OneGroup(ours, theirs, prefix, name);
    if name !in ourGroups { return {}; }
    if name in theirGroups && ourGroups[name] == theirGroups[name] {
      assert NoCollisionBelow(ours, theirs, digest, name);
      SameRecordsAreNotNewer(Sub(ours, name));
      return {};
    }
    offered := Descend(ours, theirs, name, ourGroups[name].count,
                       if name in theirGroups then theirGroups[name].count else 0, digest);
  }

  lemma SameRecordsAreNotNewer(r: Registry)
    ensures NewerIn(r, r) == {}
  {
    forall h | h in r ensures !IsNewer(r[h].version, VersionIn(r, h)) {
      CompareVersionsIsTotalOrder(r[h].version, r[h].version, r[h].version);
    }
  }

  type Tables = map<string, Registry>

  function FilteredTable(tables: Tables, name: string, floor: int): Registry
  {
    if name in tables then Filtered(tables[name], floor) else map[]
  }

  ghost predicate Comparable(ours: Tables, theirs: Tables, floor: int, digest: Digest)
  {
    forall t {:trigger FilteredTable(ours, t, floor)} {:trigger FilteredTable(theirs, t, floor)} ::
      && Fits(FilteredTable(ours, t, floor)) && Fits(FilteredTable(theirs, t, floor))
      && NoDigestCollision(FilteredTable(ours, t, floor), FilteredTable(theirs, t, floor), digest)
  }

  lemma WholeIsEmptyPrefix(registry: Registry)
    ensures Sub(registry, "") == registry
  {
  }

  /** One table: skipped when it has no rows here or both sides summarise it alike. */
  method VerifyTable(ours: Registry, theirs: Registry, digest: Digest) returns (offered: set<Hash>)
    requires Fits(ours) && Fits(theirs) && NoDigestCollision(ours, theirs, digest)
    ensures offered == NewerIn(ours, theirs)
  {
    WholeIsEmptyPrefix(ours);
    WholeIsEmptyPrefix(theirs);
    if |ours| == 0 { return {}; }
    if |theirs| != 0 && |ours| == |theirs| && digest(ours) == digest(theirs) {
      assert NoCollisionBelow(ours, theirs, digest, "");
      SameRecordsAreNotNewer(ours);
      return {};
    }
    offered := Descend(ours, theirs, "", |ours|, |theirs|, digest);
  }

  /** What a flat comparison of everything kept finds newer here. */
  predicate FlatlyNewer(ours: Tables, theirs: Tables, floor: int, t: string, h: Hash)
  {
    h in NewerIn(FilteredTable(ours, t, floor), FilteredTable(theirs, t, floor))
  }

  /** The record is there and not an old deletion. */
  predicate IsShown(tables: Tables, floor: int, t: string, h: Hash)
  {
    t in tables && h in tables[t] && !(tables[t][h].deleted && tables[t][h].version.version < floor)
  }

  /** The record is shown here, and the other side shows none or one that is not as new. */
  predicate LacksThere(ours: Tables, theirs: Tables, floor: int, t: string, h: Hash)
  {
    IsShown(ours, floor, t, h) && (IsShown(theirs, floor, t, h) ==> IsNewer(ours[t][h].version, Some(theirs[t][h].version)))
  }

  lemma FlatlyNewerMeans(ours: Tables, theirs: Tables, floor: int, t: string, h: Hash)
    ensures FlatlyNewer(ours, theirs, floor, t, h) <==> LacksThere(ours, theirs, floor, t, h)
  {
    var a, b := FilteredTable(ours, t, floor), FilteredTable(theirs, t, floor);
    assert h in a <==> IsShown(ours, floor, t, h);
    assert h in b <==> IsShown(theirs, floor, t, h);
  }

  /** The whole check against a peer: what is offered is exactly what a flat comparison of
      the two filtered registries finds newer here. */
  method VerifyPeer(ours: Tables, theirs: Tables, floor: int, digest: Digest) returns (offered: set<(string, Hash)>)
    requires Comparable(ours, theirs, floor, digest)
    ensures forall t, h {:trigger FlatlyNewer(ours, theirs, floor, t, h)} {:trigger (t, h) in offered} ::
              (t, h) in offered <==> FlatlyNewer(ours, theirs, floor, t, h)
    ensures forall t, h {:trigger LacksThere(ours, theirs, floor, t, h)} {:trigger (t, h) in offered} ::
              (t, h) in offered <==> LacksThere(ours, theirs, floor, t, h)
  {
    forall t, h ensures FlatlyNewer(ours, theirs, floor, t, h) <==> LacksThere(ours, theirs, floor, t, h) {
      FlatlyNewerMeans(ours, theirs, floor, t, h);
    }
    offered := {};
    var left := ours.Keys;
    while left != {}
      invariant left <= ours.Keys
      invariant forall t, h {:trigger FlatlyNewer(ours, theirs, floor, t, h)} {:trigger (t, h) in offered} ::
                  (t, h) in offered <==> t in ours.Keys - left && FlatlyNewer(ours, theirs, floor, t, h)
      decreases left
    {
      var name :| name in left;
      var found := VerifyTable(FilteredTable(ours, name, floor), FilteredTable(theirs, name, floor), digest);
      assert forall h :: h in found <==> FlatlyNewer(ours, theirs, floor, name, h);
      offered := offered + (set h | h in found :: (name, h));
      left := left - {name};
    }
  }

  /** Nodes with equal records offer nothing. */
  lemma EqualRegistriesOfferNothing(ours: Tables, theirs: Tables, floor: int, t: string)
    requires FilteredTable(ours, t, floor) == FilteredTable(theirs, t, floor)
    ensures NewerIn(FilteredTable(ours, t, floor), FilteredTable(theirs, t, floor)) == {}
  {
    SameRecordsAreNotNewer(FilteredTable(ours, t, floor));
  }

  // ─── Both directions ─────────────────────────────────────────────────────────

  /** The receiver takes what is newer than its own record, whether or not the check saw it. */
  function AfterOffers(receiver: Registry, sender: Registry, floor: int): Registry
  {
    var offers := NewerIn(Filtered(sender, floor), Filtered(receiver, floor));
    map h | h in receiver.Keys + offers ::
      if h in offers && IsNewer(sender[h].version, VersionIn(receiver, h)) then sender[h] else receiver[h]
  }

  /** One version never names two different changes of a row. */
  predicate OneChangePerVersion(a: Registry, b: Registry)
  {
    forall h | h in a && h in b :: a[h].version == b[h].version ==> a[h] == b[h]
  }

  /** A record of `a` that the check sees is older than a deletion of `b` that it leaves out. */
  predicate HiddenDeletion(a: Registry, b: Registry, floor: int, h: Hash)
  {
    && h in a && Kept(a[h], floor) && h in b && !Kept(b[h], floor)
    && IsNewer(b[h].version, Some(a[h].version))
  }

  /** Checking in both directions leaves the filtered registries equal, exactly unless some row
      is older than a deletion record the other side no longer shows. */
  lemma BothDirectionsAgree(a: Registry, b: Registry, floor: int)
    requires OneChangePerVersion(a, b)
    ensures var b' := AfterOffers(b, a, floor); var a' := AfterOffers(a, b', floor);
            Filtered(a', floor) == Filtered(b', floor) <==>
              forall h :: !HiddenDeletion(a, b, floor, h) && !HiddenDeletion(b, a, floor, h)
  {
    var b' := AfterOffers(b, a, floor);
    var a' := AfterOffers(a, b', floor);
    var fa, fb := Filtered(a', floor), Filtered(b', floor);
    forall h
      ensures (h in fa <==> h in fb) && (h in fa ==> fa[h] == fb[h]) <==>
                !HiddenDeletion(a, b, floor, h) && !HiddenDeletion(b, a, floor, h)
    {
      OneRowAgrees(a, b, floor, h);
    }
    if fa == fb {
      forall h ensures !HiddenDeletion(a, b, floor, h) && !HiddenDeletion(b, a, floor, h) {
        assert (h in fa <==> h in fb) && (h in fa ==> fa[h] == fb[h]);
      }
    }
  }

  lemma OneRowAgrees(a: Registry, b: Registry, floor: int, h: Hash)
    requires OneChangePerVersion(a, b)
    ensures var b' := AfterOffers(b, a, floor); var a' := AfterOffers(a, b', floor);
            var fa, fb := Filtered(a', floor), Filtered(b', floor);
            (h in fa <==> h in fb) && (h in fa ==> fa[h] == fb[h]) <==>
              !HiddenDeletion(a, b, floor, h) && !HiddenDeletion(b, a, floor, h)
  {
    if h in a && h in b {
      CompareVersionsIsTotalOrder(a[h].version, b[h].version, a[h].version);
    }
  }

  /** A row at version 1 against its deletion at version 2, below a floor of 5: the check sees the
      row on one side only and offers it, the receiver keeps its deletion, and both stay as they are. */
  lemma OldDeletionKeepsThemApart(h: Hash, a: Registry, b: Registry)
    requires a == map[h := Record(RowVersion(1, "a"), false)] && b == map[h := Record(RowVersion(2, "b"), true)]
    ensures HiddenDeletion(a, b, 5, h)
    ensures NewerIn(Filtered(a, 5), Filtered(b, 5)) == {h}
    ensures AfterOffers(b, a, 5) == b && AfterOffers(a, b, 5) == a && Filtered(a, 5) != Filtered(b, 5)
  {
    assert h in Filtered(a, 5) && h !in Filtered(b, 5);
  }
}
