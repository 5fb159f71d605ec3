/** Row versions and their order (src/cluster/codec.ts).

    A row version is a microsecond timestamp together with the id of the node that
    made the change. Every other module decides "last writer wins" with the order
    defined here. */
module Versions {

  datatype Option<+T> = None | Some(value: T)

  datatype RowVersion = RowVersion(version: int, origin: string)

  /** The order of two strings by their first differing character, a proper prefix first. */
  predicate StringLess(a: string, b: string)
  {
    if b == "" then false
    else if a == "" then true
    else if a[0] != b[0] then a[0] < b[0]
    else StringLess(a[1..], b[1..])
  }

  /** 1, 0 or -1 as `a` is greater than, equal to or less than `b`. */
  function CompareVersions(a: RowVersion, b: RowVersion): int
  {
    if a.version != b.version then if a.version > b.version then 1 else -1
    else if a.origin == b.origin then 0
    else if StringLess(b.origin, a.origin) then 1 else -1
  }

  /** Whether `incoming` replaces what is held locally. */
  predicate IsNewer(incoming: RowVersion, local: Option<RowVersion>)
  {
    local.None? || CompareVersions(incoming, local.value) > 0
  }

  /** `a` does not lose against `b`'s place in the order: the order used in invariants. */
  predicate AtMost(a: RowVersion, b: RowVersion)
  {
    CompareVersions(a, b) <= 0
  }

  lemma {:induction false} StringLessTotal(a: string, b: string)
    ensures a == b || StringLess(a, b) || StringLess(b, a)
    ensures !(StringLess(a, b) && StringLess(b, a))
  {
    if a != "" && b != "" {
      StringLessTotal(a[1..], b[1..]);
      if a[0] == b[0] && a[1..] == b[1..] {
        assert a == [a[0]] + a[1..] == b;
      }
    }
  }

  /** The strings agree up to there, where the first one ends or has the smaller character. */
  predicate FallsBelowAt(a: string, b: string, k: nat)
  {
    k < |b| && k <= |a| && a[..k] == b[..k] && (k == |a| || a[k] < b[k])
  }

  lemma AgreeingBeginsAlike(a: string, b: string)
    ensures forall k | 0 < k <= |a| && k <= |b| && a[..k] == b[..k] :: a[0] == b[0]
  {
    forall k | 0 < k <= |a| && k <= |b| && a[..k] == b[..k] ensures a[0] == b[0] {
      assert a[..k][0] == a[0] && b[..k][0] == b[0];
    }
  }

  lemma {:induction false} StringLessMeans(a: string, b: string)
    ensures StringLess(a, b) <==> exists k: nat {:trigger FallsBelowAt(a, b, k)} :: FallsBelowAt(a, b, k)
  {
    if a == "" && b != "" {
      assert FallsBelowAt(a, b, 0);
    } else if a != "" && b != "" && a[0] != b[0] {
      if a[0] < b[0] { assert FallsBelowAt(a, b, 0); }
      AgreeingBeginsAlike(a, b);
    } else if a != "" && b != "" {
      StringLessMeans(a[1..], b[1..]);
      if k: nat :| FallsBelowAt(a[1..], b[1..], k) {
        assert a[..k + 1] == [a[0]] + a[1..][..k] && b[..k + 1] == [b[0]] + b[1..][..k];
        assert FallsBelowAt(a, b, k + 1);
      }
      if k: nat :| FallsBelowAt(a, b, k) {
        if k > 0 {
          assert a[1..][..k - 1] == a[..k][1..] && b[1..][..k - 1] == b[..k][1..];
          assert FallsBelowAt(a[1..], b[1..], k - 1);
        }
      }
    }
  }

  /** What is missing is replaced; of two versions the one with the greater number is newer, and with
      equal numbers the one with the greater origin. */
  lemma NewerMeans(a: RowVersion, b: RowVersion)
    ensures IsNewer(a, None)
    ensures IsNewer(a, Some(b)) <==> a.version > b.version || (a.version == b.version && StringLess(b.origin, a.origin))
  {
    StringLessTotal(a.origin, b.origin);
  }

  lemma {:induction false} StringLessTransitive(a: string, b: string, c: string)
    requires StringLess(a, b) && StringLess(b, c)
    ensures StringLess(a, c)
  {
    if a != "" && a[0] == b[0] == c[0] {
      StringLessTransitive(a[1..], b[1..], c[1..]);
    }
  }

  /** Comparing is a total order: swapping the arguments flips the sign, 0 means the very
      same version, and the order chains. Every node therefore picks the same winner. */
  lemma CompareVersionsIsTotalOrder(a: RowVersion, b: RowVersion, c: RowVersion)
    ensures a.version > b.version ==> CompareVersions(a, b) == 1
    ensures a.version == b.version && StringLess(b.origin, a.origin) ==> CompareVersions(a, b) == 1
    ensures CompareVersions(a, b) == -CompareVersions(b, a)
    ensures CompareVersions(a, b) == 0 <==> a == b
    ensures AtMost(a, b) && AtMost(b, c) ==> AtMost(a, c)
  {
    StringLessTotal(a.origin, b.origin);
    StringLessTotal(b.origin, c.origin);
    StringLessTotal(a.origin, c.origin);
    if AtMost(a, b) && AtMost(b, c) && a.version == b.version == c.version
       && StringLess(a.origin, b.origin) && StringLess(b.origin, c.origin) {
      StringLessTransitive(a.origin, b.origin, c.origin);
    }
  }

  /** The order facts for all versions at once. */
  lemma OrderFacts()
    ensures forall a, b {:trigger AtMost(a, b)} :: AtMost(a, b) || AtMost(b, a)
    ensures forall a, b {:trigger AtMost(a, b), AtMost(b, a)} :: AtMost(a, b) && AtMost(b, a) ==> a == b
    ensures forall a {:trigger AtMost(a, a)} :: AtMost(a, a)
    ensures forall a, b, c {:trigger AtMost(a, b), AtMost(b, c)} :: AtMost(a, b) && AtMost(b, c) ==> AtMost(a, c)
    ensures forall a, b {:trigger IsNewer(a, Some(b))} :: IsNewer(a, Some(b)) <==> !AtMost(a, b)
  {
    forall a, b, c ensures CompareVersions(a, b) == -CompareVersions(b, a)
                   ensures CompareVersions(a, b) == 0 <==> a == b
                   ensures AtMost(a, b) && AtMost(b, c) ==> AtMost(a, c)
    {
      CompareVersionsIsTotalOrder(a, b, c);
    }
  }

  /** The version a local write gives a row: the clock, but always above what the row has. */
  function NextVersion(current: Option<int>, now: int): (v: int)
    ensures current.Some? ==> v > current.value
    ensures v >= now && (v == now || (current.Some? && v == current.value + 1))
  {
    if current.Some? && current.value + 1 > now then current.value + 1 else now
  }
}
