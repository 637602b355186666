/**
  The identifier circle: ids are 256-bit numbers, and every question the program
  asks about them goes through one circular range test.
 */
module Ring {
  const KEY_BITS: nat := 256

  /** Number of points on the circle, 2^KEY_BITS. */
  const RING: nat := 0x1_0000_0000_0000_0000_0000_0000_0000_0000_0000_0000_0000_0000_0000_0000_0000_0000

  type Id = n: nat | n < RING

  /** Clockwise distance from a to b, with a full turn when they coincide. */
  function Dist(a: Id, b: Id): (d: nat)
    ensures 1 <= d <= RING
  {
    if a < b then b - a else b - a + RING
  }

  /** Clockwise distance from a to b, zero when they coincide. */
  function Gap(a: Id, b: Id): (d: nat)
    ensures d < RING
  {
    if a <= b then b - a else b - a + RING
  }

  /** The circular range test on numbers. */
  predicate InRange(v: Id, lo: Id, hi: Id, includeLo: bool, includeHi: bool) {
    if lo <= hi && (lo != hi || (includeLo && includeHi)) then
      (if includeLo then v >= lo else v > lo) && (if includeHi then v <= hi else v < hi)
    else
      (if includeLo then v >= lo else v > lo) || (if includeHi then v <= hi else v < hi)
  }

  /** v lies strictly inside the clockwise arc from a to b. */
  predicate Inside(a: Id, v: Id, b: Id) {
    InRange(v, a, b, false, false)
  }

  /** v lies in the clockwise arc from a to b, the end included. */
  predicate Upto(a: Id, v: Id, b: Id) {
    InRange(v, a, b, false, true)
  }

  /** The range test is clockwise-distance order, for all endpoint choices and for lo == hi. */
  lemma InRangeIsDistanceOrder(v: Id, lo: Id, hi: Id)
    ensures InRange(v, lo, hi, false, false) <==> Dist(lo, v) < Dist(lo, hi)
    ensures InRange(v, lo, hi, false, true) <==> Dist(lo, v) <= Dist(lo, hi)
    ensures InRange(v, lo, hi, true, false) <==> Gap(lo, v) < Dist(lo, hi)
    ensures InRange(v, lo, hi, true, true) <==> Gap(lo, v) <= Gap(lo, hi)
  {
  }

  /** A point b inside (a, c) cuts the arc (a, c] into the disjoint arcs (a, b] and (b, c]. */
  lemma ArcSplits(a: Id, b: Id, c: Id, v: Id)
    requires Inside(a, b, c)
    ensures Upto(a, v, c) <==> Upto(a, v, b) || Upto(b, v, c)
    ensures !(Upto(a, v, b) && Upto(b, v, c))
  {
  }

  /** The id obtained by moving clockwise; start points of fingers are Ahead(n, 2^k). */
  function Ahead(a: Id, distance: nat): Id {
    (a + distance) % RING
  }

  lemma AheadDistance(a: Id, distance: nat)
    requires 1 <= distance < RING
    ensures Dist(a, Ahead(a, distance)) == distance
  {
  }

  lemma {:induction false} SubsetIsSmaller<T>(a: set<T>, b: set<T>)
    requires a <= b
    ensures |a| <= |b|
    ensures a != b ==> |a| < |b|
    decreases a
  {
    if x :| x in a {
      SubsetIsSmaller(a - {x}, b - {x});
    }
  }
}
