/**
 * The benchmark's 2D point: two Java `int` fields, field-wise wrapping
 * addition, the lexicographic comparator handed to the sort, and the
 * left-to-right accumulation of an array of points.
 */
module Points {
  import opened JavaInt

  /**
   * A point `(x, y)`. The benchmark declares it twice, once as an ordinary
   * (heap-allocated) class and once as a primitive (inline) class, with the
   * same fields and the same `add`; the two differ only in memory layout,
   * so both are this one value type.
   */
  datatype Point = Point(x: Int32, y: Int32) {

    /** `add`: a new point whose fields are the Java `int` sums, each wrapping modulo 2^32. */
    function Add(p: Point): (r: Point)
      ensures (r.x - (x + p.x)) % MODULUS == 0
      ensures (r.y - (y + p.y)) % MODULUS == 0
    {
      Point(Wrap(x + p.x), Wrap(y + p.y))
    }
  }

  /** The inline variant: same fields, same operations, other layout. */
  type PrimitivePoint = Point

  /** The accumulator's starting value `new Point(0, 0)`. */
  const Origin: Point := Point(0, 0)

  /** Overflow in `add` wraps silently: `(MAX_VALUE, 0) + (1, 0) == (MIN_VALUE, 0)`. */
  lemma AddWrapsAround()
    ensures Point(MAX_VALUE, 0).Add(Point(1, 0)) == Point(MIN_VALUE, 0)
  {
  }

  /**
   * The comparator lambda given to `Arrays.sort`: `Integer.compare` on `x`,
   * and only when that is 0, `Integer.compare` on `y`. It is negative
   * exactly when `p1` comes first lexicographically, and 0 exactly when
   * the two points are equal.
   */
  function ComparePoints(p1: Point, p2: Point): (c: int)
    ensures c == -1 || c == 0 || c == 1
    ensures c == 0 <==> p1 == p2
    ensures c < 0 <==> p1.x < p2.x || (p1.x == p2.x && p1.y < p2.y)
    ensures c > 0 <==> p1.x > p2.x || (p1.x == p2.x && p1.y > p2.y)
  {
    var c := Compare(p1.x, p2.x);
    if c != 0 then c else Compare(p1.y, p2.y)
  }

  /** "p comes no later than q" under the comparator. */
  predicate Precedes(p: Point, q: Point) {
    ComparePoints(p, q) <= 0
  }

  /** The comparator is a total order: reflexive-zero, antisymmetric and transitive. */
  lemma ComparatorIsTotalOrder(p: Point, q: Point, r: Point)
    ensures ComparePoints(p, p) == 0
    ensures ComparePoints(p, q) == -ComparePoints(q, p)
    ensures Precedes(p, q) || Precedes(q, p)
    ensures Precedes(p, q) && Precedes(q, p) ==> p == q
    ensures Precedes(p, q) && Precedes(q, r) ==> Precedes(p, r)
    ensures ComparePoints(p, q) < 0 && Precedes(q, r) ==> ComparePoints(p, r) < 0
  {
  }

  /**
   * The result of the `acc` loop over `s`: start from `(0, 0)` and `add`
   * the elements from left to right.
   */
  function Accumulate(s: seq<Point>): Point {
    if s == [] then Origin else Accumulate(s[..|s| - 1]).Add(s[|s| - 1])
  }

  /** The exact (unbounded) sum of the `x` fields. */
  function TotalX(s: seq<Point>): int {
    if s == [] then 0 else TotalX(s[..|s| - 1]) + s[|s| - 1].x
  }

  /** The exact (unbounded) sum of the `y` fields. */
  function TotalY(s: seq<Point>): int {
    if s == [] then 0 else TotalY(s[..|s| - 1]) + s[|s| - 1].y
  }

  /**
   * Accumulating with wrapping additions gives the exact field sums reduced
   * once, at the end, into the `int` range: overflow along the way is
   * never an error and loses nothing modulo 2^32.
   */
  lemma {:induction false} AccumulateIsWrappedTotal(s: seq<Point>)
    ensures Accumulate(s) == Point(Wrap(TotalX(s)), Wrap(TotalY(s)))
  {
    if s != [] {
      var init, last := s[..|s| - 1], s[|s| - 1];
      assert s[..|s| - 1] == init;
      AccumulateIsWrappedTotal(init);
      var acc := Accumulate(init);
      assert Accumulate(s) == Point(Wrap(acc.x + last.x), Wrap(acc.y + last.y));
      WrapAbsorbs(TotalX(init), last.x);
      WrapAbsorbs(TotalY(init), last.y);
    }
  }

  /** The accumulation examples: empty, small, and overflowing. */
  lemma AccumulateExamples()
    ensures Accumulate([]) == Point(0, 0)
    ensures Accumulate([Point(1, 2), Point(3, 4)]) == Point(4, 6)
    ensures Accumulate([Point(MAX_VALUE, 0), Point(1, 0)]) == Point(MIN_VALUE, 0)
  {
    assert [Point(1, 2), Point(3, 4)][..1] == [Point(1, 2)];
    assert [Point(MAX_VALUE, 0), Point(1, 0)][..1] == [Point(MAX_VALUE, 0)];
  }
}
