/**
 * The benchmark state class: `NUM_OF_ELEMENTS`, one array of reference
 * points and one of primitive points, the per-iteration setup that refills
 * both, and the four timed operations (`sort`, `sortPrimitive`, `acc`,
 * `accPrimitive`). The value each timed operation hands to the blackhole is
 * returned instead.
 */
module Benchmark {
  import opened JavaInt
  import opened Points
  import opened Sorting

  datatype Option<T> = None | Some(value: T)

  class Valhalla {
    /** `NUM_OF_ELEMENTS`: the length of both arrays. */
    const numOfElements: nat
    /** The reference-class array. */
    const points: array<Point>
    /** The primitive-class array. */
    const primitivePoints: array<PrimitivePoint>

    ghost predicate Valid() {
      && points.Length == numOfElements
      && primitivePoints.Length == numOfElements
      && points != primitivePoints
    }

    /** The two arrays hold the same `(x, y)` pair at every index. */
    ghost predicate InSync()
      reads points, primitivePoints
    {
      points[..] == primitivePoints[..]
    }

    /** Allocates both arrays once, at their fixed length. */
    constructor (n: nat)
      ensures Valid() && numOfElements == n
      ensures fresh(points) && fresh(primitivePoints)
      ensures forall i :: 0 <= i < n ==> primitivePoints[i] == Origin
    {
      numOfElements := n;
      points := new Point[n](_ => Origin);
      primitivePoints := new PrimitivePoint[n](_ => Origin);
    }

    /**
     * `setupIteration`: for each slot in turn, draws `x` and then `y` and
     * stores the same pair in both arrays. `draws` is the sequence of values
     * the random source returns, in the order they are drawn.
     */
    method SetupIteration(draws: seq<Int32>)
      requires Valid()
      requires |draws| == 2 * numOfElements
      modifies points, primitivePoints
      ensures forall i :: 0 <= i < numOfElements ==> points[i] == Point(draws[2 * i], draws[2 * i + 1])
      ensures InSync()
    {
      for i := 0 to numOfElements
        invariant forall k :: 0 <= k < i ==> points[k] == Point(draws[2 * k], draws[2 * k + 1])
        invariant forall k :: 0 <= k < i ==> primitivePoints[k] == points[k]
      {
        var x := draws[2 * i];
        var y := draws[2 * i + 1];
        points[i] := Point(x, y);
        primitivePoints[i] := Point(x, y);
      }
    }

    /**
     * `sort`: sorts the reference array in place under the comparator and
     * consumes `points[0].x`, the least `x` of the array (None stands for the
     * out-of-bounds exception when the array is empty).
     */
    method Sort() returns (consumed: Option<Int32>)
      requires Valid()
      modifies points
      ensures points[..] == SortPoints(old(points[..]))
      ensures old(Sorted(points[..])) ==> points[..] == old(points[..])
      ensures consumed == if numOfElements == 0 then None else Some(points[0].x)
      ensures consumed.Some? ==> forall p :: p in old(points[..]) ==> consumed.value <= p.x
    {
      ghost var before := points[..];
      SortInPlace(points);
      SortIdempotent(before);
      if points.Length == 0 {
        consumed := None;
      } else {
        SortedHeadIsMinimal(before);
        consumed := Some(points[0].x);
      }
    }

    /** `sortPrimitive`: the same sort and the same comparator on the primitive array. */
    method SortPrimitive() returns (consumed: Option<Int32>)
      requires Valid()
      modifies primitivePoints
      ensures primitivePoints[..] == SortPoints(old(primitivePoints[..]))
      ensures old(Sorted(primitivePoints[..])) ==> primitivePoints[..] == old(primitivePoints[..])
      ensures consumed == if numOfElements == 0 then None else Some(primitivePoints[0].x)
      ensures consumed.Some? ==> forall p :: p in old(primitivePoints[..]) ==> consumed.value <= p.x
    {
      ghost var before := primitivePoints[..];
      SortInPlace(primitivePoints);
      SortIdempotent(before);
      if primitivePoints.Length == 0 {
        consumed := None;
      } else {
        SortedHeadIsMinimal(before);
        consumed := Some(primitivePoints[0].x);
      }
    }

    /** `acc`: folds the reference array from `(0, 0)` with `add`, left to right. */
    method Acc() returns (acc: Point)
      requires Valid()
      ensures acc == Accumulate(points[..])
    {
      acc := Point(0, 0);
      for i := 0 to points.Length
        invariant acc == Accumulate(points[..i])
      {
        assert points[..i + 1][..i] == points[..i];
        acc := acc.Add(points[i]);
      }
      assert points[..points.Length] == points[..];
    }

    /** `accPrimitive`: the same fold over the primitive array. */
    method AccPrimitive() returns (acc: PrimitivePoint)
      requires Valid()
      ensures acc == Accumulate(primitivePoints[..])
    {
      acc := Point(0, 0);
      for i := 0 to primitivePoints.Length
        invariant acc == Accumulate(primitivePoints[..i])
      {
        assert primitivePoints[..i + 1][..i] == primitivePoints[..i];
        acc := acc.Add(primitivePoints[i]);
      }
      assert primitivePoints[..primitivePoints.Length] == primitivePoints[..];
    }
  }
}
