# Valhalla point benchmark, modelled in Dafny

The repository is a JMH microbenchmark, `main.Valhalla`. It compares a 2D
integer point declared as an ordinary (heap-allocated) class, `Point`, with
the same point declared as a primitive (inline) class, `PrimitivePoint`. The
benchmark state holds `NUM_OF_ELEMENTS` points of each kind in two arrays.
Before every measured iteration, `setupIteration` refills both arrays with
the same random `(x, y)` pairs. The four timed operations are these:

- `sort` and `sortPrimitive` call `Arrays.sort` with a lexicographic
  comparator (`Integer.compare` on `x`, then on `y`), then consume
  `points[0].x`.
- `acc` and `accPrimitive` fold the array from `(0, 0)` with `add`, which
  adds the fields with Java's wrapping `int` addition, then consume the
  sum's `x`.

The model, one module per concern:

- `java_int.dfy` (module `JavaInt`): Java `int` as the subset type `Int32`.
  `Wrap` reduces an exact sum to 32-bit two's complement, so `a + b` on
  `int` is `Wrap(a + b)`. `Compare` is `Integer.compare`.
- `points.dfy` (module `Points`): the point datatype with `add`, the
  comparator `ComparePoints`, and `Accumulate`, the fold that `acc` computes.
  Both Java classes have the same two `int` fields and the same `add`; they
  differ only in memory layout. So both are the one datatype `Point`, and
  `PrimitivePoint` is a synonym for it. The accessors `x()`, `y()`,
  `getX()` and `getY()` are the datatype's field selectors.
- `sorting.dfy` (module `Sorting`): `Sorted` (ordered by the comparator) and
  `SortPoints`, a reference definition of the sorted arrangement. The
  comparator returns 0 only on equal points, so there is exactly one sorted
  permutation of any input. `Arrays.sort`'s contract ("sorted and a
  permutation") therefore fixes the result, whatever algorithm is used and
  whether or not it is stable. `SortInPlace` is an in-place insertion sort
  over an `array<Point>`, proved to meet that contract. It stands in for
  `Arrays.sort`.
- `valhalla.dfy` (module `Benchmark`): the class `Valhalla`, with
  `NUM_OF_ELEMENTS` as a constructor parameter and the two arrays as `const`
  fields, as `final` arrays in the source. `SetupIteration` takes the random
  draws as a sequence, in draw order (`x`, then `y`, slot by slot). Each
  timed operation returns the value it hands to the blackhole: `Sort` and
  `SortPrimitive` return `points[0].x`; `Acc` and `AccPrimitive` return the
  whole accumulated point, whose `x` is what is consumed.

The two variants behave the same by construction. `Sort` and `SortPrimitive`
both promise `SortPoints` of their array's old contents. `Acc` and
`AccPrimitive` both promise `Accumulate` of their array. After
`SetupIteration`, the two arrays are element-wise equal (`InSync`). So on
equal inputs the two variants give equal sorted arrays, equal consumed values
and equal sums.

## Model

| member | source | states |
|---|---|---|
| JavaInt.Wrap | src/main/java/main/Valhalla.java:121 | Java `int` `+`: the result is the unique `int` congruent to the exact sum modulo 2^32. It equals the sum when the sum fits; one overflow past `MAX_VALUE` subtracts 2^32, and one underflow past `MIN_VALUE` adds 2^32. |
| JavaInt.Compare | src/main/java/main/Valhalla.java:32 | `Integer.compare` returns -1, 0 or 1, negative exactly when `a < b`, zero exactly when `a == b`, and positive exactly when `a > b`. |
| JavaInt.WrapAbsorbs | src/main/java/main/Valhalla.java:63-65 | Wrapping an intermediate sum before adding more gives the same wrapped result as wrapping only at the end. |
| Points.Point.Add | src/main/java/main/Valhalla.java:120-122 | `add` returns a point whose `x` and `y` are each congruent, modulo 2^32, to the exact field sums. It is never an error. |
| Points.AddWrapsAround | src/main/java/main/Valhalla.java:120-122 | `(2147483647, 0).add((1, 0))` is `(-2147483648, 0)`: overflow wraps silently. |
| Points.ComparePoints | src/main/java/main/Valhalla.java:31-39 | The comparator returns -1, 0 or 1. It is 0 exactly when the points are equal. It is negative exactly when `p1.x < p2.x`, or the `x` values are equal and `p1.y < p2.y`, and symmetrically for positive. |
| Points.ComparatorIsTotalOrder | src/main/java/main/Valhalla.java:46-54 | The comparator is a total order. A point compares 0 with itself. Swapping the arguments negates the result. Any two points are comparable, and two points that each precede the other are equal. "Precedes" and "strictly precedes" are transitive. |
| Points.AccumulateIsWrappedTotal | src/main/java/main/Valhalla.java:59-66 | The fold from `(0, 0)` gives, in each field, the exact unbounded sum of that field wrapped once into `int` range. Overflow part-way through loses nothing modulo 2^32. |
| Points.AccumulateExamples | src/main/java/main/Valhalla.java:61-65 | An empty array folds to `(0, 0)`. `[(1,2),(3,4)]` folds to `(4,6)`. `[(2147483647,0),(1,0)]` folds to `(-2147483648,0)`. |
| Sorting.AdjacentOrderedIffSorted | src/main/java/main/Valhalla.java:31-39 | Each adjacent pair `a, b` satisfying `a.x < b.x`, or `a.x == b.x && a.y <= b.y`, holds exactly when every earlier element precedes every later one under the comparator. |
| Sorting.Insert | src/main/java/main/Valhalla.java:31-39 | Inserting a point adds exactly that point to the elements and keeps a sorted sequence sorted. |
| Sorting.SortPoints | src/main/java/main/Valhalla.java:31-39 | The reference sort returns a sequence sorted under the comparator that is a permutation of its input. |
| Sorting.SortedPermutationsAreEqual | src/main/java/main/Valhalla.java:31-39 | Two sorted sequences with the same multiset of points are equal. The comparator leaves no ties between distinct points, so any correct sort gives the same result. |
| Sorting.SortedPermutationIsSortPoints | src/main/java/main/Valhalla.java:31-39 | A sequence is a sorted permutation of `s` if and only if it is `SortPoints(s)`. |
| Sorting.SortIdempotent | src/main/java/main/Valhalla.java:31-39 | Sorting an already sorted sequence returns it unchanged, so sorting twice equals sorting once. |
| Sorting.SortedHeadIsMinimal | src/main/java/main/Valhalla.java:41 | After sorting a non-empty input, the first point is one of the input's points, and its `x` is the least `x` in the input. |
| Sorting.SortInPlace | src/main/java/main/Valhalla.java:31-39 | Sorts the array in place. Its new contents are sorted under the comparator, a permutation of the old contents, and equal to `SortPoints` of the old contents. |
| Benchmark.Valhalla.constructor | src/main/java/main/Valhalla.java:25-27 | Allocates two distinct fresh arrays of length `NUM_OF_ELEMENTS`. The primitive array starts as all `(0, 0)`. |
| Benchmark.Valhalla.SetupIteration | src/main/java/main/Valhalla.java:81-92 | Given the draws in order, slot `i` of both arrays holds `(draws[2i], draws[2i+1])`. The two arrays are element-wise equal afterwards. |
| Benchmark.Valhalla.Sort | src/main/java/main/Valhalla.java:29-42 | The reference array becomes `SortPoints` of its old contents. It is unchanged if it was already sorted. The consumed `points[0].x` is the least `x` of the old contents, or None when the array is empty. |
| Benchmark.Valhalla.SortPrimitive | src/main/java/main/Valhalla.java:44-57 | The same as `Sort`, for the primitive array, with the same comparator and the same resulting arrangement. |
| Benchmark.Valhalla.Acc | src/main/java/main/Valhalla.java:59-68 | The loop returns `Accumulate` of the reference array: the left-to-right wrapping fold from `(0, 0)`. |
| Benchmark.Valhalla.AccPrimitive | src/main/java/main/Valhalla.java:70-79 | The loop returns `Accumulate` of the primitive array, the same function as `Acc`, so equal arrays give equal sums. |

## Left out

- The JMH annotations, the JVM flags, `main`, `OptionsBuilder` and `Runner`
  (src/main/java/main/Valhalla.java:14-22, 94-100): runner configuration and
  process launch, with no logic.
- `Blackhole.consume`: an anti-optimisation sink. The consumed value is
  returned by each operation instead.
- `java.util.Random`: its `nextInt()` draws are the `draws` parameter of
  `SetupIteration`, an arbitrary sequence of `int` values. No generator is
  modelled.
- The algorithm inside `Arrays.sort` (TimSort): only its contract is
  modelled, by an insertion sort that meets it. The comparator admits no
  ties between distinct points, so the result is the same.
- Benchmark.Valhalla.constructor: the reference array initially holds
  `null` in every slot, and the model holds `(0, 0)` there instead. Sorting
  or accumulating before the first `setupIteration` would throw in Java. The
  runner always runs the setup first, so this state is not modelled, and
  the constructor's contract says nothing about the reference array's
  initial contents.
- `PrimitivePoint.add` (src/main/java/main/Valhalla.java:143-145) and the
  primitive class itself are the same datatype as `Point`. The
  reference-versus-inline distinction (identity, allocation, memory layout)
  affects only timing, which is what the benchmark measures.
- The fixed `NUM_OF_ELEMENTS = 1_000_000`: it is a constructor parameter,
  and every property holds for any length. At length 0, the Java
  `points[0]` would throw `ArrayIndexOutOfBoundsException`; `Sort` and
  `SortPrimitive` return None there.
- Timing, heap size, memory layout, threads and JIT behaviour.
