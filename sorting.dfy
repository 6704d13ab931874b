/**
 * Sorting points under the benchmark's comparator. `Arrays.sort` promises a
 * result that is ordered by the comparator and a permutation of its input;
 * because the comparator is 0 only on equal points, exactly one sequence
 * meets that promise, `SortPoints(s)` below, so which algorithm sorts (and
 * whether it is stable) cannot be observed.
 */
module Sorting {
  import opened JavaInt
  import opened Points

  /** Every earlier element precedes every later one under the comparator. */
  predicate Sorted(s: seq<Point>) {
    forall i, j :: 0 <= i < j < |s| ==> Precedes(s[i], s[j])
  }

  /**
   * The ordering stated on neighbours and on fields: of each adjacent pair
   * `a, b`, `a.x < b.x`, or `a.x == b.x` and `a.y <= b.y`.
   */
  predicate AdjacentOrdered(s: seq<Point>) {
    forall i :: 0 < i < |s| ==> s[i - 1].x < s[i].x || (s[i - 1].x == s[i].x && s[i - 1].y <= s[i].y)
  }

  /** Ordered neighbours is the same as ordered pairs. */
  lemma {:induction false} AdjacentOrderedIffSorted(s: seq<Point>)
    ensures AdjacentOrdered(s) <==> Sorted(s)
  {
    if AdjacentOrdered(s) && |s| > 1 {
      var init := s[..|s| - 1];
      assert AdjacentOrdered(init) by {
        forall i | 0 < i < |init| ensures Precedes(init[i - 1], init[i]) {
          assert init[i - 1] == s[i - 1] && init[i] == s[i];
        }
      }
      AdjacentOrderedIffSorted(init);
      forall i, j | 0 <= i < j < |s| ensures Precedes(s[i], s[j]) {
        if j < |s| - 1 {
          assert init[i] == s[i] && init[j] == s[j];
        } else if i < j - 1 {
          assert init[i] == s[i] && init[j - 1] == s[j - 1];
          assert Precedes(s[i], s[j - 1]) && Precedes(s[j - 1], s[j]);
          ComparatorIsTotalOrder(s[i], s[j - 1], s[j]);
        }
      }
    }
  }

  /** A point that precedes every element of a sorted sequence can go in front of it. */
  lemma ConsSorted(p: Point, s: seq<Point>)
    requires Sorted(s)
    requires forall q :: q in s ==> Precedes(p, q)
    ensures Sorted([p] + s)
  {
    var r := [p] + s;
    forall i, j | 0 <= i < j < |r| ensures Precedes(r[i], r[j]) {
      if i == 0 {
        assert r[j] == s[j - 1];
      } else {
        assert r[i] == s[i - 1] && r[j] == s[j - 1];
      }
    }
  }

  /** The first element of a sorted sequence precedes every element of it. */
  lemma HeadPrecedesAll(s: seq<Point>, q: Point)
    requires Sorted(s) && q in s
    ensures Precedes(s[0], q)
  {
    var k :| 0 <= k < |s| && s[k] == q;
    if k == 0 { ComparatorIsTotalOrder(q, q, q); }
  }

  /** `p` inserted into `s` before the first element it precedes. */
  function Insert(p: Point, s: seq<Point>): (r: seq<Point>)
    ensures multiset(r) == multiset(s) + multiset{p}
    ensures Sorted(s) ==> Sorted(r)
  {
    if s == [] then [p]
    else if Precedes(p, s[0]) then
      assert Sorted(s) ==> Sorted([p] + s) by {
        if Sorted(s) {
          forall q | q in s ensures Precedes(p, q) {
            HeadPrecedesAll(s, q);
            ComparatorIsTotalOrder(p, s[0], q);
          }
          ConsSorted(p, s);
        }
      }
      [p] + s
    else
      var rest := Insert(p, s[1..]);
      assert s == [s[0]] + s[1..];
      assert Sorted(s) ==> Sorted([s[0]] + rest) by {
        if Sorted(s) {
          forall q | q in rest ensures Precedes(s[0], q) {
            assert q in multiset(rest);
            if q == p {
              ComparatorIsTotalOrder(p, s[0], s[0]);
            } else {
              assert q in s[1..];
              HeadPrecedesAll(s, q);
            }
          }
          ConsSorted(s[0], rest);
        }
      }
      [s[0]] + rest
  }

  /** The sorted arrangement of `s` (a reference definition, by insertion). */
  function SortPoints(s: seq<Point>): (r: seq<Point>)
    ensures Sorted(r)
    ensures multiset(r) == multiset(s)
  {
    if s == [] then []
    else
      assert s == [s[0]] + s[1..];
      Insert(s[0], SortPoints(s[1..]))
  }

  /** Two permutations of each other that start alike continue as permutations of each other. */
  lemma SameHeadSameTail(s: seq<Point>, t: seq<Point>)
    requires s != [] && t != [] && s[0] == t[0]
    requires multiset(s) == multiset(t)
    ensures multiset(s[1..]) == multiset(t[1..])
  {
    assert s == [s[0]] + s[1..] && t == [t[0]] + t[1..];
    assert multiset(s[1..]) == multiset(s) - multiset{s[0]};
    assert multiset(t[1..]) == multiset(t) - multiset{t[0]};
  }

  /** Two sorted sequences with the same elements are the same sequence. */
  lemma {:induction false} SortedPermutationsAreEqual(s: seq<Point>, t: seq<Point>)
    requires Sorted(s) && Sorted(t)
    requires multiset(s) == multiset(t)
    ensures s == t
  {
    if s == [] {
      assert |multiset(t)| == 0;
    } else {
      assert t != [] by { assert s[0] in multiset(t); }
      var a, b := s[0], t[0];
      assert a in t by { assert a in multiset(t); }
      assert b in s by { assert b in multiset(s); }
      HeadPrecedesAll(t, a);
      HeadPrecedesAll(s, b);
      ComparatorIsTotalOrder(a, b, b);
      SameHeadSameTail(s, t);
      SortedPermutationsAreEqual(s[1..], t[1..]);
    }
  }

  /**
   * `r` is a sorted permutation of `s` exactly when it is `SortPoints(s)`:
   * the contract of `Arrays.sort` fixes its result.
   */
  lemma SortedPermutationIsSortPoints(s: seq<Point>, r: seq<Point>)
    ensures Sorted(r) && multiset(r) == multiset(s) <==> r == SortPoints(s)
  {
    if Sorted(r) && multiset(r) == multiset(s) {
      SortedPermutationsAreEqual(r, SortPoints(s));
    }
  }

  /** Sorting an already sorted sequence leaves it unchanged, so sorting is idempotent. */
  lemma SortIdempotent(s: seq<Point>)
    ensures Sorted(s) ==> SortPoints(s) == s
    ensures SortPoints(SortPoints(s)) == SortPoints(s)
  {
    SortedPermutationIsSortPoints(s, s);
    SortedPermutationIsSortPoints(SortPoints(s), SortPoints(s));
  }

  /** After sorting, the first point has the least `x` of all the input's points. */
  lemma {:induction false} SortedHeadIsMinimal(s: seq<Point>)
    requires s != []
    ensures |SortPoints(s)| == |s|
    ensures SortPoints(s)[0] in s
    ensures forall p :: p in s ==> SortPoints(s)[0].x <= p.x
  {
    var r := SortPoints(s);
    assert |r| == |s| by {
      assert |multiset(r)| == |r| && |multiset(s)| == |s|;
    }
    assert r[0] in multiset(s);
    forall p | p in s ensures r[0].x <= p.x {
      assert p in multiset(r);
      var k :| 0 <= k < |r| && r[k] == p;
      if k > 0 { assert Precedes(r[0], r[k]); }
    }
  }

  /** Exchanges `a[i]` and `a[j]`. */
  method Swap(a: array<Point>, i: int, j: int)
    requires 0 <= i < a.Length && 0 <= j < a.Length
    modifies a
    ensures a[..] == old(a[..])[i := old(a[j])][j := old(a[i])]
    ensures multiset(a[..]) == old(multiset(a[..]))
  {
    a[i], a[j] := a[j], a[i];
  }

  /** Sinks `a[i]` leftwards into the sorted prefix `a[..i]`, extending it by one. */
  method SinkInto(a: array<Point>, i: int)
    requires 0 <= i < a.Length
    requires Sorted(a[..i])
    modifies a
    ensures Sorted(a[..i + 1])
    ensures multiset(a[..]) == old(multiset(a[..]))
  {
    var j := i;
    while j > 0 && ComparePoints(a[j - 1], a[j]) > 0
      invariant 0 <= j <= i
      invariant forall k, l :: 0 <= k < l <= i && k != j && l != j ==> Precedes(a[k], a[l])
      invariant forall l :: j < l <= i ==> ComparePoints(a[j], a[l]) < 0
      invariant multiset(a[..]) == old(multiset(a[..]))
    {
      Swap(a, j - 1, j);
      j := j - 1;
    }
    forall k, l | 0 <= k < l <= i ensures Precedes(a[k], a[l]) {
      if l == j && k < j - 1 {
        ComparatorIsTotalOrder(a[k], a[j - 1], a[j]);
      } else if k == j && j > 0 && l > j {
        ComparatorIsTotalOrder(a[j - 1], a[j], a[l]);
      }
    }
  }

  /**
   * `Arrays.sort(a, comparator)`, done by insertion: sorts `a` in place into
   * the one sorted permutation of its old contents.
   */
  method SortInPlace(a: array<Point>)
    modifies a
    ensures Sorted(a[..])
    ensures multiset(a[..]) == old(multiset(a[..]))
    ensures a[..] == SortPoints(old(a[..]))
  {
    var i := 0;
    while i < a.Length
      invariant 0 <= i <= a.Length
      invariant Sorted(a[..i])
      invariant multiset(a[..]) == old(multiset(a[..]))
    {
      SinkInto(a, i);
      i := i + 1;
    }
    assert a[..a.Length] == a[..];
    SortedPermutationIsSortPoints(old(a[..]), a[..]);
  }
}
