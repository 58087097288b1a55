/** Sequence helpers that the pages use the way JavaScript uses Array.prototype:
    filter, removal of every copy of a value, sums, and a stable insertion sort. */
module Seqs {

  /** `r` is an order-preserving subsequence of `s`. */
  ghost predicate IsSubseq<T>(r: seq<T>, s: seq<T>)
  {
    if r == [] then true
    else if s == [] then false
    else (r[0] == s[0] && IsSubseq(r[1..], s[1..])) || IsSubseq(r, s[1..])
  }

  /** `s.filter(p)`: the elements satisfying `p`, in their original order. */
  function Filter<T(!new)>(s: seq<T>, p: T -> bool): (r: seq<T>)
    ensures |r| <= |s|
    ensures forall x :: x in r <==> x in s && p(x)
    ensures IsSubseq(r, s)
  {
    if s == [] then []
    else
      var rest := Filter(s[1..], p);
      if p(s[0]) then
        assert ([s[0]] + rest)[1..] == rest;
        [s[0]] + rest
      else rest
  }

  /** `filter` keeps every copy of a passing element and no copy of a failing one. */
  lemma {:induction false} FilterMultiset<T(!new)>(s: seq<T>, p: T -> bool)
    ensures forall x :: multiset(Filter(s, p))[x] == if p(x) then multiset(s)[x] else 0
  {
    if s != [] {
      FilterMultiset(s[1..], p);
      assert s == [s[0]] + s[1..];
    }
  }

  /** `FilterMultiset` for a predicate given as the negation of another. */
  lemma FilterMultisetBy<T(!new)>(s: seq<T>, p: T -> bool, q: T -> bool)
    requires forall x :: p(x) <==> !q(x)
    ensures forall x :: multiset(Filter(s, p))[x] == if q(x) then 0 else multiset(s)[x]
  {
    FilterMultiset(s, p);
  }

  /** Filtering by a predicate that every element satisfies keeps the whole sequence. */
  lemma {:induction false} FilterAll<T(!new)>(s: seq<T>, p: T -> bool)
    requires forall i :: 0 <= i < |s| ==> p(s[i])
    ensures Filter(s, p) == s
  {
    if s != [] {
      FilterAll(s[1..], p);
    }
  }

  /** Filtering distributes over concatenation. */
  lemma {:induction false} FilterAppend<T(!new)>(s: seq<T>, t: seq<T>, p: T -> bool)
    ensures Filter(s + t, p) == Filter(s, p) + Filter(t, p)
  {
    if s == [] {
      assert s + t == t;
    } else {
      assert (s + t)[1..] == s[1..] + t;
      FilterAppend(s[1..], t, p);
    }
  }

  /** `s.filter(y => y !== x)`: every copy of `x` removed. */
  function RemoveAll<T(==,!new)>(s: seq<T>, x: T): (r: seq<T>)
    ensures x !in r
    ensures forall y :: y != x ==> (y in r <==> y in s)
    ensures IsSubseq(r, s)
  {
    Filter(s, y => y != x)
  }

  /** Removing a value that does not occur changes nothing. */
  lemma RemoveAbsent<T(!new)>(s: seq<T>, x: T)
    requires x !in s
    ensures RemoveAll(s, x) == s
  {
    FilterAll(s, y => y != x);
  }

  /** Filtering twice is filtering once by both predicates. */
  lemma {:induction false} FilterFilter<T(!new)>(s: seq<T>, p: T -> bool, q: T -> bool)
    ensures Filter(Filter(s, p), q) == Filter(s, x => p(x) && q(x))
  {
    if s != [] {
      FilterFilter(s[1..], p, q);
      var rest := Filter(s[1..], p);
      if p(s[0]) {
        assert ([s[0]] + rest)[1..] == rest;
      }
    }
  }

  /** Filters by predicates that agree on every value give the same result. */
  lemma {:induction false} FilterSame<T(!new)>(s: seq<T>, p: T -> bool, q: T -> bool)
    requires forall x :: p(x) == q(x)
    ensures Filter(s, p) == Filter(s, q)
  {
    if s != [] {
      FilterSame(s[1..], p, q);
    }
  }

  /** `if (enabled) s = s.filter(p)`: a filter that a page control can switch off. */
  function FilterWhen<T(!new)>(s: seq<T>, enabled: bool, p: T -> bool): (r: seq<T>)
    ensures r == Filter(s, x => !enabled || p(x))
  {
    if enabled then
      FilterSame(s, p, x => !enabled || p(x));
      Filter(s, p)
    else
      FilterAll(s, x => !enabled || p(x));
      s
  }

  /** Three switchable filters in a row are one filter by any test `q` that holds
      exactly when the three enabled tests do. */
  lemma FilterWhen3<T(!new)>(s: seq<T>, e1: bool, p1: T -> bool, e2: bool, p2: T -> bool,
                             e3: bool, p3: T -> bool, q: T -> bool)
    requires forall x :: q(x) == ((!e1 || p1(x)) && (!e2 || p2(x)) && (!e3 || p3(x)))
    ensures FilterWhen(FilterWhen(FilterWhen(s, e1, p1), e2, p2), e3, p3) == Filter(s, q)
  {
    var q12 := x => (!e1 || p1(x)) && (!e2 || p2(x));
    var q3 := x => !e3 || p3(x);
    FilterWhen2(s, e1, p1, e2, p2, q12);
    FilterFilter(s, q12, q3);
    FilterSame(s, x => q12(x) && q3(x), q);
  }

  /** Removing a value after appending it is the same as removing it before. */
  lemma RemoveAllAppended<T(!new)>(s: seq<T>, x: T)
    ensures RemoveAll(s + [x], x) == RemoveAll(s, x)
  {
    FilterAppend(s, [x], y => y != x);
  }

  /** Two switchable filters in a row are one filter by any test `q` that holds exactly
      when the enabled tests do. */
  lemma FilterWhen2<T(!new)>(s: seq<T>, e1: bool, p1: T -> bool, e2: bool, p2: T -> bool, q: T -> bool)
    requires forall x :: q(x) == ((!e1 || p1(x)) && (!e2 || p2(x)))
    ensures FilterWhen(FilterWhen(s, e1, p1), e2, p2) == Filter(s, q)
  {
    var q1 := x => !e1 || p1(x);
    var q2 := x => !e2 || p2(x);
    FilterFilter(s, q1, q2);
    FilterSame(s, x => q1(x) && q2(x), q);
  }

  /** A test that passes fewer elements keeps no more of them. */
  lemma {:induction false} FilterWeaker<T(!new)>(s: seq<T>, p: T -> bool, q: T -> bool)
    requires forall x :: q(x) ==> p(x)
    ensures |Filter(s, q)| <= |Filter(s, p)|
  {
    if s != [] {
      FilterWeaker(s[1..], p, q);
    }
  }

  /** A filter keeps the whole length exactly when every element passes. */
  lemma {:induction false} FilterFull<T(!new)>(s: seq<T>, p: T -> bool)
    ensures |Filter(s, p)| == |s| <==> forall i :: 0 <= i < |s| ==> p(s[i])
  {
    if s != [] {
      FilterFull(s[1..], p);
      if forall i :: 0 <= i < |s| ==> p(s[i]) {
        assert forall i :: 0 <= i < |s[1..]| ==> p(s[1..][i]) by {
          forall i | 0 <= i < |s[1..]| ensures p(s[1..][i]) {
            assert s[1..][i] == s[i + 1];
          }
        }
      } else {
        var i :| 0 <= i < |s| && !p(s[i]);
        if i > 0 {
          assert s[1..][i - 1] == s[i];
        }
      }
    }
  }

  /** A test and its negation split the sequence: what one keeps plus what the other
      keeps is everything. */
  lemma {:induction false} FilterSplit<T(!new)>(s: seq<T>, p: T -> bool, q: T -> bool)
    requires forall x :: q(x) == !p(x)
    ensures |Filter(s, p)| + |Filter(s, q)| == |s|
  {
    if s != [] {
      FilterSplit(s[1..], p, q);
    }
  }

  /** A filter keeps nothing exactly when no element passes. */
  lemma FilterEmpty<T(!new)>(s: seq<T>, p: T -> bool)
    ensures Filter(s, p) == [] <==> forall i :: 0 <= i < |s| ==> !p(s[i])
  {
    var r := Filter(s, p);
    if r != [] {
      assert r[0] in s;
    }
  }

  /** Removing every copy of `x` takes exactly the copies of `x` out of the multiset. */
  lemma {:induction false} RemoveAllMultiset<T(!new)>(s: seq<T>, x: T)
    ensures multiset(RemoveAll(s, x)) == multiset(s)[x := 0]
  {
    if s != [] {
      RemoveAllMultiset(s[1..], x);
      assert s == [s[0]] + s[1..];
    }
  }

  /** No value occurs twice. */
  predicate NoDup<T(==)>(s: seq<T>)
  {
    forall i, j :: 0 <= i < j < |s| ==> s[i] != s[j]
  }

  /** Filtering keeps a sequence free of duplicates. */
  lemma {:induction false} FilterNoDup<T(!new)>(s: seq<T>, p: T -> bool)
    requires NoDup(s)
    ensures NoDup(Filter(s, p))
  {
    if s != [] {
      FilterNoDup(s[1..], p);
      var rest := Filter(s[1..], p);
      if p(s[0]) {
        var r := [s[0]] + rest;
        forall i, j | 0 <= i < j < |r| ensures r[i] != r[j] {
          if i == 0 {
            assert r[j] in rest;
            assert r[j] in s[1..];
          }
        }
      }
    }
  }

  /** `s.includes(x) ? s.filter(y => y !== x) : [...s, x]`: a click on a checkbox. */
  function Toggled<T(==,!new)>(s: seq<T>, x: T): (r: seq<T>)
    ensures x in r <==> x !in s
    ensures forall y :: y != x ==> (y in r <==> y in s)
    ensures x !in s ==> r == s + [x]
    ensures x in s ==> multiset(r) == multiset(s)[x := 0] && IsSubseq(r, s)
  {
    if x in s then
      RemoveAllMultiset(s, x);
      RemoveAll(s, x)
    else s + [x]
  }

  /** Toggling a value that was absent, then toggling it again, gives the sequence back. */
  lemma ToggleTwiceAbsent<T(!new)>(s: seq<T>, x: T)
    requires x !in s
    ensures Toggled(Toggled(s, x), x) == s
  {
    RemoveAllAppended(s, x);
    RemoveAbsent(s, x);
  }

  /** Toggling a value that was present, then toggling it again, keeps the same values:
      every copy went out and one came back at the end. */
  lemma ToggleTwicePresent<T(!new)>(s: seq<T>, x: T)
    requires x in s
    ensures Toggled(Toggled(s, x), x) == RemoveAll(s, x) + [x]
    ensures forall y :: y in Toggled(Toggled(s, x), x) <==> y in s
    ensures NoDup(s) ==> multiset(Toggled(Toggled(s, x), x)) == multiset(s)
  {
    if NoDup(s) {
      RemoveAllMultiset(s, x);
      NoDupOnce(s, x);
      assert multiset(s)[x] == 1;
      assert multiset(s)[x := 0] + multiset{x} == multiset(s);
    }
  }

  /** A sequence without duplicates holds each value at most once. */
  lemma {:induction false} NoDupOnce<T>(s: seq<T>, x: T)
    requires NoDup(s)
    ensures multiset(s)[x] <= 1
  {
    if s != [] {
      assert s == [s[0]] + s[1..];
      NoDupOnce(s[1..], x);
      if s[0] == x {
        assert x !in s[1..];
      }
    }
  }

  /** Toggling keeps a sequence free of duplicates. */
  lemma ToggledNoDup<T(!new)>(s: seq<T>, x: T)
    requires NoDup(s)
    ensures NoDup(Toggled(s, x))
  {
    if x in s {
      FilterNoDup(s, y => y != x);
    }
  }

  /** The sum of a sequence of reals, added from the left as `reduce` does. */
  function Sum(s: seq<real>): real
  {
    if s == [] then 0.0 else Sum(s[..|s| - 1]) + s[|s| - 1]
  }

  lemma {:induction false} SumAppend(s: seq<real>, t: seq<real>)
    ensures Sum(s + t) == Sum(s) + Sum(t)
  {
    if t == [] {
      assert s + t == s;
    } else {
      assert (s + t)[..|s + t| - 1] == s + t[..|t| - 1];
      SumAppend(s, t[..|t| - 1]);
    }
  }

  /** Every term between `lo` and `hi` puts the sum between `|s| * lo` and `|s| * hi`. */
  lemma {:induction false} SumBounds(s: seq<real>, lo: real, hi: real)
    requires forall i :: 0 <= i < |s| ==> lo <= s[i] <= hi
    ensures |s| as real * lo <= Sum(s) <= |s| as real * hi
  {
    if s != [] {
      var n := |s| - 1;
      SumBounds(s[..n], lo, hi);
      assert |s| as real * lo == n as real * lo + lo;
      assert |s| as real * hi == n as real * hi + hi;
    }
  }

  /** A relation `lt` ("strictly before") that a sort can order by: irreflexive,
      transitive, and with "not before" transitive too (a strict weak order). */
  ghost predicate StrictWeakOrder<T(!new)>(lt: (T, T) -> bool)
  {
    && (forall a :: !lt(a, a))
    && (forall a, b, c :: lt(a, b) && lt(b, c) ==> lt(a, c))
    && (forall a, b, c :: !lt(a, b) && !lt(b, c) ==> !lt(a, c))
  }

  /** No element is strictly before an element that precedes it. */
  ghost predicate SortedBy<T>(s: seq<T>, lt: (T, T) -> bool)
  {
    forall i, j :: 0 <= i < j < |s| ==> !lt(s[j], s[i])
  }

  /** Puts `x` in front of the first element that is not strictly before it,
      so `x` stays ahead of the elements it ties with. */
  function Insert<T>(x: T, s: seq<T>, lt: (T, T) -> bool): (r: seq<T>)
    ensures multiset(r) == multiset(s) + multiset{x}
    ensures |r| == |s| + 1
  {
    if s == [] || !lt(s[0], x) then [x] + s
    else
      assert s == [s[0]] + s[1..];
      [s[0]] + Insert(x, s[1..], lt)
  }

  /** A stable sort, as `Array.prototype.sort` is: insertion of each element, from the
      last to the first, in front of the elements it ties with. */
  function SortBy<T>(s: seq<T>, lt: (T, T) -> bool): (r: seq<T>)
    ensures multiset(r) == multiset(s)
    ensures |r| == |s|
  {
    if s == [] then []
    else
      assert s == [s[0]] + s[1..];
      Insert(s[0], SortBy(s[1..], lt), lt)
  }

  lemma {:induction false} InsertSorted<T(!new)>(x: T, s: seq<T>, lt: (T, T) -> bool)
    requires StrictWeakOrder(lt)
    requires SortedBy(s, lt)
    ensures SortedBy(Insert(x, s, lt), lt)
  {
    if s == [] || !lt(s[0], x) {
      var r := [x] + s;
      forall i, j | 0 <= i < j < |r| ensures !lt(r[j], r[i]) {
        if i == 0 {
          assert !lt(r[j], s[0]) || j == 1;
        }
      }
    } else {
      InsertSorted(x, s[1..], lt);
      var t := Insert(x, s[1..], lt);
      var r := [s[0]] + t;
      forall i, j | 0 <= i < j < |r| ensures !lt(r[j], r[i]) {
        if i == 0 {
          var y := r[j];
          assert y in multiset(t);
          assert y in multiset(s[1..]) + multiset{x};
          if y != x {
            assert y in s[1..];
            var k :| 0 <= k < |s[1..]| && s[1..][k] == y;
            assert s[k + 1] == y;
          }
        }
      }
    }
  }

  /** The result of SortBy is sorted whenever `lt` is a strict weak order. */
  lemma {:induction false} SortByIsSorted<T(!new)>(s: seq<T>, lt: (T, T) -> bool)
    requires StrictWeakOrder(lt)
    ensures SortedBy(SortBy(s, lt), lt)
  {
    if s != [] {
      SortByIsSorted(s[1..], lt);
      InsertSorted(s[0], SortBy(s[1..], lt), lt);
    }
  }

  /** `s.slice(0, n)`. */
  function Take<T>(s: seq<T>, n: nat): (r: seq<T>)
    ensures |r| == if n < |s| then n else |s|
    ensures r <= s
  {
    if n < |s| then s[..n] else s
  }

  /** `s.slice(-n)`: the last `n` elements, or all of them when there are fewer. */
  function TakeLast<T>(s: seq<T>, n: nat): (r: seq<T>)
    ensures |r| == if n < |s| then n else |s|
    ensures forall i :: 0 <= i < |r| ==> r[i] == s[|s| - |r| + i]
  {
    if n < |s| then s[|s| - n..] else s
  }
}
