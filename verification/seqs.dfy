/** Sequence helpers shared by the repositories and the services. */
module Seqs {

  /** No element occurs twice. */
  predicate Distinct<T(==)>(s: seq<T>)
  {
    forall i, j | 0 <= i < j < |s| :: s[i] != s[j]
  }

  /** The elements of `s` that satisfy `keep`, in their original order. */
  function Filter<T>(s: seq<T>, keep: T -> bool): (r: seq<T>)
    ensures forall x | x in r :: x in s && keep(x)
    ensures forall x | x in s && keep(x) :: x in r
    ensures |r| <= |s|
  {
    if |s| == 0 then []
    else
      assert s == [s[0]] + s[1..];
      (if keep(s[0]) then [s[0]] else []) + Filter(s[1..], keep)
  }

  /** Filtering a duplicate-free sequence leaves it duplicate-free. */
  lemma {:induction false} FilterDistinct<T>(s: seq<T>, keep: T -> bool)
    requires Distinct(s)
    ensures Distinct(Filter(s, keep))
  {
    if |s| > 0 {
      var x, tail := s[0], s[1..];
      assert Distinct(tail) by {
        forall i, j | 0 <= i < j < |tail| ensures tail[i] != tail[j] {
          assert tail[i] == s[i + 1] && tail[j] == s[j + 1];
        }
      }
      FilterDistinct(tail, keep);
      assert x !in tail;
      var r := Filter(s, keep);
      if keep(x) {
        var rest := Filter(tail, keep);
        assert r == [x] + rest;
        forall i, j | 0 <= i < j < |r| ensures r[i] != r[j] {
          assert r[j] == rest[j - 1];
          if i > 0 {
            assert r[i] == rest[i - 1];
          }
        }
      }
    }
  }

  /** `s` without any occurrence of `x`. */
  function Without<T(==)>(s: seq<T>, x: T): (r: seq<T>)
    ensures forall y | y in r :: y in s && y != x
    ensures forall y | y in s && y != x :: y in r
    ensures Distinct(s) ==> Distinct(r)
  {
    var keep := (y: T) => y != x;
    if Distinct(s) then FilterDistinct(s, keep); Filter(s, keep) else Filter(s, keep)
  }

  /** Index of the first occurrence of `x`, or `|s|` when there is none. */
  function IndexOf<T(==)>(s: seq<T>, x: T): (i: nat)
    ensures i <= |s|
    ensures i < |s| ==> s[i] == x
    ensures forall j | 0 <= j < i :: s[j] != x
  {
    if |s| == 0 then 0
    else if s[0] == x then 0
    else 1 + IndexOf(s[1..], x)
  }

  /** `s` with its first occurrence of `from` overwritten by `to`. */
  function ReplaceFirst<T(==)>(s: seq<T>, from: T, to: T): (r: seq<T>)
    ensures |r| == |s|
    ensures from !in s ==> r == s
    ensures from in s ==> r[IndexOf(s, from)] == to
    ensures forall j | 0 <= j < |s| && j != IndexOf(s, from) :: r[j] == s[j]
  {
    var i := IndexOf(s, from);
    if i < |s| then s[i := to] else s
  }

  /** Replacing a present element by an absent one keeps the sequence
      duplicate-free and swaps exactly that element in the element set. */
  lemma ReplaceFirstDistinct<T>(s: seq<T>, from: T, to: T)
    requires Distinct(s) && from in s && to !in s
    ensures Distinct(ReplaceFirst(s, from, to))
    ensures forall y :: y in ReplaceFirst(s, from, to) <==> (y in s && y != from) || y == to
  {
    var r := ReplaceFirst(s, from, to);
    var i := IndexOf(s, from);
    forall y | y in s && y != from ensures y in r {
      var k :| 0 <= k < |s| && s[k] == y;
      assert r[k] == y;
    }
    assert r[i] == to;
  }

  /** Replacing in place and "remove, then append" give the same elements
      with the same multiplicities: only the position of `to` differs. */
  lemma ReplaceFirstIsRemoveThenAppend<T>(s: seq<T>, from: T, to: T)
    requires Distinct(s) && from in s && to !in s
    ensures multiset(ReplaceFirst(s, from, to)) == multiset(Without(s, from) + [to])
  {
    var i := IndexOf(s, from);
    assert s == s[..i] + [from] + s[i+1..];
    var r := ReplaceFirst(s, from, to);
    assert r == s[..i] + [to] + s[i+1..];
    WithoutAbsent(s[..i], from);
    WithoutAbsent(s[i+1..], from);
    WithoutConcat(s[..i] + [from], s[i+1..], from);
    WithoutConcat(s[..i], [from], from);
    assert Without([from], from) == [];
  }

  lemma {:induction false} WithoutAbsent<T>(s: seq<T>, x: T)
    requires x !in s
    ensures Without(s, x) == s
  {
    FilterAll(s, y => y != x);
  }

  lemma WithoutSingleton<T>(x: T, y: T)
    ensures Without([x], y) == if x == y then [] else [x]
  {
    assert [x][1..] == [];
  }

  lemma WithoutUnchanged<T>(s: seq<T>, x: T)
    ensures x !in s ==> Without(s, x) == s
  {
    if x !in s {
      WithoutAbsent(s, x);
    }
  }

  lemma {:induction false} FilterAll<T>(s: seq<T>, keep: T -> bool)
    requires forall y | y in s :: keep(y)
    ensures Filter(s, keep) == s
  {
    if |s| > 0 {
      var tail := s[1..];
      assert forall y | y in tail :: y in s;
      FilterAll(tail, keep);
      assert Filter(s, keep) == [s[0]] + Filter(tail, keep);
      assert s == [s[0]] + tail;
    }
  }

  /** Filters that agree on the elements of `s` keep the same elements. */
  lemma {:induction false} FilterCongruent<T>(s: seq<T>, f: T -> bool, g: T -> bool)
    requires forall x | x in s :: f(x) == g(x)
    ensures Filter(s, f) == Filter(s, g)
  {
    if |s| > 0 {
      assert forall x | x in s[1..] :: x in s;
      FilterCongruent(s[1..], f, g);
    }
  }

  /** Filtering twice is filtering once by the conjunction. */
  lemma {:induction false} FilterFilter<T>(s: seq<T>, f: T -> bool, g: T -> bool, both: T -> bool)
    requires forall x | x in s :: both(x) == (f(x) && g(x))
    ensures Filter(Filter(s, f), g) == Filter(s, both)
  {
    if |s| > 0 {
      var x, tail := s[0], s[1..];
      assert forall y | y in tail :: y in s;
      FilterFilter(tail, f, g, both);
      var head := if f(x) then [x] else [];
      assert Filter(s, f) == head + Filter(tail, f);
      FilterConcat(head, Filter(tail, f), g);
      assert Filter(head, g) == if both(x) then [x] else [] by {
        if f(x) {
          assert head[1..] == [];
        }
      }
      assert Filter(s, both) == (if both(x) then [x] else []) + Filter(tail, both);
    }
  }

  /** Removing `x` is filtering by any test that rejects exactly `x`. */
  lemma {:induction false} WithoutAsFilter<T>(s: seq<T>, x: T, f: T -> bool)
    requires forall y | y in s :: f(y) == (y != x)
    ensures Without(s, x) == Filter(s, f)
  {
    if |s| > 0 {
      assert forall y | y in s[1..] :: y in s;
      WithoutAsFilter(s[1..], x, f);
    }
  }

  lemma WithoutConcat<T>(a: seq<T>, b: seq<T>, x: T)
    ensures Without(a + b, x) == Without(a, x) + Without(b, x)
  {
    FilterConcat(a, b, y => y != x);
  }

  /** Filtering distributes over concatenation: the survivors of `a` come
      before the survivors of `b`, so the original order is kept. */
  lemma {:induction false} FilterConcat<T>(a: seq<T>, b: seq<T>, keep: T -> bool)
    ensures Filter(a + b, keep) == Filter(a, keep) + Filter(b, keep)
  {
    if |a| == 0 {
      assert a + b == b;
    } else {
      var x, tail := a[0], a[1..];
      FilterConcat(tail, b, keep);
      assert a == [x] + tail;
      assert a + b == [x] + (tail + b);
      FilterCons(x, tail, keep);
      FilterCons(x, tail + b, keep);
      Regroup(if keep(x) then [x] else [], Filter(tail, keep), Filter(b, keep),
              Filter(a + b, keep), Filter(a, keep));
    }
  }

  lemma Regroup<T>(h: seq<T>, ft: seq<T>, fb: seq<T>, whole: seq<T>, front: seq<T>)
    requires whole == h + (ft + fb) && front == h + ft
    ensures whole == front + fb
  {
  }

  lemma FilterCons<T>(x: T, s: seq<T>, keep: T -> bool)
    ensures Filter([x] + s, keep) == (if keep(x) then [x] else []) + Filter(s, keep)
  {
    assert ([x] + s)[1..] == s;
  }

  /** A duplicate-free sequence has as many distinct elements as positions. */
  lemma {:induction false} DistinctCardinality<T>(s: seq<T>)
    requires Distinct(s)
    ensures |set x | x in s| == |s|
  {
    if |s| > 0 {
      var tail := s[1..];
      assert Distinct(tail) by {
        forall i, j | 0 <= i < j < |tail| ensures tail[i] != tail[j] {
          assert tail[i] == s[i + 1] && tail[j] == s[j + 1];
        }
      }
      DistinctCardinality(tail);
      assert (set x | x in s) == {s[0]} + (set x | x in tail);
      assert s[0] !in (set x | x in tail);
    }
  }

  /** In a duplicate-free sequence every element occurs exactly once. */
  lemma {:induction false} DistinctCount<T>(s: seq<T>, x: T)
    requires Distinct(s)
    ensures multiset(s)[x] == if x in s then 1 else 0
  {
    if |s| > 0 {
      var tail := s[1..];
      assert s == [s[0]] + tail;
      assert Distinct(tail) by {
        forall i, j | 0 <= i < j < |tail| ensures tail[i] != tail[j] {
          assert tail[i] == s[i + 1] && tail[j] == s[j + 1];
        }
      }
      assert s[0] !in tail by {
        forall k | 0 <= k < |tail| ensures tail[k] != s[0] {
          assert tail[k] == s[k + 1];
        }
      }
      DistinctCount(tail, x);
      assert multiset(s) == multiset([s[0]]) + multiset(tail);
    }
  }

  /** Duplicate-free sequences with the same elements are permutations of
      each other. */
  lemma DistinctSameElements<T>(a: seq<T>, b: seq<T>)
    requires Distinct(a) && Distinct(b)
    requires forall x :: x in a <==> x in b
    ensures multiset(a) == multiset(b)
  {
    forall x ensures multiset(a)[x] == multiset(b)[x] {
      DistinctCount(a, x);
      DistinctCount(b, x);
    }
  }
}
