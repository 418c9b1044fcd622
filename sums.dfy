/** Sums shared by several days: the left fold `reduce(0, +)` over a sequence, and the sum
    of a function over a set, whose order of summation does not matter. */
module Sums {

  /** The sum of `s`, added up from the left as `reduce(0, +)` does. */
  function Sum(s: seq<int>): int {
    if |s| == 0 then 0 else Sum(s[..|s| - 1]) + s[|s| - 1]
  }

  lemma {:induction false} SumAppend(a: seq<int>, b: seq<int>)
    ensures Sum(a + b) == Sum(a) + Sum(b)
    decreases |b|
  {
    if |b| == 0 {
      assert a + b == a;
    } else {
      assert (a + b)[..|a + b| - 1] == a + b[..|b| - 1];
      assert (a + b)[|a + b| - 1] == b[|b| - 1];
      SumAppend(a, b[..|b| - 1]);
    }
  }

  /** Reordering the terms does not change the sum. */
  lemma {:induction false} SumPermutation(a: seq<int>, b: seq<int>)
    requires multiset(a) == multiset(b)
    ensures Sum(a) == Sum(b)
    decreases |a|
  {
    if |a| == 0 {
      assert |b| == |multiset(b)| == 0;
    } else {
      var x := a[|a| - 1];
      var a' := a[..|a| - 1];
      assert a == a' + [x];
      assert x in multiset(b);
      var j :| 0 <= j < |b| && b[j] == x;
      var b' := b[..j] + b[j + 1..];
      assert b == b[..j] + [x] + b[j + 1..];
      assert multiset(b) == multiset(b[..j]) + multiset{x} + multiset(b[j + 1..]);
      assert multiset(b') == multiset(b[..j]) + multiset(b[j + 1..]);
      assert multiset(a) == multiset(a') + multiset{x};
      assert multiset(a') == multiset(a) - multiset{x};
      assert multiset(b') == multiset(b) - multiset{x};
      SumPermutation(a', b');
      SumAppend(b[..j] + [x], b[j + 1..]);
      SumAppend(b[..j], [x]);
      SumAppend(b[..j], b[j + 1..]);
    }
  }

  /** The product of `s`, multiplied up from the left as `reduce(1, *)` does. */
  function Product(s: seq<nat>): nat {
    if |s| == 0 then 1 else Product(s[..|s| - 1]) * s[|s| - 1]
  }

  /** A product is 0 exactly when one of its factors is. */
  lemma {:induction false} ProductZero(s: seq<nat>)
    ensures Product(s) == 0 ==> 0 in s
    ensures 0 in s ==> Product(s) == 0
  {
    if |s| > 0 {
      var prefix := s[..|s| - 1];
      ProductZero(prefix);
      assert s == prefix + [s[|s| - 1]];
      if Product(prefix) > 0 && s[|s| - 1] > 0 {
        PositiveProduct(Product(prefix), s[|s| - 1]);
      }
    }
  }

  /** A product of four factors is 0 exactly when one of them is. */
  lemma ProductOfFourZero(a: nat, b: nat, c: nat, d: nat)
    ensures Product([a, b, c, d]) == 0 <==> a == 0 || b == 0 || c == 0 || d == 0
  {
    ProductZero([a, b, c, d]);
    assert 0 in [a, b, c, d] <==> a == 0 || b == 0 || c == 0 || d == 0;
  }

  lemma PositiveProduct(a: nat, b: nat)
    requires a > 0 && b > 0
    ensures a * b > 0
  {
  }

  /** Some element of a non-empty set. */
  lemma Pick<T>(s: set<T>) returns (x: T)
    requires s != {}
    ensures x in s
  {
    x :| x in s;
  }

  /** The sum of `f` over the elements of `s`. */
  ghost function SetSum<T>(s: set<T>, f: T -> int): int
    decreases s
  {
    if s == {} then 0 else var x :| x in s; f(x) + SetSum(s - {x}, f)
  }

  /** Any element can be taken out first: the sum over a set does not depend on the order. */
  lemma {:induction false} SetSumRemove<T>(s: set<T>, f: T -> int, y: T)
    requires y in s
    ensures SetSum(s, f) == f(y) + SetSum(s - {y}, f)
    decreases s
  {
    var x :| x in s && SetSum(s, f) == f(x) + SetSum(s - {x}, f);
    if x != y {
      SetSumRemove(s - {x}, f, y);
      SetSumRemove(s - {y}, f, x);
      assert s - {x} - {y} == s - {y} - {x};
    }
  }

  /** Two functions that agree on `s` have the same sum over it. */
  lemma {:induction false} SetSumAgree<T>(s: set<T>, f: T -> int, g: T -> int)
    requires forall x :: x in s ==> f(x) == g(x)
    ensures SetSum(s, f) == SetSum(s, g)
    decreases s
  {
    if s != {} {
      var x :| x in s;
      SetSumRemove(s, f, x);
      SetSumRemove(s, g, x);
      SetSumAgree(s - {x}, f, g);
    }
  }

  /** A sum of non-negative terms is non-negative. */
  lemma {:induction false} SetSumNonNegative<T>(s: set<T>, f: T -> int)
    requires forall x :: x in s ==> f(x) >= 0
    ensures SetSum(s, f) >= 0
    decreases s
  {
    if s != {} {
      var x :| x in s;
      SetSumRemove(s, f, x);
      SetSumNonNegative(s - {x}, f);
    }
  }

  /** How many elements satisfy `p`: `reduce(0, ...)` adding one per element that does. */
  function CountWhere<T>(s: seq<T>, p: T -> bool): (n: nat)
    ensures n <= |s|
  {
    if |s| == 0 then 0 else CountWhere(s[..|s| - 1], p) + (if p(s[|s| - 1]) then 1 else 0)
  }

  /** The positions of the elements that satisfy `p`. */
  ghost function IndicesWhere<T>(s: seq<T>, p: T -> bool): set<nat> {
    set i: nat | i < |s| && p(s[i])
  }

  /** The fold counts exactly the positions whose element satisfies `p`. */
  lemma {:induction false} CountWhereIndices<T>(s: seq<T>, p: T -> bool)
    ensures CountWhere(s, p) == |IndicesWhere(s, p)|
  {
    if |s| > 0 {
      var n := |s| - 1;
      CountWhereIndices(s[..n], p);
      var before := IndicesWhere(s[..n], p);
      assert n !in before;
      if p(s[n]) {
        assert IndicesWhere(s, p) == before + {n};
      } else {
        assert IndicesWhere(s, p) == before;
      }
    }
  }

  /** A weaker condition counts at least as many elements. */
  lemma {:induction false} CountWhereMonotonic<T>(s: seq<T>, p: T -> bool, q: T -> bool)
    requires forall x :: p(x) ==> q(x)
    ensures CountWhere(s, p) <= CountWhere(s, q)
  {
    if |s| > 0 {
      CountWhereMonotonic(s[..|s| - 1], p, q);
    }
  }
}
