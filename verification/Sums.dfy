/** Finite sums of integers over sets, and the few laws the call-tree proofs need. */
module Sums {

  ghost function Sum<T>(s: set<T>, f: T -> int): int {
    if s == {} then 0 else var x :| x in s; f(x) + Sum(s - {x}, f)
  }

  /** Any element may be taken out first. */
  lemma {:induction false} SumPick<T>(s: set<T>, f: T -> int, x: T)
    requires x in s
    ensures Sum(s, f) == f(x) + Sum(s - {x}, f)
    decreases |s|
  {
    var y :| y in s && Sum(s, f) == f(y) + Sum(s - {y}, f);
    if y != x {
      SumPick(s - {y}, f, x);
      SumPick(s - {x}, f, y);
      assert s - {x} - {y} == s - {y} - {x};
    }
  }

  lemma {:induction false} SumUnion<T>(a: set<T>, b: set<T>, f: T -> int)
    requires a !! b
    ensures Sum(a + b, f) == Sum(a, f) + Sum(b, f)
    decreases |a|
  {
    if a == {} {
      assert a + b == b;
    } else {
      var x :| x in a;
      SumPick(a, f, x);
      SumPick(a + b, f, x);
      assert a + b - {x} == (a - {x}) + b;
      SumUnion(a - {x}, b, f);
    }
  }

  lemma {:induction false} SumCongruent<T>(s: set<T>, f: T -> int, g: T -> int)
    requires forall x :: x in s ==> f(x) == g(x)
    ensures Sum(s, f) == Sum(s, g)
    decreases |s|
  {
    if s != {} {
      var x :| x in s;
      SumPick(s, f, x);
      SumPick(s, g, x);
      SumCongruent(s - {x}, f, g);
    }
  }

  lemma {:induction false} SumMonotone<T>(s: set<T>, f: T -> int, g: T -> int)
    requires forall x :: x in s ==> f(x) <= g(x)
    ensures Sum(s, f) <= Sum(s, g)
    decreases |s|
  {
    if s != {} {
      var x :| x in s;
      SumPick(s, f, x);
      SumPick(s, g, x);
      SumMonotone(s - {x}, f, g);
    }
  }

  lemma {:induction false} SumNonNegative<T>(s: set<T>, f: T -> int)
    requires forall x :: x in s ==> 0 <= f(x)
    ensures 0 <= Sum(s, f)
    ensures forall x :: x in s ==> f(x) <= Sum(s, f)
    decreases |s|
  {
    if s != {} {
      var x :| x in s;
      SumPick(s, f, x);
      SumNonNegative(s - {x}, f);
      forall y | y in s ensures f(y) <= Sum(s, f) {
        if y != x { assert y in s - {x}; }
      }
    }
  }

  lemma {:induction false} SumZero<T>(s: set<T>, f: T -> int)
    requires forall x :: x in s ==> f(x) == 0
    ensures Sum(s, f) == 0
    decreases |s|
  {
    if s != {} {
      var x :| x in s;
      SumPick(s, f, x);
      SumZero(s - {x}, f);
    }
  }

  lemma {:induction false} SumAdd<T>(s: set<T>, f: T -> int, g: T -> int, h: T -> int)
    requires forall x :: x in s ==> h(x) == f(x) + g(x)
    ensures Sum(s, h) == Sum(s, f) + Sum(s, g)
    decreases |s|
  {
    if s != {} {
      var x :| x in s;
      SumPick(s, f, x);
      SumPick(s, g, x);
      SumPick(s, h, x);
      SumAdd(s - {x}, f, g, h);
    }
  }

  ghost function Fibre<T, K>(s: set<T>, key: T -> K, k: K): set<T> {
    set x | x in s && key(x) == k
  }

  ghost function FibreSum<T, K>(s: set<T>, f: T -> int, key: T -> K): K -> int {
    k => Sum(Fibre(s, key, k), f)
  }

  /** Summing group by group is summing everything. */
  lemma {:induction false} SumFibres<T, K>(s: set<T>, f: T -> int, key: T -> K, ks: set<K>)
    requires forall x :: x in s ==> key(x) in ks
    ensures Sum(ks, FibreSum(s, f, key)) == Sum(s, f)
    decreases |ks|
  {
    if ks == {} {
      assert s == {};
    } else {
      var k :| k in ks;
      var here, rest := Fibre(s, key, k), s - Fibre(s, key, k);
      var whole, fewer := FibreSum(s, f, key), FibreSum(rest, f, key);
      assert Sum(ks, whole) == Sum(here, f) + Sum(ks - {k}, whole) by {
        SumPick(ks, whole, k);
      }
      assert Sum(ks - {k}, whole) == Sum(ks - {k}, fewer) by {
        OtherFibres(s, f, key, ks, k);
      }
      assert Sum(ks - {k}, fewer) == Sum(rest, f) by {
        SumFibres(rest, f, key, ks - {k});
      }
      assert Sum(s, f) == Sum(here, f) + Sum(rest, f) by {
        SumUnion(here, rest, f);
        assert here + rest == s;
      }
    }
  }

  /** Leaving out one fibre does not change the others. */
  lemma OtherFibres<T, K>(s: set<T>, f: T -> int, key: T -> K, ks: set<K>, k: K)
    ensures Sum(ks - {k}, FibreSum(s, f, key)) == Sum(ks - {k}, FibreSum(s - Fibre(s, key, k), f, key))
  {
    forall j | j in ks - {k} ensures FibreSum(s, f, key)(j) == FibreSum(s - Fibre(s, key, k), f, key)(j) {
      assert Fibre(s, key, j) == Fibre(s - Fibre(s, key, k), key, j);
    }
    SumCongruent(ks - {k}, FibreSum(s, f, key), FibreSum(s - Fibre(s, key, k), f, key));
  }
}
