/** Finite integer sums and counts used by the matrix products and by the
    curvature formulas. */
module Sums {

  /** The sum f(0) + ... + f(n - 1). */
  function Sum(n: nat, f: nat -> int): int
  {
    if n == 0 then 0 else Sum(n - 1, f) + f(n - 1)
  }

  /** The sum of g over the members of xs, in order. */
  function SumOver<T>(xs: seq<T>, g: T -> int): int
  {
    if xs == [] then 0 else SumOver(xs[..|xs| - 1], g) + g(xs[|xs| - 1])
  }

  /** True when no value occurs twice in xs. */
  predicate NoDup<T(==)>(xs: seq<T>)
  {
    forall i, j :: 0 <= i < j < |xs| ==> xs[i] != xs[j]
  }

  lemma {:induction false} SumExt(n: nat, f: nat -> int, g: nat -> int)
    requires forall k: nat :: k < n ==> f(k) == g(k)
    ensures Sum(n, f) == Sum(n, g)
  {
    if n > 0 { SumExt(n - 1, f, g); }
  }

  lemma {:induction false} SumZero(n: nat, f: nat -> int)
    requires forall k: nat :: k < n ==> f(k) == 0
    ensures Sum(n, f) == 0
  {
    if n > 0 { SumZero(n - 1, f); }
  }

  /** A sum whose terms vanish except at positions x and y. */
  lemma {:induction false} SumTwoPoints(n: nat, f: nat -> int, x: nat, y: nat)
    requires x < y < n
    requires forall k: nat :: k < n && k != x && k != y ==> f(k) == 0
    ensures Sum(n, f) == f(x) + f(y)
  {
    if n - 1 == y {
      SumOnePoint(y, f, x);
    } else {
      SumTwoPoints(n - 1, f, x, y);
    }
  }

  /** A sum whose terms vanish except at position x. */
  lemma {:induction false} SumOnePoint(n: nat, f: nat -> int, x: nat)
    requires x < n
    requires forall k: nat :: k < n && k != x ==> f(k) == 0
    ensures Sum(n, f) == f(x)
  {
    if n - 1 == x {
      SumZero(n - 1, f);
    } else {
      SumOnePoint(n - 1, f, x);
    }
  }

  /** A sum over a sequence is the index sum of its terms. */
  lemma {:induction false} SumOverAsSum<T>(xs: seq<T>, g: T -> int, f: nat -> int)
    requires forall k: nat :: k < |xs| ==> f(k) == g(xs[k])
    ensures SumOver(xs, g) == Sum(|xs|, f)
  {
    if xs != [] {
      var ys := xs[..|xs| - 1];
      forall k: nat | k < |ys| ensures f(k) == g(ys[k]) { }
      SumOverAsSum(ys, g, f);
    }
  }

  lemma {:induction false} SumOverAppend<T>(xs: seq<T>, ys: seq<T>, g: T -> int)
    ensures SumOver(xs + ys, g) == SumOver(xs, g) + SumOver(ys, g)
  {
    if ys == [] {
      assert xs + ys == xs;
    } else {
      assert (xs + ys)[..|xs + ys| - 1] == xs + ys[..|ys| - 1];
      SumOverAppend(xs, ys[..|ys| - 1], g);
    }
  }

  lemma {:induction false} SumOverZero<T>(xs: seq<T>, g: T -> int)
    requires forall k :: 0 <= k < |xs| ==> g(xs[k]) == 0
    ensures SumOver(xs, g) == 0
  {
    if xs != [] {
      SumOverZero(xs[..|xs| - 1], g);
    }
  }

  /** Removing the member at position i takes its term out of the sum. */
  lemma SumOverRemove<T>(xs: seq<T>, i: nat, g: T -> int)
    requires i < |xs|
    ensures SumOver(xs, g) == SumOver(xs[..i] + xs[i + 1..], g) + g(xs[i])
  {
    var pre, mid, post := xs[..i], [xs[i]], xs[i + 1..];
    assert xs == (pre + mid) + post;
    SumOverAppend(pre + mid, post, g);
    SumOverAppend(pre, mid, g);
    SumOverAppend(pre, post, g);
    SumOverSingle(xs[i], g);
  }

  lemma SumOverSingle<T>(a: T, g: T -> int)
    ensures SumOver([a], g) == g(a)
  {
    assert [a][..0] == [];
  }

  lemma SumOverPair<T>(a: T, b: T, g: T -> int)
    ensures SumOver([a, b], g) == g(a) + g(b)
  {
    assert [a, b][..1] == [a];
    SumOverSingle(a, g);
  }

  /** Support lemma: when g vanishes outside the duplicate-free list ds,
      and every member of ds occurs in the duplicate-free list ks, the
      sum of g over ks is the sum of g over ds, whatever the order. */
  lemma {:induction false} SumOverSupport<T>(ks: seq<T>, ds: seq<T>, g: T -> int)
    requires NoDup(ks) && NoDup(ds)
    requires forall d :: d in ds ==> d in ks
    requires forall k :: k in ks && k !in ds ==> g(k) == 0
    ensures SumOver(ks, g) == SumOver(ds, g)
  {
    if ks == [] {
      SumOverZero(ds, g);
    } else {
      var ks' := ks[..|ks| - 1];
      var x := ks[|ks| - 1];
      assert x !in ks' by {
        forall j | 0 <= j < |ks'| ensures ks'[j] != x {
          assert ks'[j] == ks[j];
        }
      }
      forall d | d in ds && d != x ensures d in ks' {
        var q :| 0 <= q < |ks| && ks[q] == d;
        assert ks'[q] == d;
      }
      if x in ds {
        var i :| 0 <= i < |ds| && ds[i] == x;
        var ds' := ds[..i] + ds[i + 1..];
        assert Shift: forall j :: 0 <= j < |ds'| ==> ds'[j] == ds[if j < i then j else j + 1];
        assert NoDup(ds');
        assert x !in ds' by {
          forall j | 0 <= j < |ds'| ensures ds'[j] != x {
            assert ds'[j] == ds[if j < i then j else j + 1];
          }
        }
        forall d | d in ds' ensures d in ks' {
          var j :| 0 <= j < |ds'| && ds'[j] == d;
          assert ds[if j < i then j else j + 1] == d;
        }
        forall k | k in ks' && k !in ds' ensures g(k) == 0 {
          var q :| 0 <= q < |ks'| && ks'[q] == k;
          assert ks[q] == k;
          assert k != x;
          forall j | 0 <= j < |ds| ensures ds[j] != k {
            if j < i {
              assert ds'[j] == ds[j];
            } else if j > i {
              assert ds'[j - 1] == ds[j];
            }
          }
        }
        SumOverSupport(ks', ds', g);
        SumOverRemove(ds, i, g);
      } else {
        forall k | k in ks' && k !in ds ensures g(k) == 0 {
          var q :| 0 <= q < |ks'| && ks'[q] == k;
          assert ks[q] == k;
        }
        SumOverSupport(ks', ds, g);
      }
    }
  }

  /** The list [f(0), ..., f(n - 1)], built by appending. */
  function Tabulate<T>(n: nat, f: nat -> T): (r: seq<T>)
    ensures |r| == n
  {
    if n == 0 then [] else Tabulate(n - 1, f) + [f(n - 1)]
  }

  lemma {:induction false} TabulateAt<T>(n: nat, f: nat -> T, i: nat)
    requires i < n
    ensures Tabulate(n, f)[i] == f(i)
  {
    if i < n - 1 { TabulateAt(n - 1, f, i); }
  }

  /** The number of positions k < n at which P holds. */
  function Count(n: nat, P: nat -> bool): nat
  {
    if n == 0 then 0 else Count(n - 1, P) + (if P(n - 1) then 1 else 0)
  }

  lemma {:induction false} CountExt(n: nat, P: nat -> bool, Q: nat -> bool)
    requires forall k: nat :: k < n ==> P(k) == Q(k)
    ensures Count(n, P) == Count(n, Q)
  {
    if n > 0 { CountExt(n - 1, P, Q); }
  }

  /** Dropping the term at position m from a sum. */
  lemma {:induction false} SumExceptOne(n: nat, f: nat -> int, g: nat -> int, m: nat)
    requires m < n
    requires forall k: nat :: k < n && k != m ==> f(k) == g(k)
    requires g(m) == 0
    ensures Sum(n, f) == Sum(n, g) + f(m)
  {
    if n - 1 == m {
      SumExt(n - 1, f, g);
    } else {
      SumExceptOne(n - 1, f, g, m);
    }
  }

  lemma {:induction false} SumNonNegative(n: nat, f: nat -> int)
    requires forall k: nat :: k < n ==> f(k) >= 0
    ensures Sum(n, f) >= 0
  {
    if n > 0 { SumNonNegative(n - 1, f); }
  }

  /** A sum of n equal terms. */
  lemma {:induction false} SumConstant(n: nat, f: nat -> int, v: int)
    requires forall k: nat :: k < n ==> f(k) == v
    ensures Sum(n, f) == n * v
  {
    if n > 0 { SumConstant(n - 1, f, v); }
  }

  /** A count is the sum of the 0/1 indicator of its predicate. */
  lemma {:induction false} CountAsSum(n: nat, P: nat -> bool, f: nat -> int)
    requires forall k: nat :: k < n ==> f(k) == if P(k) then 1 else 0
    ensures Count(n, P) == Sum(n, f)
  {
    if n > 0 { CountAsSum(n - 1, P, f); }
  }

  /** A count over n positions is at most n. */
  lemma {:induction false} CountAtMost(n: nat, P: nat -> bool)
    ensures Count(n, P) <= n
  {
    if n > 0 { CountAtMost(n - 1, P); }
  }

  /** A count is positive when P holds at some position below n. */
  lemma {:induction false} CountPositive(n: nat, P: nat -> bool, k: nat)
    requires k < n && P(k)
    ensures Count(n, P) >= 1
  {
    if k < n - 1 { CountPositive(n - 1, P, k); }
  }
}
