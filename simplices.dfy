/** Simplices, complexes and the dimension index (`n_faces`,
    frc.py:48-49), with the facts about deleting one vertex that the
    boundary operator rests on. */
module Simplices {
  import opened Sorting
  import opened Sums
  import opened Results

  /** A simplex is a tuple of vertex ids; a complex is an enumeration of
      the Python set of simplices (the order `list(set)` produces). */
  type Simplex = seq<int>
  type Complex = seq<Simplex>

  /** `n_faces(S, n)`: the simplices of S with exactly n + 1 vertices, in
      the order S enumerates them. */
  function NFaces(S: Complex, n: int): (r: Complex)
    ensures forall x :: x in r <==> x in S && |x| == n + 1
    ensures |r| <= |S|
  {
    if S == [] then []
    else
      var front := NFaces(S[..|S| - 1], n);
      assert S == S[..|S| - 1] + [S[|S| - 1]];
      if |S[|S| - 1]| == n + 1 then front + [S[|S| - 1]] else front
  }

  /** The filter keeps S's order: the simplices of S before position k
      that have n + 1 vertices come first, and a matching S[k] follows them. */
  lemma {:induction false} NFacesPrefix(S: Complex, n: int, k: nat)
    requires k <= |S|
    ensures NFaces(S[..k], n) <= NFaces(S, n)
    decreases |S|
  {
    if k < |S| {
      assert S[..|S| - 1][..k] == S[..k];
      NFacesPrefix(S[..|S| - 1], n, k);
    } else {
      assert S[..k] == S;
    }
  }

  lemma NFacesOrder(S: Complex, n: int, k: nat)
    requires k < |S| && |S[k]| == n + 1
    ensures |NFaces(S[..k], n)| < |NFaces(S, n)|
    ensures NFaces(S, n)[|NFaces(S[..k], n)|] == S[k]
  {
    assert S[..k + 1][..k] == S[..k];
    assert NFaces(S[..k + 1], n) == NFaces(S[..k], n) + [S[k]];
    NFacesPrefix(S, n, k + 1);
  }

  lemma {:induction false} NFacesNoDup(S: Complex, n: int)
    requires NoDup(S)
    ensures NoDup(NFaces(S, n))
  {
    if S != [] {
      var S' := S[..|S| - 1];
      assert NoDup(S');
      NFacesNoDup(S', n);
      assert S[|S| - 1] !in S' by {
        forall j | 0 <= j < |S'| ensures S'[j] != S[|S| - 1] {
          assert S'[j] == S[j];
        }
      }
    }
  }

  /** A dictionary `{xs[j]: j}` looked up at x: the last position of x. */
  function IndexOf(xs: Complex, x: Simplex): (r: Option<nat>)
    ensures r.None? <==> x !in xs
    ensures r.Some? ==> r.value < |xs| && xs[r.value] == x
    ensures r.Some? ==> forall j :: r.value < j < |xs| ==> xs[j] != x
  {
    if xs == [] then None
    else if xs[|xs| - 1] == x then Some(|xs| - 1)
    else
      assert xs == xs[..|xs| - 1] + [xs[|xs| - 1]];
      IndexOf(xs[..|xs| - 1], x)
  }

  /** In a duplicate-free list the lookup gives the one position of x. */
  lemma IndexOfNoDup(xs: Complex, j: nat)
    requires NoDup(xs) && j < |xs|
    ensures IndexOf(xs, xs[j]) == Some(j)
  {
  }

  /** `s[:a] + s[a+1:]`: the face of s opposite its vertex at position a. */
  function Delete(s: Simplex, a: nat): (r: Simplex)
    requires a < |s|
    ensures |r| == |s| - 1
  {
    s[..a] + s[a + 1..]
  }

  lemma DeleteIndex(s: Simplex, a: nat)
    requires a < |s|
    ensures forall k :: 0 <= k < |s| - 1 ==> Delete(s, a)[k] == if k < a then s[k] else s[k + 1]
  {
    var r := Delete(s, a);
    assert r == s[..a] + s[a + 1..];
    forall k | 0 <= k < |s| - 1 ensures r[k] == if k < a then s[k] else s[k + 1] {
    }
  }

  /** `-1 if a % 2 == 1 else 1`, that is (-1)^a. */
  function Sign(a: nat): int
  {
    if a % 2 == 1 then -1 else 1
  }

  lemma SignAlternates(a: nat)
    ensures Sign(a) * Sign(a) == 1
    ensures Sign(a) + Sign(a + 1) == 0
  {
  }

  /** The boundary entry of column simplex s at row simplex t after the
      writes for positions 0 .. k - 1: the last position a < k whose
      deletion gives t decides the sign, and no such position leaves 0. */
  function Coefficient(s: Simplex, t: Simplex, k: nat): int
    requires k <= |s|
  {
    if k == 0 then 0
    else if Delete(s, k - 1) == t then Sign(k - 1)
    else Coefficient(s, t, k - 1)
  }

  /** The entry of the boundary matrix at row t, column s. */
  function Coef(s: Simplex, t: Simplex): int
  {
    Coefficient(s, t, |s|)
  }

  /** t is a facet of s: s with one vertex deleted. */
  predicate IsFacet(t: Simplex, s: Simplex)
  {
    exists a :: 0 <= a < |s| && Delete(s, a) == t
  }

  predicate IsSimplex(s: Simplex)
  {
    |s| >= 1 && StrictlySorted(s)
  }

  /** A closed complex: no simplex twice, every simplex a non-empty
      strictly increasing tuple, and every facet of a simplex with at
      least two vertices present. */
  ghost predicate Closed(S: Complex)
  {
    && NoDup(S)
    && (forall k :: 0 <= k < |S| ==> IsSimplex(S[k]))
    && (forall k, a :: 0 <= k < |S| && 0 <= a < |S[k]| && |S[k]| >= 2 ==> Delete(S[k], a) in S)
  }

  lemma DeleteStrictlySorted(s: Simplex, a: nat)
    requires a < |s| && StrictlySorted(s)
    ensures StrictlySorted(Delete(s, a))
  {
    DeleteIndex(s, a);
  }

  lemma {:induction false} DeleteSubseq(s: Simplex, a: nat)
    requires a < |s|
    ensures IsSubseq(Delete(s, a), s)
    decreases |s|
  {
    if a == 0 {
      assert Delete(s, a) == s[1..];
      SubseqSelf(s[1..]);
      assert s[1..] == [] || !(s[1..][0] == s[0] && IsSubseq(s[1..][1..], s[1..])) || IsSubseq(s[1..], s);
    } else {
      DeleteSubseq(s[1..], a - 1);
      assert Delete(s, a) == [s[0]] + Delete(s[1..], a - 1);
      assert Delete(s, a)[1..] == Delete(s[1..], a - 1);
    }
  }

  /** Deleting different positions of a strictly increasing tuple gives
      different faces. */
  lemma DeleteInjective(s: Simplex, a: nat, b: nat)
    requires a < b < |s| && StrictlySorted(s)
    ensures Delete(s, a) != Delete(s, b)
  {
    DeleteIndex(s, a);
    DeleteIndex(s, b);
    assert Delete(s, a)[a] == s[a + 1] && Delete(s, b)[a] == s[a];
  }

  lemma {:induction false} CoefficientZero(s: Simplex, t: Simplex, k: nat)
    requires k <= |s|
    requires forall a :: 0 <= a < k ==> Delete(s, a) != t
    ensures Coefficient(s, t, k) == 0
  {
    if k > 0 { CoefficientZero(s, t, k - 1); }
  }

  lemma {:induction false} CoefficientAt(s: Simplex, a: nat, k: nat)
    requires a < k <= |s| && StrictlySorted(s)
    ensures Coefficient(s, Delete(s, a), k) == Sign(a)
  {
    if k - 1 != a {
      DeleteInjective(s, a, k - 1);
      CoefficientAt(s, a, k - 1);
    }
  }

  /** The boundary entry of s at its face opposite position a is (-1)^a. */
  lemma CoefAt(s: Simplex, a: nat)
    requires a < |s| && StrictlySorted(s)
    ensures Coef(s, Delete(s, a)) == Sign(a)
  {
    CoefficientAt(s, a, |s|);
  }

  /** The boundary entry of s at a tuple that is not a facet of s is 0. */
  lemma CoefNotFacet(s: Simplex, t: Simplex)
    requires !IsFacet(t, s)
    ensures Coef(s, t) == 0
  {
    CoefficientZero(s, t, |s|);
  }

  /** On a strictly increasing tuple the entry is (-1)^a at the facet
      opposite position a and 0 everywhere else; its square tells whether
      t is a facet. */
  lemma CoefSquare(s: Simplex, t: Simplex)
    requires StrictlySorted(s)
    ensures Coef(s, t) * Coef(s, t) == if IsFacet(t, s) then 1 else 0
  {
    if IsFacet(t, s) {
      var a :| 0 <= a < |s| && Delete(s, a) == t;
      CoefAt(s, a);
    } else {
      CoefNotFacet(s, t);
    }
  }

  /** The faces of s, in the order of the deleted position. */
  function Facets(s: Simplex): (r: Complex)
    ensures |r| == |s|
    ensures forall a :: 0 <= a < |s| ==> r[a] == Delete(s, a)
  {
    seq(|s|, a requires 0 <= a < |s| => Delete(s, a))
  }

  /** A tuple outside the list of facets is no facet. */
  lemma NotAmongFacets(s: Simplex, t: Simplex)
    requires t !in Facets(s)
    ensures !IsFacet(t, s)
  {
    forall a | 0 <= a < |s| ensures Delete(s, a) != t {
      assert Facets(s)[a] == Delete(s, a);
    }
  }

  lemma FacetsNoDup(s: Simplex)
    requires StrictlySorted(s)
    ensures NoDup(Facets(s))
  {
    forall a, b | 0 <= a < b < |s| ensures Facets(s)[a] != Facets(s)[b] {
      DeleteInjective(s, a, b);
    }
  }

  /** In a closed complex the facets of an i-simplex (i >= 1) are among
      its (i - 1)-simplices. */
  lemma FacetsPresent(S: Complex, k: nat)
    requires Closed(S) && k < |S| && |S[k]| >= 2
    ensures forall t :: t in Facets(S[k]) ==> t in NFaces(S, |S[k]| - 2)
  {
    forall t | t in Facets(S[k]) ensures t in NFaces(S, |S[k]| - 2) {
      var a :| 0 <= a < |S[k]| && Facets(S[k])[a] == t;
      assert Delete(S[k], a) in S;
    }
  }

  /** Deleting a then b (b >= a) removes the positions a and b + 1. */
  lemma DeleteTwice(c: Simplex, a: nat, b: nat)
    requires a <= b && b + 1 < |c|
    ensures Delete(Delete(c, a), b) == Delete(Delete(c, b + 1), a)
  {
    DeleteIndex(c, a);
    DeleteIndex(c, b + 1);
    DeleteIndex(Delete(c, a), b);
    DeleteIndex(Delete(c, b + 1), a);
  }

  lemma MultisetDelete(s: Simplex, a: nat)
    requires a < |s|
    ensures multiset(Delete(s, a)) == multiset(s) - multiset{s[a]}
  {
    assert s == s[..a] + [s[a]] + s[a + 1..];
  }

  /** The face of c without its vertices at positions x < y. */
  function DoubleDelete(c: Simplex, x: nat, y: nat): Simplex
    requires x < y < |c|
  {
    Delete(Delete(c, y), x)
  }

  lemma MultisetDoubleDelete(c: Simplex, x: nat, y: nat)
    requires x < y < |c|
    ensures multiset(DoubleDelete(c, x, y)) == multiset(c) - multiset{c[x], c[y]}
  {
    MultisetDelete(c, y);
    MultisetDelete(Delete(c, y), x);
  }

  lemma MultisetCancel(m: multiset<int>, p: multiset<int>, q: multiset<int>)
    requires p <= m && q <= m && m - p == m - q
    ensures p == q
  {
    assert p == m - (m - p) && q == m - (m - q);
  }

  /** Two pairs of positions of a strictly increasing tuple that hold the
      same two values are the same pair. */
  lemma PairPositions(c: Simplex, x: nat, y: nat, x': nat, y': nat)
    requires StrictlySorted(c) && x < y < |c| && x' < y' < |c|
    requires multiset{c[x], c[y]} == multiset{c[x'], c[y']}
    ensures x == x' && y == y'
  {
    assert c[x] in multiset{c[x'], c[y']} && c[y] in multiset{c[x'], c[y']};
  }

  /** A codimension-2 face of a strictly increasing tuple determines the
      two deleted positions. */
  lemma DoubleDeleteUnique(c: Simplex, x: nat, y: nat, x': nat, y': nat)
    requires StrictlySorted(c) && x < y < |c| && x' < y' < |c|
    ensures DoubleDelete(c, x, y) == DoubleDelete(c, x', y') ==> x == x' && y == y'
  {
    if DoubleDelete(c, x, y) == DoubleDelete(c, x', y') {
      MultisetDoubleDelete(c, x, y);
      MultisetDoubleDelete(c, x', y');
      var m := multiset(c);
      assert c[x] in m && c[y] in m && c[x'] in m && c[y'] in m;
      assert multiset{c[x], c[y]} <= m && multiset{c[x'], c[y']} <= m;
      MultisetCancel(m, multiset{c[x], c[y]}, multiset{c[x'], c[y']});
      PairPositions(c, x, y, x', y');
    }
  }

  /** Any two successive deletions from c remove two positions x < y. */
  lemma DeleteTwiceCanonical(c: Simplex, a: nat, b: nat) returns (x: nat, y: nat)
    requires a < |c| && b < |c| - 1
    ensures x < y < |c| && (x == a || y == a)
    ensures Delete(Delete(c, a), b) == DoubleDelete(c, x, y)
  {
    if b < a {
      x, y := b, a;
    } else {
      DeleteTwice(c, a, b);
      x, y := a, b + 1;
    }
  }

  /** The codimension-2 face without positions x < y lies on exactly the
      two facets Delete(c, x) and Delete(c, y), at signs (-1)^(y-1) and
      (-1)^x ... */
  lemma DoubleDeleteOnFirstFacet(c: Simplex, x: nat, y: nat)
    requires StrictlySorted(c) && x < y < |c|
    ensures Coef(Delete(c, x), DoubleDelete(c, x, y)) == Sign(y - 1)
  {
    DeleteTwice(c, x, y - 1);
    DeleteStrictlySorted(c, x);
    CoefAt(Delete(c, x), y - 1);
  }

  lemma DoubleDeleteOnSecondFacet(c: Simplex, x: nat, y: nat)
    requires StrictlySorted(c) && x < y < |c|
    ensures Coef(Delete(c, y), DoubleDelete(c, x, y)) == Sign(x)
  {
    DeleteStrictlySorted(c, y);
    CoefAt(Delete(c, y), x);
  }

  /** ... and on no other facet of c. */
  lemma DoubleDeleteOffFacets(c: Simplex, x: nat, y: nat, a: nat)
    requires StrictlySorted(c) && x < y < |c| && a < |c| && a != x && a != y
    ensures Coef(Delete(c, a), DoubleDelete(c, x, y)) == 0
  {
    forall b | 0 <= b < |c| - 1 ensures Delete(Delete(c, a), b) != DoubleDelete(c, x, y) {
      var x', y' := DeleteTwiceCanonical(c, a, b);
      DoubleDeleteUnique(c, x, y, x', y');
    }
    CoefNotFacet(Delete(c, a), DoubleDelete(c, x, y));
  }

  /** The signed sum, over the facets Delete(c, a) of c, of (-1)^a times
      the entry of Delete(c, a) at r. */
  function FacetSum(c: Simplex, r: Simplex): int
  {
    Sum(|c|, (a: nat) => if a < |c| then Sign(a) * Coef(Delete(c, a), r) else 0)
  }

  /** The signed facet sum at a codimension-2 face: its two terms cancel. */
  lemma FacetSumAtDoubleDelete(c: Simplex, x: nat, y: nat)
    requires StrictlySorted(c) && x < y < |c|
    ensures FacetSum(c, DoubleDelete(c, x, y)) == 0
  {
    var r := DoubleDelete(c, x, y);
    var h := (a: nat) => if a < |c| then Sign(a) * Coef(Delete(c, a), r) else 0;
    DoubleDeleteOnFirstFacet(c, x, y);
    DoubleDeleteOnSecondFacet(c, x, y);
    var sx, sy := Sign(x), Sign(y - 1);
    assert Sign(y) == -sy by { SignAlternates(y - 1); }
    assert h(x) == sx * sy && h(y) == -sy * sx;
    forall a: nat | a < |c| && a != x && a != y ensures h(a) == 0 {
      DoubleDeleteOffFacets(c, x, y, a);
    }
    SumTwoPoints(|c|, h, x, y);
  }

  /** The signed facet sum at a tuple that is no codimension-2 face: every
      term is 0. */
  lemma FacetSumElsewhere(c: Simplex, r: Simplex)
    requires forall x, y :: 0 <= x < y < |c| ==> DoubleDelete(c, x, y) != r
    ensures FacetSum(c, r) == 0
  {
    var h := (a: nat) => if a < |c| then Sign(a) * Coef(Delete(c, a), r) else 0;
    forall a: nat | a < |c| ensures h(a) == 0 {
      forall b | 0 <= b < |c| - 1 ensures Delete(Delete(c, a), b) != r {
        var x, y := DeleteTwiceCanonical(c, a, b);
      }
      CoefNotFacet(Delete(c, a), r);
    }
    SumZero(|c|, h);
  }

  /** The heart of "the boundary of a boundary is zero": the signed facet
      sum always vanishes, because a codimension-2 face is reached through
      exactly two facets, with opposite signs. */
  lemma FacetCancellation(c: Simplex, r: Simplex)
    requires StrictlySorted(c)
    ensures FacetSum(c, r) == 0
  {
    if exists x, y :: 0 <= x < y < |c| && DoubleDelete(c, x, y) == r {
      var x, y :| 0 <= x < y < |c| && DoubleDelete(c, x, y) == r;
      FacetSumAtDoubleDelete(c, x, y);
    } else {
      FacetSumElsewhere(c, r);
    }
  }
}
