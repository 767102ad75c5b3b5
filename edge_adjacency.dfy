/** Edges of a complex and how they meet: the combinatorics behind the
    graph case of both curvature formulas, where the entries of B_1ᵀ B_1
    off the diagonal mark the pairs of edges with a common end. */
module EdgeAdjacency {
  import opened Sums
  import opened Sorting
  import opened Simplices
  import opened Matrices
  import opened Boundary
  import opened Laplacian

  /** An edge: two vertices in increasing order. */
  predicate IsEdge(e: Simplex)
  {
    |e| == 2 && e[0] < e[1]
  }

  /** Two different edges with a common end. */
  predicate Adjacent(e: Simplex, f: Simplex)
  {
    |e| == 2 && e != f && (e[0] in f || e[1] in f)
  }

  /** The boundary coefficient of the edge f at the vertex x: +1 at its
      last end, -1 at its first end, 0 elsewhere. */
  function EndSign(f: Simplex, x: int): int
    requires |f| == 2
  {
    (if x == f[1] then 1 else 0) - (if x == f[0] then 1 else 0)
  }

  lemma EdgeCoef(f: Simplex, x: int)
    requires IsEdge(f)
    ensures Coef(f, [x]) == EndSign(f, x)
  {
    assert Delete(f, 0) == [f[1]] && Delete(f, 1) == [f[0]];
    assert Coef(f, [x]) == if [f[0]] == [x] then -1 else Coefficient(f, [x], 1);
  }

  /** Two edges with both ends in common are the same edge. */
  lemma SharedEnds(e: Simplex, f: Simplex)
    requires IsEdge(e) && IsEdge(f)
    ensures e[0] in f && e[1] in f ==> e == f
  {
    if e[0] in f && e[1] in f {
      assert e[0] == f[0] && e[1] == f[1];
    }
  }

  /** The value of entry (e, f) of B_1ᵀ B_1 read off the ends of e: 2 on
      the diagonal, and off it -1, 0 or +1, nonzero exactly when the
      edges meet. */
  lemma OverlapValue(e: Simplex, f: Simplex)
    requires IsEdge(e) && IsEdge(f)
    ensures e == f ==> EndSign(f, e[1]) - EndSign(f, e[0]) == 2
    ensures e != f ==> -1 <= EndSign(f, e[1]) - EndSign(f, e[0]) <= 1
    ensures e != f ==> (EndSign(f, e[1]) - EndSign(f, e[0]) != 0 <==> Adjacent(e, f))
  {
    SharedEnds(e, f);
  }

  /** The terms of entry (e, f) of B_1ᵀ B_1, one per vertex x. */
  function Overlap(e: Simplex, f: Simplex): Simplex -> int
  {
    (x: Simplex) => Coef(e, x) * Coef(f, x)
  }

  /** Entry (m, k) of B_1ᵀ B_1 as a sum over the vertices. */
  lemma OverlapOverVertices(S: Complex, m: nat, k: nat)
    requires Closed(S) && m < |NFaces(S, 1)| && k < |NFaces(S, 1)|
    ensures ColumnDot(BoundaryMatrix(S, 1), |NFaces(S, 1)|, m, k) ==
      SumOver(NFaces(S, 0), Overlap(NFaces(S, 1)[m], NFaces(S, 1)[k]))
  {
    LowerFacesExist(S, 1);
    var B, E := BoundaryMatrix(S, 1), NFaces(S, 1);
    SumOverAsSum(NFaces(S, 0), Overlap(E[m], E[k]), (r: nat) => if r < |B| then B[r][m] * B[r][k] else 0);
  }

  /** Only the facets of the edge E[m] contribute. */
  lemma OverlapSupport(S: Complex, m: nat, k: nat)
    requires Closed(S) && m < |NFaces(S, 1)| && k < |NFaces(S, 1)|
    ensures var e, f := NFaces(S, 1)[m], NFaces(S, 1)[k];
      SumOver(NFaces(S, 0), Overlap(e, f)) == SumOver(Facets(e), Overlap(e, f))
  {
    var e, f := NFaces(S, 1)[m], NFaces(S, 1)[k];
    var ke := SourceInComplex(S, 1, m);
    var g := Overlap(e, f);
    FacetsNoDup(e);
    NFacesNoDup(S, 0);
    FacetsPresent(S, ke);
    forall x | x in NFaces(S, 0) && x !in Facets(e) ensures g(x) == 0 {
      NotAmongFacets(e, x);
      CoefNotFacet(e, x);
    }
    SumOverSupport(NFaces(S, 0), Facets(e), g);
  }

  /** The facets of an edge are its two ends, with signs +1 at the last
      and -1 at the first. */
  lemma OverlapAtEnds(e: Simplex, f: Simplex)
    requires IsEdge(e) && IsEdge(f)
    ensures SumOver(Facets(e), Overlap(e, f)) == EndSign(f, e[1]) - EndSign(f, e[0])
  {
    assert Facets(e) == [[e[1]], [e[0]]] by {
      assert Delete(e, 0) == [e[1]] && Delete(e, 1) == [e[0]];
    }
    SumOverPair([e[1]], [e[0]], Overlap(e, f));
    EdgeCoef(e, e[1]);
    EdgeCoef(e, e[0]);
    EdgeCoef(f, e[1]);
    EdgeCoef(f, e[0]);
  }

  /** Entry (m, k) of B_1ᵀ B_1 on a closed complex: 2 on the diagonal;
      off it -1, 0 or +1, and nonzero exactly when the edges m and k
      meet. */
  lemma EdgeColumnDot(S: Complex, m: nat, k: nat)
    requires Closed(S) && m < |NFaces(S, 1)| && k < |NFaces(S, 1)|
    ensures var E := NFaces(S, 1);
      var d := ColumnDot(BoundaryMatrix(S, 1), |E|, m, k);
      && (m == k ==> d == 2)
      && (m != k ==> -1 <= d <= 1 && (d != 0 <==> Adjacent(E[m], E[k])))
  {
    var E := NFaces(S, 1);
    OverlapOverVertices(S, m, k);
    OverlapSupport(S, m, k);
    var km := SourceInComplex(S, 1, m);
    var kk := SourceInComplex(S, 1, k);
    OverlapAtEnds(E[m], E[k]);
    OverlapValue(E[m], E[k]);
    NFacesNoDup(S, 1);
  }

  /** Counting the edges that meet E[m] == [u, v] among the first n by
      the end they share: none shares both ends, and E[m] itself has
      both. */
  lemma {:induction false} AdjacentCountPrefix(E: seq<Simplex>, m: nat, u: int, v: int, n: nat)
    requires NoDup(E) && (forall k :: 0 <= k < |E| ==> IsEdge(E[k]))
    requires m < |E| && E[m] == [u, v] && n <= |E|
    ensures Count(n, (k: nat) => k < |E| && k != m && Adjacent(E[m], E[k])) + (if m < n then 2 else 0)
         == Count(n, (k: nat) => k < |E| && u in E[k]) + Count(n, (k: nat) => k < |E| && v in E[k])
  {
    if n > 0 {
      AdjacentCountPrefix(E, m, u, v, n - 1);
      SharedEnds(E[m], E[n - 1]);
    }
  }

  /** In a closed complex the edges meeting the edge [u, v] number
      deg u + deg v - 2. */
  lemma AdjacentEdges(S: Complex, m: nat)
    requires Closed(S) && m < |NFaces(S, 1)|
    ensures |NFaces(S, 1)[m]| == 2
    ensures var E := NFaces(S, 1);
      Count(|E|, (k: nat) => k < |E| && k != m && Adjacent(E[m], E[k])) + 2
        == Degree(S, E[m][0]) + Degree(S, E[m][1])
  {
    var E := NFaces(S, 1);
    NFacesNoDup(S, 1);
    forall k | 0 <= k < |E| ensures IsEdge(E[k]) {
      var j := SourceInComplex(S, 1, k);
    }
    assert E[m] == [E[m][0], E[m][1]];
    AdjacentCountPrefix(E, m, E[m][0], E[m][1], |E|);
  }

  /** Without triangles L_1 is B_1ᵀ B_1: the upper part has no columns. */
  lemma EdgeLaplacianEntry(S: Complex, m: nat, k: nat)
    requires Closed(S) && |NFaces(S, 2)| == 0 && m < |NFaces(S, 1)| && k < |NFaces(S, 1)|
    ensures HasShape(LaplacianAt(S, 1), |NFaces(S, 1)|, |NFaces(S, 1)|)
    ensures LaplacianAt(S, 1)[m][k] == ColumnDot(BoundaryMatrix(S, 1), |NFaces(S, 1)|, m, k)
  {
    var b1 := BoundaryMatrix(S, 2);
    LaplacianSymmetric(S, 1);
    assert Gram(b1, 0)[m][k] == 0 by {
      assert Dot(b1[m], b1[k]) == 0;
    }
  }
}
