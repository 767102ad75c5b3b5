/** The Hodge Laplacians stored by the point-cloud engine
    (frc.py:113-120): L_0 = B_1 B_1ᵀ and, for i >= 1,
    L_i = B_(i+1) B_(i+1)ᵀ + B_iᵀ B_i. */
module Laplacian {
  import opened Sums
  import opened Sorting
  import opened Results
  import opened Simplices
  import opened Matrices
  import opened Boundary

  /** `laplacian[i]`. For i >= 1 with no i-simplices the two summands have
      shapes 1 x 1 and 0 x 0, which numpy broadcasts to the empty matrix. */
  function LaplacianAt(S: Complex, i: nat): (L: Matrix)
  {
    if i == 0 then Gram(BoundaryMatrix(S, 1), |NFaces(S, 1)|)
    else Combine(BoundaryMatrix(S, i + 1), BoundaryMatrix(S, i), |NFaces(S, i)|, |NFaces(S, i + 1)|)
  }

  /** `b1_ + b2_` for b1 = B_(i+1) (n1 columns) and b2 = B_i (n columns):
      the upper part b1 b1ᵀ plus the lower part b2ᵀ b2. */
  function Combine(b1: Matrix, b2: Matrix, n: nat, n1: nat): Matrix
    requires HasShape(b1, |b1|, n1) && HasShape(b2, |b2|, n) && (n > 0 ==> |b1| == n)
  {
    if n == 0 then [] else Add(Gram(b1, n1), CoGram(b2, n), n, n)
  }

  /** The side of `laplacian[i]`. */
  function Side(S: Complex, i: nat): nat
  {
    if i == 0 then Rows(S, 1) else |NFaces(S, i)|
  }

  /** Every Laplacian is square, with one row and column per i-simplex
      (for i >= 1), and symmetric. */
  lemma LaplacianSymmetric(S: Complex, i: nat)
    ensures Symmetric(LaplacianAt(S, i), Side(S, i))
  {
    if i == 0 {
      GramSymmetric(BoundaryMatrix(S, 1), |NFaces(S, 1)|);
    } else if |NFaces(S, i)| > 0 {
      var n := |NFaces(S, i)|;
      GramSymmetric(BoundaryMatrix(S, i + 1), |NFaces(S, i + 1)|);
      CoGramSymmetric(BoundaryMatrix(S, i), n);
      AddSymmetric(Gram(BoundaryMatrix(S, i + 1), |NFaces(S, i + 1)|), CoGram(BoundaryMatrix(S, i), n), n);
    }
  }

  /** The number of (i + 1)-simplices having the i-simplex
      NFaces(S, i)[m] as a facet. */
  function CofaceCount(S: Complex, i: int, m: nat): nat
    requires m < |NFaces(S, i)|
  {
    var up := NFaces(S, i + 1);
    Count(|up|, (c: nat) => c < |up| && IsFacet(NFaces(S, i)[m], up[c]))
  }

  /** The number of edges of S that contain the vertex v. */
  function Degree(S: Complex, v: int): nat
  {
    var E := NFaces(S, 1);
    Count(|E|, (c: nat) => c < |E| && v in E[c])
  }

  /** Row m of B_(i+1) squared sums to the number of cofaces of the
      i-simplex m. */
  lemma RowSquares(S: Complex, i: int, m: nat)
    requires Closed(S) && m < |NFaces(S, i)|
    ensures m < |BoundaryMatrix(S, i + 1)|
    ensures Dot(BoundaryMatrix(S, i + 1)[m], BoundaryMatrix(S, i + 1)[m]) == CofaceCount(S, i, m)
  {
    var B := BoundaryMatrix(S, i + 1);
    var up := NFaces(S, i + 1);
    var row := B[m];
    forall c: nat | c < |up|
      ensures (if c < |row| then row[c] * row[c] else 0) == if c < |up| && IsFacet(NFaces(S, i)[m], up[c]) then 1 else 0
    {
      var k := SourceInComplex(S, i + 1, c);
      BoundaryEntry(S, i + 1, m, c);
      CoefSquare(up[c], NFaces(S, i)[m]);
    }
    CountAsSum(|up|, (c: nat) => c < |up| && IsFacet(NFaces(S, i)[m], up[c]), (c: nat) => if c < |row| then row[c] * row[c] else 0);
  }

  /** Diagonal of L_i for i >= 1: the cofaces of the i-simplex plus its
      i + 1 facets. */
  lemma LaplacianDiagonal(S: Complex, i: nat, m: nat)
    requires Closed(S) && i >= 1 && m < |NFaces(S, i)|
    ensures HasShape(LaplacianAt(S, i), |NFaces(S, i)|, |NFaces(S, i)|)
    ensures LaplacianAt(S, i)[m][m] == CofaceCount(S, i, m) + (i + 1)
  {
    RowSquares(S, i, m);
    ColumnSquares(S, i, m);
  }

  /** An edge [a, b] has the vertex [v] as a facet exactly when v is one
      of its ends. */
  lemma VertexOfEdge(v: int, e: Simplex)
    requires |e| == 2
    ensures IsFacet([v], e) <==> v in e
  {
    assert Delete(e, 0) == [e[1]] && Delete(e, 1) == [e[0]];
  }

  /** The cofaces of the vertex [v] are the edges that contain v. */
  lemma CofacesOfVertex(S: Complex, m: nat, v: int)
    requires m < |NFaces(S, 0)| && NFaces(S, 0)[m] == [v]
    ensures CofaceCount(S, 0, m) == Degree(S, v)
  {
    var E := NFaces(S, 1);
    forall c: nat | c < |E| ensures (c < |E| && IsFacet([v], E[c])) == (c < |E| && v in E[c]) {
      assert E[c] in E;
      VertexOfEdge(v, E[c]);
    }
    CountExt(|E|, (c: nat) => c < |E| && IsFacet([v], E[c]), (c: nat) => c < |E| && v in E[c]);
  }

  /** Diagonal of L_0: the degree of the vertex. */
  lemma VertexLaplacianDiagonal(S: Complex, m: nat)
    requires Closed(S) && m < |NFaces(S, 0)|
    ensures |NFaces(S, 0)[m]| == 1
    ensures HasShape(LaplacianAt(S, 0), |NFaces(S, 0)|, |NFaces(S, 0)|)
    ensures LaplacianAt(S, 0)[m][m] == Degree(S, NFaces(S, 0)[m][0])
  {
    assert NFaces(S, 0)[m] in NFaces(S, 0);
    VertexDiagonalCofaces(S, m);
    CofacesOfVertex(S, m, NFaces(S, 0)[m][0]);
  }

  /** The diagonal of L_0 counts the cofaces of the vertex. */
  lemma VertexDiagonalCofaces(S: Complex, m: nat)
    requires Closed(S) && m < |NFaces(S, 0)|
    ensures HasShape(LaplacianAt(S, 0), |NFaces(S, 0)|, |NFaces(S, 0)|)
    ensures LaplacianAt(S, 0)[m][m] == CofaceCount(S, 0, m)
  {
    RowSquares(S, 0, m);
  }

  /** None of B_1 .. B_n misses a face. */
  predicate FacesPresentUpTo(S: Complex, n: nat)
  {
    n == 0 || (FacesPresentUpTo(S, n - 1) && !FacesMissing(S, n))
  }

  /** FacesPresentUpTo(S, n) states !FacesMissing(S, i) for each i in 1 .. n. */
  lemma {:induction false} FacesPresentUpToMeaning(S: Complex, n: nat)
    ensures FacesPresentUpTo(S, n) <==> forall i :: 1 <= i <= n ==> !FacesMissing(S, i)
  {
    if n > 0 { FacesPresentUpToMeaning(S, n - 1); }
  }

  /** One pass of the Laplacian loop: `b1 = B_(i+1)`, `b2 = B_i`,
      `b1 b1ᵀ + b2ᵀ b2`. B_i is already known to be complete; the pass
      fails exactly when B_(i+1) misses a face. */
  method LaplacianStep(S: Complex, i: nat) returns (res: Result<Matrix>)
    requires NoDup(S) && i >= 1 && !FacesMissing(S, i)
    ensures res.Ok? <==> !FacesMissing(S, i + 1)
    ensures res.Ok? ==> res.value == LaplacianAt(S, i)
  {
    var r1 := BoundaryOperator(S, i + 1);
    if r1.Err? {
      return Err(r1.error);
    }
    var r2 := BoundaryOperator(S, i);
    assert r2.Ok?;
    return Ok(Combine(r1.value, r2.value, |NFaces(S, i)|, |NFaces(S, i + 1)|));
  }

  /** The list `[L_0, ..., L_(n-1)]`. */
  function Laplacians(S: Complex, n: nat): (L: seq<Matrix>)
    ensures |L| == n
  {
    Tabulate(n, (k: nat) => LaplacianAt(S, k))
  }

  /** Position i of the list holds L_i. */
  lemma LaplaciansAt(S: Complex, n: nat, i: nat)
    requires i < n
    ensures Laplacians(S, n)[i] == LaplacianAt(S, i)
  {
    TabulateAt(n, (k: nat) => LaplacianAt(S, k), i);
  }

  /** The Laplacian loop of the engine's constructor: L_0 from B_1, then
      L_i for i = 1 .. p + 1 from B_(i+1) and B_i. It fails exactly when
      one of B_1 .. B_(p+2) misses a face, and otherwise yields
      LaplacianAt(S, i) for every i <= p + 1. */
  method ComputeLaplacians(S: Complex, p: nat) returns (res: Result<seq<Matrix>>)
    requires NoDup(S)
    ensures res.Ok? <==> FacesPresentUpTo(S, p + 2)
    ensures res.Ok? ==> res.value == Laplacians(S, p + 2)
  {
    var b := BoundaryOperator(S, 1);
    if b.Err? {
      FacesPresentUpToMeaning(S, p + 2);
      return Err(b.error);
    }
    var laplacian := [Gram(b.value, |NFaces(S, 1)|)];
    assert laplacian == Laplacians(S, 1);
    for i := 1 to p + 2
      invariant laplacian == Laplacians(S, i)
      invariant FacesPresentUpTo(S, i)
    {
      var step := LaplacianStep(S, i);
      if step.Err? {
        FacesPresentUpToMeaning(S, p + 2);
        return Err(step.error);
      }
      laplacian := laplacian + [step.value];
    }
    return Ok(laplacian);
  }

  /** In a closed complex the loop always succeeds. */
  lemma ClosedLaplaciansSucceed(S: Complex, p: nat)
    requires Closed(S)
    ensures FacesPresentUpTo(S, p + 2)
  {
    forall i | 1 <= i <= p + 2 ensures !FacesMissing(S, i) {
      ClosedNoMissing(S, i);
    }
    FacesPresentUpToMeaning(S, p + 2);
  }
}
