/** The curvature formula of the graph-based engine
    (GeneralisedFormanRicci.py:94-115): the list `bop_data` of boundary
    operators, and for an (l - 1)-simplex the count of its cofaces plus
    its l facets minus the number of simplices that are upper or lower
    neighbours of it but not both. */
module GraphForman {
  import opened Sums
  import opened Results
  import opened Simplices
  import opened Matrices
  import opened Boundary
  import opened Laplacian
  import opened EdgeAdjacency
  import FormanDictionary

  /** `bop_data` once its loop has run n times: B_1, ..., B_n. */
  function BopData(S: Complex, n: nat): (bops: seq<Matrix>)
    ensures |bops| == n
  {
    Tabulate(n, Operator(S))
  }

  /** k maps to B_(k+1). */
  function Operator(S: Complex): nat -> Matrix
  {
    (k: nat) => BoundaryMatrix(S, k + 1)
  }

  /** Position k of `bop_data` holds B_(k+1). */
  lemma BopDataAt(S: Complex, n: nat, k: nat)
    requires k < n
    ensures BopData(S, n)[k] == BoundaryMatrix(S, k + 1)
  {
    TabulateAt(n, Operator(S), k);
  }

  /** The loop `for i in range(1, p + 1)` after p is raised to at least 1:
      it appends `boundary_operator(S, i)` for i = 1 .. p, and fails with
      the first operator that misses a face. */
  method BoundaryOperators(S: Complex, p: int) returns (res: Result<seq<Matrix>>)
    requires NoDup(S)
    ensures res.Ok? <==> FacesPresentUpTo(S, FormanDictionary.Bound(p))
    ensures res.Ok? ==> res.value == BopData(S, FormanDictionary.Bound(p))
  {
    var q := p;
    if q < 1 {
      q := 1;
    }
    assert q == FormanDictionary.Bound(p);
    res := Operators(S, q);
  }

  /** `bop_data` built for i = 1 .. n, or the first operator's failure. */
  method Operators(S: Complex, n: nat) returns (res: Result<seq<Matrix>>)
    requires NoDup(S)
    ensures res.Ok? <==> FacesPresentUpTo(S, n)
    ensures res.Ok? ==> res.value == BopData(S, n)
  {
    var bops: seq<Matrix> := [];
    for i := 1 to n + 1
      invariant bops == BopData(S, i - 1)
      invariant FacesPresentUpTo(S, i - 1)
    {
      var b := BoundaryOperator(S, i);
      if b.Err? {
        MissingStops(S, i, n);
        return Err(b.error);
      }
      BopDataStep(S, i, b.value);
      bops := bops + [b.value];
    }
    return Ok(bops);
  }

  /** A missing face in B_i, for i <= q, means B_1 .. B_q are not all
      complete. */
  lemma MissingStops(S: Complex, i: nat, q: nat)
    requires 1 <= i <= q && FacesMissing(S, i)
    ensures !FacesPresentUpTo(S, q)
  {
    FacesPresentUpToMeaning(S, q);
  }

  lemma BopDataStep(S: Complex, i: nat, b: Matrix)
    requires i >= 1 && b == BoundaryMatrix(S, i)
    ensures BopData(S, i - 1) + [b] == BopData(S, i)
  {
  }

  /** `sum(row != 0)`. */
  function NonZeros(row: seq<int>): nat
  {
    Count(|row|, (k: nat) => k < |row| && row[k] != 0)
  }

  /** `sum(np.logical_xor(p1, p2))`: the positions where exactly one of
      the two rows is nonzero. */
  function XorCount(p1: seq<int>, p2: seq<int>): nat
    requires |p1| == |p2|
  {
    Count(|p1|, (k: nat) => k < |p1| && ((p1[k] != 0) != (p2[k] != 0)))
  }

  /** The upper matrix `b1_`: b1 b1ᵀ with its diagonal removed. */
  function Upper(b1: Matrix, n: nat, n1: nat): (U: Matrix)
    requires HasShape(b1, n, n1)
    ensures HasShape(U, n, n)
  {
    OffDiagonal(Gram(b1, n1), n)
  }

  /** The lower matrix `b2_`: b2ᵀ b2 with its diagonal removed. */
  function Lower(b2: Matrix, n: nat): (D: Matrix)
    requires HasShape(b2, |b2|, n)
    ensures HasShape(D, n, n)
  {
    OffDiagonal(CoGram(b2, n), n)
  }

  /** Line 115 for the simplex at row m, with b1 = B_l (n rows, one per
      (l - 1)-simplex, and n1 columns) and b2 = B_(l-1) (n columns). */
  function XorFormula(b1: Matrix, b2: Matrix, n: nat, n1: nat, m: nat, l: nat): int
    requires HasShape(b1, n, n1) && HasShape(b2, |b2|, n) && m < n
  {
    NonZeros(b1[m]) + l - XorCount(Upper(b1, n, n1)[m], Lower(b2, n)[m])
  }

  /** Both matrices of the formula are symmetric with a zero diagonal. */
  lemma NeighbourMatrices(b1: Matrix, b2: Matrix, n: nat, n1: nat)
    requires HasShape(b1, n, n1) && HasShape(b2, |b2|, n)
    ensures Symmetric(Upper(b1, n, n1), n) && Symmetric(Lower(b2, n), n)
    ensures forall r :: 0 <= r < n ==> Upper(b1, n, n1)[r][r] == 0 && Lower(b2, n)[r][r] == 0
  {
    GramSymmetric(b1, n1);
    OffDiagonalSymmetric(Gram(b1, n1), n);
    CoGramSymmetric(b2, n);
    OffDiagonalSymmetric(CoGram(b2, n), n);
  }

  /** The formula for the i-simplex m with the operators it is meant to
      read, B_(i+1) and B_i, so with l = i + 1 vertices. */
  function XorAt(S: Complex, i: nat, m: nat): int
    requires i >= 1 && m < |NFaces(S, i)|
  {
    XorFormula(BoundaryMatrix(S, i + 1), BoundaryMatrix(S, i), |NFaces(S, i)|, |NFaces(S, i + 1)|, m, i + 1)
  }

  /** The nonzeros of row m of B_(i+1) are the cofaces of the i-simplex m. */
  lemma NonZerosCofaces(S: Complex, i: nat, m: nat)
    requires Closed(S) && m < |NFaces(S, i)|
    ensures m < |BoundaryMatrix(S, i + 1)|
    ensures NonZeros(BoundaryMatrix(S, i + 1)[m]) == CofaceCount(S, i, m)
  {
    RowSquares(S, i, m);
    var row := BoundaryMatrix(S, i + 1)[m];
    forall c | 0 <= c < |row| ensures -1 <= row[c] <= 1 {
      BoundaryEntry(S, i + 1, m, c);
      var s := NFaces(S, i + 1)[c];
      CoefficientRange(s, NFaces(S, i)[m], |s|);
    }
    NonZerosAsDot(row);
  }

  /** A row of entries in {-1, 0, 1} has as many nonzeros as its squared
      entries sum to. */
  lemma NonZerosAsDot(row: seq<int>)
    requires forall c :: 0 <= c < |row| ==> -1 <= row[c] <= 1
    ensures NonZeros(row) == Dot(row, row)
  {
    var sq := (k: nat) => if k < |row| then row[k] * row[k] else 0;
    forall k: nat | k < |row| ensures sq(k) == if k < |row| && row[k] != 0 then 1 else 0 {
      SquareIndicator(row[k]);
    }
    CountAsSum(|row|, (k: nat) => k < |row| && row[k] != 0, sq);
  }

  /** On a closed complex the curvature of the i-simplex m is at most its
      number of cofaces plus its i + 1 facets. */
  lemma XorBound(S: Complex, i: nat, m: nat)
    requires Closed(S) && i >= 1 && m < |NFaces(S, i)|
    ensures XorAt(S, i, m) <= CofaceCount(S, i, m) + i + 1
  {
    NonZerosCofaces(S, i, m);
  }

  /** An i-simplex of a complex with no (i + 1)-simplices has no upper
      neighbours, so its curvature is its i + 1 facets minus its lower
      neighbours. */
  lemma XorWithoutCofaces(S: Complex, i: nat, m: nat)
    requires i >= 1 && |NFaces(S, i + 1)| == 0 && m < |NFaces(S, i)|
    ensures var n := |NFaces(S, i)|;
      XorAt(S, i, m) == i + 1 - Count(n, (k: nat) => k < n && Lower(BoundaryMatrix(S, i), n)[m][k] != 0)
  {
    var n := |NFaces(S, i)|;
    var b1 := BoundaryMatrix(S, i + 1);
    var U, D := Upper(b1, n, 0), Lower(BoundaryMatrix(S, i), n);
    assert NonZeros(b1[m]) == 0;
    forall k: nat | k < n ensures U[m][k] == 0 {
      assert Gram(b1, 0)[m][k] == Dot(b1[m], b1[k]);
    }
    CountExt(n, (k: nat) => k < |U[m]| && ((U[m][k] != 0) != (D[m][k] != 0)), (k: nat) => k < n && D[m][k] != 0);
  }

  /** Off the diagonal, the lower matrix of the edges marks the pairs of
      edges with a common end. */
  lemma LowerEdgeEntry(S: Complex, i: nat, m: nat, k: nat)
    requires Closed(S) && i == 1 && m < |NFaces(S, i)| && k < |NFaces(S, i)|
    ensures var n := |NFaces(S, i)|;
      (Lower(BoundaryMatrix(S, i), n)[m][k] != 0) == (k != m && Adjacent(NFaces(S, i)[m], NFaces(S, i)[k]))
  {
    EdgeColumnDot(S, m, k);
  }

  /** The graph case: in a closed complex without triangles the edge
      [a, b] has curvature 4 - deg a - deg b (GeneralisedFormanRicci.py:89).
      The edge dimension i = 1 is passed as a variable. */
  lemma GraphXor(S: Complex, i: nat, m: nat)
    requires Closed(S) && i == 1 && |NFaces(S, i + 1)| == 0 && m < |NFaces(S, i)|
    ensures |NFaces(S, i)[m]| == 2
    ensures XorAt(S, i, m) + Degree(S, NFaces(S, i)[m][0]) + Degree(S, NFaces(S, i)[m][1]) == 4
  {
    var n, E := |NFaces(S, i)|, NFaces(S, i);
    var D := Lower(BoundaryMatrix(S, i), n);
    XorWithoutCofaces(S, i, m);
    forall k: nat | k < n ensures (k < n && D[m][k] != 0) == (k < |E| && k != m && Adjacent(E[m], E[k])) {
      LowerEdgeEntry(S, i, m, k);
    }
    CountExt(n, (k: nat) => k < n && D[m][k] != 0, (k: nat) => k < |E| && k != m && Adjacent(E[m], E[k]));
    AdjacentEdges(S, m);
  }
}
