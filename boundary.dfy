/** The signed boundary operator `boundary_operator(face_set, i)`
    (frc.py:51-71, repeated at GeneralisedFormanRicci.py:38-58) and the
    facts about it on a closed complex. */
module Boundary {
  import opened Sums
  import opened Sorting
  import opened Results
  import opened Simplices
  import opened Matrices

  /** The number of rows: one per (i - 1)-simplex, or the single row of
      ones when there are none. */
  function Rows(S: Complex, i: int): nat
  {
    if |NFaces(S, i - 1)| == 0 then 1 else |NFaces(S, i - 1)|
  }

  /** The dense image (`toarray()`) of `boundary_operator(S, i)`: columns
      are the i-simplices and rows the (i - 1)-simplices, both in the
      order S lists them. */
  function BoundaryMatrix(S: Complex, i: int): (B: Matrix)
    ensures HasShape(B, Rows(S, i), |NFaces(S, i)|)
  {
    var src, tgt := NFaces(S, i), NFaces(S, i - 1);
    if |tgt| == 0 then [seq(|src|, c => 1)]
    else seq(|tgt|, r requires 0 <= r < |tgt| => seq(|src|, c requires 0 <= c < |src| => Coef(src[c], tgt[r])))
  }

  /** The lookup `target_simplices_dict[target_simplex]` fails: some
      facet of an i-simplex is not among the (i - 1)-simplices. */
  predicate FacesMissing(S: Complex, i: int)
  {
    var src, tgt := NFaces(S, i), NFaces(S, i - 1);
    |tgt| > 0 && exists c, a :: 0 <= c < |src| && 0 <= a < |src[c]| && Delete(src[c], a) !in tgt
  }

  /** `.toarray()`: the rows of a two-dimensional array. */
  function ToMatrix(M: array2<int>): (B: Matrix)
    reads M
    ensures HasShape(B, M.Length0, M.Length1)
    ensures forall r, c :: 0 <= r < M.Length0 && 0 <= c < M.Length1 ==> B[r][c] == M[r, c]
  {
    seq(M.Length0, r requires 0 <= r < M.Length0 reads M =>
      seq(M.Length1, c requires 0 <= c < M.Length1 reads M => M[r, c]))
  }

  /** The inner loop of `boundary_operator` for the column j of source
      simplex src[j]: for each position a, looks up the face opposite a
      and writes (-1)^a there. It succeeds when every face is found, and
      then column j holds the boundary coefficients; no other column
      changes. */
  method WriteColumn(M: array2<int>, src: Complex, tgt: Complex, j: nat) returns (ok: bool)
    requires NoDup(src) && NoDup(tgt) && j < |src|
    requires M.Length0 == |tgt| && M.Length1 == |src|
    requires forall r :: 0 <= r < |tgt| ==> M[r, j] == 0
    modifies M
    ensures ok <==> forall a :: 0 <= a < |src[j]| ==> Delete(src[j], a) in tgt
    ensures ok ==> forall r :: 0 <= r < |tgt| ==> M[r, j] == Coef(src[j], tgt[r])
    ensures forall r, c :: 0 <= r < |tgt| && 0 <= c < |src| && c != j ==> M[r, c] == old(M[r, c])
  {
    var s := src[j];
    for a := 0 to |s|
      invariant forall a' :: 0 <= a' < a ==> Delete(s, a') in tgt
      invariant forall r :: 0 <= r < |tgt| ==> M[r, j] == Coefficient(s, tgt[r], a)
      invariant forall r, c :: 0 <= r < |tgt| && 0 <= c < |src| && c != j ==> M[r, c] == old(M[r, c])
    {
      var t := Delete(s, a);
      var row := IndexOf(tgt, t);
      if row.None? {
        return false;
      }
      var col := IndexOf(src, s);
      IndexOfNoDup(src, j);
      forall r | 0 <= r < |tgt| && r != row.value ensures tgt[r] != t {
        assert tgt[row.value] == t;
      }
      M[row.value, col.value] := Sign(a);
    }
    return true;
  }

  /** The single row of ones `S[0, 0:n] = 1` of a 1 x n matrix. */
  method OnesRow(n: nat) returns (B: Matrix)
    ensures B == [seq(n, c => 1)]
  {
    var M := new int[1, n]((r, c) => 0);
    for c := 0 to n
      invariant forall c' :: 0 <= c' < n ==> M[0, c'] == if c' < c then 1 else 0
    {
      M[0, c] := 1;
    }
    B := ToMatrix(M);
    assert B[0] == seq(n, c => 1);
  }

  /** The two loops of `boundary_operator` when there are target
      simplices: column j is written by WriteColumn, and a missing face
      stops with the lookup failure. */
  method FillColumns(src: Complex, tgt: Complex) returns (res: Result<Matrix>)
    requires NoDup(src) && NoDup(tgt)
    ensures res.Ok? <==> forall c, a :: 0 <= c < |src| && 0 <= a < |src[c]| ==> Delete(src[c], a) in tgt
    ensures res.Ok? ==> HasShape(res.value, |tgt|, |src|)
    ensures res.Ok? ==> forall r, c :: 0 <= r < |tgt| && 0 <= c < |src| ==> res.value[r][c] == Coef(src[c], tgt[r])
  {
    var M := new int[|tgt|, |src|]((r, c) => 0);
    for j := 0 to |src|
      invariant forall c, a :: 0 <= c < j && 0 <= a < |src[c]| ==> Delete(src[c], a) in tgt
      invariant forall r, c :: 0 <= r < |tgt| && 0 <= c < |src| ==>
        M[r, c] == if c < j then Coef(src[c], tgt[r]) else 0
    {
      var ok := WriteColumn(M, src, tgt, j);
      if !ok {
        return Err(KeyNotFound);
      }
    }
    return Ok(ToMatrix(M));
  }

  /** `boundary_operator(S, i)`: fills the matrix column by column, writing
      (-1)^a at the row of the face opposite position a. It fails exactly
      when a face is missing, and otherwise returns BoundaryMatrix(S, i). */
  method BoundaryOperator(S: Complex, i: int) returns (res: Result<Matrix>)
    requires NoDup(S)
    ensures res.Ok? <==> !FacesMissing(S, i)
    ensures res.Ok? ==> res.value == BoundaryMatrix(S, i)
  {
    var src := NFaces(S, i);
    var tgt := NFaces(S, i - 1);
    if |tgt| == 0 {
      var B := OnesRow(|src|);
      return Ok(B);
    }
    NFacesNoDup(S, i);
    NFacesNoDup(S, i - 1);
    res := FillColumns(src, tgt);
    if res.Ok? {
      var B := BoundaryMatrix(S, i);
      forall r | 0 <= r < |tgt| ensures res.value[r] == B[r] { }
    }
  }

  /** One entry of the boundary matrix. */
  lemma BoundaryEntry(S: Complex, i: int, r: nat, c: nat)
    requires r < Rows(S, i) && c < |NFaces(S, i)|
    ensures BoundaryMatrix(S, i)[r][c] ==
      if |NFaces(S, i - 1)| == 0 then 1 else Coef(NFaces(S, i)[c], NFaces(S, i - 1)[r])
  {
  }

  /** With no (i - 1)-simplices the operator is one row of ones. */
  lemma DegenerateOnes(S: Complex, i: int)
    requires |NFaces(S, i - 1)| == 0
    ensures HasShape(BoundaryMatrix(S, i), 1, |NFaces(S, i)|)
    ensures forall c :: 0 <= c < |NFaces(S, i)| ==> BoundaryMatrix(S, i)[0][c] == 1
  {
  }

  /** A simplex of a closed complex with i + 1 >= 2 vertices. */
  lemma SourceInComplex(S: Complex, i: int, c: nat) returns (k: nat)
    requires Closed(S) && c < |NFaces(S, i)|
    ensures k < |S| && S[k] == NFaces(S, i)[c] && |S[k]| == i + 1
    ensures StrictlySorted(S[k])
  {
    assert NFaces(S, i)[c] in NFaces(S, i);
    k :| 0 <= k < |S| && S[k] == NFaces(S, i)[c];
  }

  /** In a closed complex every face is present, for every i >= 1. */
  lemma ClosedNoMissing(S: Complex, i: int)
    requires Closed(S) && i >= 1
    ensures !FacesMissing(S, i)
  {
    var src := NFaces(S, i);
    forall c, a | 0 <= c < |src| && 0 <= a < |src[c]| ensures Delete(src[c], a) in NFaces(S, i - 1) {
      var k := SourceInComplex(S, i, c);
      assert Delete(S[k], a) in S;
    }
  }

  /** A closed complex with an i-simplex (i >= 1) has (i - 1)-simplices. */
  lemma LowerFacesExist(S: Complex, i: int)
    requires Closed(S) && i >= 1 && |NFaces(S, i)| > 0
    ensures |NFaces(S, i - 1)| > 0
  {
    var k := SourceInComplex(S, i, 0);
    assert Delete(S[k], 0) in S;
    assert Delete(S[k], 0) in NFaces(S, i - 1);
  }

  /** The sign rule on a closed complex: the entry at the face opposite
      position a is (-1)^a ... */
  lemma BoundaryAtFacet(S: Complex, i: int, c: nat, a: nat)
    requires Closed(S) && i >= 1 && c < |NFaces(S, i)| && a < |NFaces(S, i)[c]|
    ensures Delete(NFaces(S, i)[c], a) in NFaces(S, i - 1)
    ensures var r := IndexOf(NFaces(S, i - 1), Delete(NFaces(S, i)[c], a));
      r.Some? && BoundaryMatrix(S, i)[r.value][c] == Sign(a)
  {
    var k := SourceInComplex(S, i, c);
    assert Delete(S[k], a) in S;
    LowerFacesExist(S, i);
    CoefAt(S[k], a);
  }

  /** ... and every other entry of the column is 0. */
  lemma BoundaryOffFacet(S: Complex, i: int, r: nat, c: nat)
    requires Closed(S) && i >= 1 && r < |NFaces(S, i - 1)| && c < |NFaces(S, i)|
    requires !IsFacet(NFaces(S, i - 1)[r], NFaces(S, i)[c])
    ensures BoundaryMatrix(S, i)[r][c] == 0
  {
    CoefNotFacet(NFaces(S, i)[c], NFaces(S, i - 1)[r]);
  }

  /** The entries of a boundary column are -1, 0 or 1. */
  lemma {:induction false} CoefficientRange(s: Simplex, t: Simplex, k: nat)
    requires k <= |s|
    ensures -1 <= Coefficient(s, t, k) <= 1
  {
    if k > 0 { CoefficientRange(s, t, k - 1); }
  }

  /** The squared boundary coefficients of s, as a function of the row. */
  function Squares(s: Simplex): Simplex -> int
  {
    (t: Simplex) => Coef(s, t) * Coef(s, t)
  }

  /** The squared coefficients of a strictly increasing s, summed over its
      facets, count them. */
  lemma SquaresOverFacets(s: Simplex)
    requires StrictlySorted(s)
    ensures SumOver(Facets(s), Squares(s)) == |s|
  {
    forall a: nat | a < |Facets(s)| ensures 1 == Squares(s)(Facets(s)[a]) {
      assert Facets(s)[a] == Delete(s, a);
      CoefSquare(s, Facets(s)[a]);
    }
    SumOverAsSum(Facets(s), Squares(s), (a: nat) => 1);
    SumConstant(|s|, (a: nat) => 1, 1);
  }

  /** Over the (i - 1)-simplices of a closed complex, the squared
      coefficients of an i-simplex s sum to its number of facets. */
  lemma SquaresOverFaces(S: Complex, i: int, k: nat)
    requires Closed(S) && k < |S| && |S[k]| == i + 1 && i >= 1
    ensures SumOver(NFaces(S, i - 1), Squares(S[k])) == i + 1
  {
    var s := S[k];
    NFacesNoDup(S, i - 1);
    FacetsNoDup(s);
    FacetsPresent(S, k);
    forall t | t in NFaces(S, i - 1) && t !in Facets(s) ensures Squares(s)(t) == 0 {
      NotAmongFacets(s, t);
      CoefNotFacet(s, t);
    }
    SumOverSupport(NFaces(S, i - 1), Facets(s), Squares(s));
    SquaresOverFacets(s);
  }

  /** The squared column of an i-simplex sums to i + 1, the number of its
      facets. */
  lemma ColumnSquares(S: Complex, i: int, c: nat)
    requires Closed(S) && i >= 1 && c < |NFaces(S, i)|
    ensures ColumnDot(BoundaryMatrix(S, i), |NFaces(S, i)|, c, c) == i + 1
  {
    var B := BoundaryMatrix(S, i);
    var k := SourceInComplex(S, i, c);
    LowerFacesExist(S, i);
    var tgt := NFaces(S, i - 1);
    forall r: nat | r < |tgt| ensures (if r < |B| then B[r][c] * B[r][c] else 0) == Squares(S[k])(tgt[r]) {
      BoundaryEntry(S, i, r, c);
    }
    SumOverAsSum(tgt, Squares(S[k]), (r: nat) => if r < |B| then B[r][c] * B[r][c] else 0);
    SquaresOverFaces(S, i, k);
  }

  /** An entry in {-1, 0, 1} squares to its 0/1 indicator. */
  lemma SquareIndicator(x: int)
    requires -1 <= x <= 1
    ensures x * x == if x != 0 then 1 else 0
  {
  }

  /** Each column of the operator of a closed complex has exactly i + 1
      nonzero entries. */
  lemma ColumnNonzeros(S: Complex, i: int, c: nat)
    requires Closed(S) && i >= 1 && c < |NFaces(S, i)|
    ensures var B := BoundaryMatrix(S, i);
      Count(|B|, (r: nat) => r < |B| && B[r][c] != 0) == i + 1
  {
    var B := BoundaryMatrix(S, i);
    LowerFacesExist(S, i);
    var sq := (r: nat) => if r < |B| then B[r][c] * B[r][c] else 0;
    forall r: nat | r < |B| ensures sq(r) == if r < |B| && B[r][c] != 0 then 1 else 0 {
      BoundaryEntry(S, i, r, c);
      CoefficientRange(NFaces(S, i)[c], NFaces(S, i - 1)[r], |NFaces(S, i)[c]|);
      SquareIndicator(B[r][c]);
    }
    CountAsSum(|B|, (r: nat) => r < |B| && B[r][c] != 0, sq);
    ColumnSquares(S, i, c);
  }

  /** The terms of entry (rho, sigma) of B_i B_(i+1), one per i-simplex x. */
  function Through(rho: Simplex, sigma: Simplex): Simplex -> int
  {
    (x: Simplex) => Coef(x, rho) * Coef(sigma, x)
  }

  /** Entry (r, c) of B_i B_(i+1), written as a sum over the i-simplices. */
  lemma ProductEntry(S: Complex, i: int, r: nat, c: nat)
    requires Closed(S) && i >= 1 && |NFaces(S, i)| > 0
    requires r < |NFaces(S, i - 1)| && c < |NFaces(S, i + 1)|
    ensures HasShape(BoundaryMatrix(S, i), |BoundaryMatrix(S, i)|, |BoundaryMatrix(S, i + 1)|)
    ensures Mul(BoundaryMatrix(S, i), BoundaryMatrix(S, i + 1), |NFaces(S, i + 1)|)[r][c] ==
      SumOver(NFaces(S, i), Through(NFaces(S, i - 1)[r], NFaces(S, i + 1)[c]))
  {
    LowerFacesExist(S, i);
    var A, B := BoundaryMatrix(S, i), BoundaryMatrix(S, i + 1);
    var src := NFaces(S, i);
    var g := Through(NFaces(S, i - 1)[r], NFaces(S, i + 1)[c]);
    SumOverAsSum(src, g, (k: nat) => if k < |B| then A[r][k] * B[k][c] else 0);
  }

  /** The boundary of a boundary is zero: on a closed complex with
      i-simplices (i >= 1), B_i B_(i+1) is the zero matrix, because every
      (i - 1)-face of an (i + 1)-simplex is reached through exactly two of
      its facets, with opposite signs. */
  lemma BoundaryOfBoundary(S: Complex, i: int)
    requires Closed(S) && i >= 1 && |NFaces(S, i)| > 0
    ensures HasShape(BoundaryMatrix(S, i), |BoundaryMatrix(S, i)|, |BoundaryMatrix(S, i + 1)|)
    ensures IsZero(Mul(BoundaryMatrix(S, i), BoundaryMatrix(S, i + 1), |NFaces(S, i + 1)|))
  {
    LowerFacesExist(S, i);
    var P := Mul(BoundaryMatrix(S, i), BoundaryMatrix(S, i + 1), |NFaces(S, i + 1)|);
    forall r, c | 0 <= r < |P| && 0 <= c < |P[r]| ensures P[r][c] == 0 {
      ProductEntry(S, i, r, c);
      FacetsVanish(S, i, NFaces(S, i - 1)[r], NFaces(S, i + 1)[c]);
    }
  }

  /** The sum over the i-simplices reduces to the sum over the facets
      of the (i + 1)-simplex sigma = S[k]. */
  lemma ProductOverFacets(S: Complex, i: int, k: nat, sigma: Simplex, rho: Simplex)
    requires Closed(S) && k < |S| && sigma == S[k] && |sigma| == i + 2 && i >= 0
    ensures SumOver(NFaces(S, i), Through(rho, sigma)) == SumOver(Facets(sigma), Through(rho, sigma))
  {
    NFacesNoDup(S, i);
    FacetsNoDup(sigma);
    FacetsPresent(S, k);
    forall x | x in NFaces(S, i) && x !in Facets(sigma) ensures Through(rho, sigma)(x) == 0 {
      NotAmongFacets(sigma, x);
      CoefNotFacet(sigma, x);
    }
    SumOverSupport(NFaces(S, i), Facets(sigma), Through(rho, sigma));
  }

  /** The sum over the facets of a strictly increasing tuple is its
      signed facet sum. */
  lemma FacetsAsFacetSum(sigma: Simplex, rho: Simplex)
    requires StrictlySorted(sigma)
    ensures SumOver(Facets(sigma), Through(rho, sigma)) == FacetSum(sigma, rho)
  {
    forall a: nat | a < |Facets(sigma)|
      ensures (if a < |sigma| then Sign(a) * Coef(Delete(sigma, a), rho) else 0) == Through(rho, sigma)(Facets(sigma)[a])
    {
      CoefAt(sigma, a);
    }
    SumOverAsSum(Facets(sigma), Through(rho, sigma), (a: nat) => if a < |sigma| then Sign(a) * Coef(Delete(sigma, a), rho) else 0);
  }

  /** The sum over the i-simplices vanishes: it is the signed facet sum
      of the (i + 1)-simplex, which cancels. */
  lemma FacetsVanish(S: Complex, i: int, rho: Simplex, sigma: Simplex)
    requires Closed(S) && i >= 1 && sigma in NFaces(S, i + 1)
    ensures SumOver(NFaces(S, i), Through(rho, sigma)) == 0
  {
    var k :| 0 <= k < |S| && S[k] == sigma;
    ProductOverFacets(S, i, k, sigma, rho);
    FacetsAsFacetSum(sigma, rho);
    FacetCancellation(sigma, rho);
  }
}
