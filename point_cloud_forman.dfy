/** The point-cloud curvature engine of frc.py: the state its constructor
    stores (the complex, p and the Laplacians, frc.py:113-120), the
    curvature of one simplex read off its Laplacian row (`_compute_forman`,
    frc.py:147-163) and the dictionary of all curvatures with the vertex
    averages (`compute_forman`, frc.py:179-205). */
module PointCloudForman {
  import opened Sums
  import opened Sorting
  import opened Results
  import opened Simplices
  import opened Matrices
  import opened Boundary
  import opened Laplacian
  import opened EdgeAdjacency

  /** The engine after `__init__`: the complex `self.S`, the dimension
      bound `self.p` and the list `self.laplacian`. */
  datatype Engine = Engine(S: Complex, p: nat, laplacian: seq<Matrix>)

  /** The state the constructor leaves: `laplacian[i]` is L_i for every
      i <= p + 1. */
  predicate Valid(e: Engine)
  {
    NoDup(e.S) && e.laplacian == Laplacians(e.S, e.p + 2)
  }

  /** The Laplacian part of `__init__` on a given complex: it fails when a
      boundary operator meets a missing face, and otherwise leaves a
      valid engine. */
  method NewEngine(S: Complex, p: nat) returns (res: Result<Engine>)
    requires NoDup(S)
    ensures res.Ok? <==> FacesPresentUpTo(S, p + 2)
    ensures res.Ok? ==> Valid(res.value) && res.value.S == S && res.value.p == p
  {
    var L := ComputeLaplacians(S, p);
    if L.Err? {
      return Err(L.error);
    }
    return Ok(Engine(S, p, L.value));
  }

  /** A stored Laplacian of positive index is square with one row per
      i-simplex. */
  lemma StoredLaplacian(e: Engine, i: nat)
    requires Valid(e) && 1 <= i < e.p + 2
    ensures e.laplacian[i] == LaplacianAt(e.S, i)
    ensures HasShape(e.laplacian[i], |NFaces(e.S, i)|, |NFaces(e.S, i)|)
  {
    LaplaciansAt(e.S, e.p + 2, i);
    LaplacianSymmetric(e.S, i);
  }

  /** The shape of a stored Laplacian, stated for the stored list only. */
  lemma StoredShape(e: Engine, i: nat)
    requires Valid(e) && 1 <= i < e.p + 2
    ensures HasShape(e.laplacian[i], |NFaces(e.S, i)|, |NFaces(e.S, i)|)
  {
    StoredLaplacian(e, i);
  }

  function Abs(x: int): int
  {
    if x < 0 then -x else x
  }

  /** `row[m] - sum(np.abs(np.delete(row, m)))`. */
  function Residual(row: seq<int>, m: nat): int
    requires m < |row|
  {
    row[m] - SumOver(Delete(row, m), Abs)
  }

  /** The sum of |row[k]| over the positions k other than m. */
  function OffDiagonalAbs(row: seq<int>, m: nat): int
  {
    Sum(|row|, (k: nat) => if k < |row| && k != m then Abs(row[k]) else 0)
  }

  /** Deleting position m and summing the absolute values is summing
      |row[k]| over every k other than m. */
  lemma ResidualOffDiagonal(row: seq<int>, m: nat)
    requires m < |row|
    ensures Residual(row, m) == row[m] - OffDiagonalAbs(row, m)
  {
    SumOverRemove(row, m, Abs);
    var all := (k: nat) => if k < |row| then Abs(row[k]) else 0;
    SumOverAsSum(row, Abs, all);
    SumExceptOne(|row|, all, (k: nat) => if k < |row| && k != m then Abs(row[k]) else 0, m);
  }

  /** `_compute_forman(simplex)` with the dimension test `2 <= l <= q + 1`:
      None outside that range, a failed dictionary lookup when the
      simplex is not among the (l - 1)-simplices, and otherwise the
      residual of its row in `laplacian[l - 1]`. The method itself reads
      q = `self.p`; `compute_forman` needs the clamped value. */
  function Curvature(e: Engine, q: nat, simplex: Simplex): Result<Option<int>>
    requires Valid(e) && q <= e.p + 1
  {
    var l := |simplex|;
    if 2 <= l <= q + 1 then Lookup(e, l - 1, simplex) else Ok(None)
  }

  /** `target_simplices_dict[simplex]` among the i-simplices, then the
      residual of that row of `laplacian[i]`. */
  function Lookup(e: Engine, i: nat, simplex: Simplex): Result<Option<int>>
    requires Valid(e) && 1 <= i < e.p + 2
  {
    match IndexOf(NFaces(e.S, i), simplex)
    case None => Err(KeyNotFound)
    case Some(m) =>
      StoredShape(e, i);
      Ok(Some(Residual(e.laplacian[i][m], m)))
  }

  /** A lookup either finds a value or fails, and it fails exactly when
      the simplex is not an i-simplex of the complex. */
  lemma LookupCases(e: Engine, i: nat, simplex: Simplex)
    requires Valid(e) && 1 <= i < e.p + 2
    ensures Lookup(e, i, simplex).Ok? ==> Lookup(e, i, simplex).value.Some?
    ensures Lookup(e, i, simplex).Err? <==> simplex !in NFaces(e.S, i)
  {
  }

  /** The three outcomes of `_compute_forman`: None exactly outside the
      dimension range, a failed lookup exactly for a simplex of that
      range missing from the complex, and a value otherwise. */
  lemma CurvatureCases(e: Engine, q: nat, simplex: Simplex)
    requires Valid(e) && q <= e.p + 1
    ensures Curvature(e, q, simplex) == Ok(None) <==> !(2 <= |simplex| <= q + 1)
    ensures Curvature(e, q, simplex).Err? <==> 2 <= |simplex| <= q + 1 && simplex !in e.S
  {
    if 2 <= |simplex| <= q + 1 {
      LookupCases(e, |simplex| - 1, simplex);
    }
  }

  lemma CurvatureIsLookup(e: Engine, q: nat, simplex: Simplex, i: nat)
    requires Valid(e) && q <= e.p + 1 && 1 <= i <= q && |simplex| == i + 1
    ensures Curvature(e, q, simplex) == Lookup(e, i, simplex)
  {
    CurvatureUnfold(e, q, simplex);
    assert |simplex| - 1 == i;
  }

  lemma CurvatureUnfold(e: Engine, q: nat, simplex: Simplex)
    requires Valid(e) && q <= e.p + 1 && 2 <= |simplex| <= q + 1
    ensures Curvature(e, q, simplex) == Lookup(e, |simplex| - 1, simplex)
  {
  }

  /** `_compute_forman` as written, bounded by `self.p`. */
  function ComputeFormanAt(e: Engine, simplex: Simplex): (r: Result<Option<int>>)
    requires Valid(e)
    ensures r == Ok(None) <==> !(2 <= |simplex| <= e.p + 1)
    ensures r.Err? <==> 2 <= |simplex| <= e.p + 1 && simplex !in e.S
  {
    CurvatureCases(e, e.p, simplex);
    Curvature(e, e.p, simplex)
  }

  /** The complex built by `construct_rips` and `construct_alpha` keeps only
      simplices with at most p + 1 vertices. */
  predicate WithinBound(e: Engine)
  {
    forall s :: s in e.S ==> |s| <= e.p + 1
  }

  /** For a simplex with 2 to p + 1 vertices, `_compute_forman` reads the
      same value with any bound q from |s| - 1 to p + 1. */
  lemma FormanAtBound(e: Engine, q: nat, simplex: Simplex)
    requires Valid(e) && 2 <= |simplex| <= e.p + 1 && |simplex| <= q + 1 && q <= e.p + 1
    ensures ComputeFormanAt(e, simplex) == Curvature(e, q, simplex)
  {
  }

  /** The curvature of the i-simplex at position m is the residual of
      row m of the stored `laplacian[i]`. */
  lemma CurvatureAt(e: Engine, q: nat, i: nat, m: nat)
    requires Valid(e) && q <= e.p + 1 && 1 <= i <= q && m < |NFaces(e.S, i)|
    ensures HasShape(e.laplacian[i], |NFaces(e.S, i)|, |NFaces(e.S, i)|)
    ensures Curvature(e, q, NFaces(e.S, i)[m]) == Ok(Some(Residual(e.laplacian[i][m], m)))
  {
    var s := NFaces(e.S, i)[m];
    assert |s| == i + 1 by {
      assert s in NFaces(e.S, i);
    }
    LookupAt(e, i, m);
    CurvatureIsLookup(e, q, s, i);
  }

  /** The lookup of the i-simplex at position m finds row m. */
  lemma LookupAt(e: Engine, i: nat, m: nat)
    requires Valid(e) && 1 <= i < e.p + 2 && m < |NFaces(e.S, i)|
    ensures HasShape(e.laplacian[i], |NFaces(e.S, i)|, |NFaces(e.S, i)|)
    ensures Lookup(e, i, NFaces(e.S, i)[m]) == Ok(Some(Residual(e.laplacian[i][m], m)))
  {
    NFacesNoDup(e.S, i);
    IndexOfNoDup(NFaces(e.S, i), m);
    StoredShape(e, i);
  }

  /** The diagonal of a stored Laplacian on a closed complex: cofaces
      plus facets. */
  lemma StoredDiagonal(e: Engine, i: nat, m: nat)
    requires Valid(e) && Closed(e.S) && 1 <= i < e.p + 2 && m < |NFaces(e.S, i)|
    ensures HasShape(e.laplacian[i], |NFaces(e.S, i)|, |NFaces(e.S, i)|)
    ensures e.laplacian[i][m][m] == CofaceCount(e.S, i, m) + i + 1
  {
    StoredLaplacian(e, i);
    LaplacianDiagonal(e.S, i, m);
  }

  /** On a closed complex the residual of row m of the stored L_i, which
      CurvatureAt shows to be the curvature of the i-simplex m, is its
      number of cofaces plus its i + 1 facets minus the absolute
      off-diagonal entries of the row (a sum that is never negative, by
      OffDiagonalAbsNonNegative). */
  lemma ClosedResidual(e: Engine, i: nat, m: nat)
    requires Valid(e) && Closed(e.S) && 1 <= i < e.p + 2 && m < |NFaces(e.S, i)|
    ensures HasShape(e.laplacian[i], |NFaces(e.S, i)|, |NFaces(e.S, i)|)
    ensures Residual(e.laplacian[i][m], m) == CofaceCount(e.S, i, m) + i + 1 - OffDiagonalAbs(e.laplacian[i][m], m)
  {
    StoredDiagonal(e, i, m);
    ResidualOffDiagonal(e.laplacian[i][m], m);
  }

  /** CurvatureAt with the value named: a residual known to equal v. */
  lemma CurvatureValue(e: Engine, q: nat, i: nat, m: nat, v: int)
    requires Valid(e) && q <= e.p + 1 && 1 <= i <= q && m < |NFaces(e.S, i)|
    requires HasShape(e.laplacian[i], |NFaces(e.S, i)|, |NFaces(e.S, i)|)
    requires Residual(e.laplacian[i][m], m) == v
    ensures Curvature(e, q, NFaces(e.S, i)[m]) == Ok(Some(v))
  {
    CurvatureAt(e, q, i, m);
  }

  lemma OffDiagonalAbsNonNegative(row: seq<int>, m: nat)
    ensures OffDiagonalAbs(row, m) >= 0
  {
    SumNonNegative(|row|, (k: nat) => if k < |row| && k != m then Abs(row[k]) else 0);
  }
}
