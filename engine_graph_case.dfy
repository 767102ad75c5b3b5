/** The graph case of the point-cloud engine: on a closed complex
    without triangles L_1 is B_1ᵀ B_1, and the curvature of the edge
    [a, b] is 4 - deg a - deg b. */
module EngineGraphCase {
  import opened Sums
  import opened Results
  import opened Simplices
  import opened Matrices
  import opened Boundary
  import opened Laplacian
  import opened EdgeAdjacency
  import opened PointCloudForman

  /** Without triangles the stored L_1 is B_1ᵀ B_1. */
  lemma StoredEdgeEntry(e: Engine, i: nat, m: nat, k: nat)
    requires Valid(e) && Closed(e.S) && i == 1 && |NFaces(e.S, i + 1)| == 0
    requires m < |NFaces(e.S, i)| && k < |NFaces(e.S, i)|
    ensures HasShape(e.laplacian[i], |NFaces(e.S, i)|, |NFaces(e.S, i)|)
    ensures e.laplacian[i][m][k] == ColumnDot(BoundaryMatrix(e.S, i), |NFaces(e.S, i)|, m, k)
  {
    StoredLaplacian(e, i);
    EdgeLaplacianEntry(e.S, m, k);
  }

  /** The graph case with the value named: in a closed complex without
      triangles the edge [a, b] has curvature v = 4 - deg a - deg b. */
  lemma EdgeCurvatureValue(e: Engine, q: nat, i: nat, m: nat, v: int)
    requires Valid(e) && Closed(e.S) && 1 <= q <= e.p + 1 && i == 1
    requires |NFaces(e.S, i + 1)| == 0 && m < |NFaces(e.S, i)|
    requires |NFaces(e.S, i)[m]| == 2
    requires v == 4 - Degree(e.S, NFaces(e.S, i)[m][0]) - Degree(e.S, NFaces(e.S, i)[m][1])
    ensures Curvature(e, q, NFaces(e.S, i)[m]) == Ok(Some(v))
  {
    EdgeCount(e, i, m);
    CurvatureValue(e, q, i, m, v);
  }

  /** The graph case: in a closed complex without triangles the edge
      [a, b] has a curvature, and it is 4 - deg a - deg b. The edge
      dimension i = 1 is passed as a variable. */
  lemma GraphEdgeCurvature(e: Engine, q: nat, i: nat, m: nat)
    requires Valid(e) && Closed(e.S) && 1 <= q <= e.p + 1 && i == 1
    requires |NFaces(e.S, i + 1)| == 0 && m < |NFaces(e.S, i)|
    ensures |NFaces(e.S, i)[m]| == 2
    ensures Curvature(e, q, NFaces(e.S, i)[m]).Ok? && Curvature(e, q, NFaces(e.S, i)[m]).value.Some?
    ensures Curvature(e, q, NFaces(e.S, i)[m]).value.value
      + Degree(e.S, NFaces(e.S, i)[m][0]) + Degree(e.S, NFaces(e.S, i)[m][1]) == 4
  {
    EdgeCount(e, i, m);
    EdgeCurvatureValue(e, q, i, m, 4 - Degree(e.S, NFaces(e.S, i)[m][0]) - Degree(e.S, NFaces(e.S, i)[m][1]));
  }

  /** The absolute off-diagonal entries of the row of an edge count the
      edges that meet it. */
  lemma OffDiagonalCount(e: Engine, i: nat, m: nat)
    requires Valid(e) && Closed(e.S) && i == 1
    requires |NFaces(e.S, i + 1)| == 0 && m < |NFaces(e.S, i)|
    ensures HasShape(e.laplacian[i], |NFaces(e.S, i)|, |NFaces(e.S, i)|)
    ensures OffDiagonalAbs(e.laplacian[i][m], m)
        == Count(|NFaces(e.S, i)|, (k: nat) => k < |NFaces(e.S, i)| && k != m && Adjacent(NFaces(e.S, i)[m], NFaces(e.S, i)[k]))
  {
    var E := NFaces(e.S, i);
    StoredShape(e, i);
    var row := e.laplacian[i][m];
    forall k: nat | k < |E|
      ensures (if k < |row| && k != m then Abs(row[k]) else 0) == if k < |E| && k != m && Adjacent(E[m], E[k]) then 1 else 0
    {
      AbsEntry(e, i, m, k);
    }
    CountAsSum(|E|, (k: nat) => k < |E| && k != m && Adjacent(E[m], E[k]),
                    (k: nat) => if k < |row| && k != m then Abs(row[k]) else 0);
  }

  /** An off-diagonal entry of the row of an edge is, in absolute value,
      1 for an edge meeting it and 0 otherwise. */
  lemma AbsEntry(e: Engine, i: nat, m: nat, k: nat)
    requires Valid(e) && Closed(e.S) && i == 1
    requires |NFaces(e.S, i + 1)| == 0 && m < |NFaces(e.S, i)| && k < |NFaces(e.S, i)|
    ensures HasShape(e.laplacian[i], |NFaces(e.S, i)|, |NFaces(e.S, i)|)
    ensures k != m ==> Abs(e.laplacian[i][m][k]) == if Adjacent(NFaces(e.S, i)[m], NFaces(e.S, i)[k]) then 1 else 0
  {
    StoredEdgeEntry(e, i, m, k);
    EdgeColumnDot(e.S, m, k);
  }

  /** The residual of the row of an edge is 4 - deg a - deg b: its
      diagonal is 2, and the edges meeting it number deg a + deg b - 2. */
  lemma EdgeCount(e: Engine, i: nat, m: nat)
    requires Valid(e) && Closed(e.S) && i == 1
    requires |NFaces(e.S, i + 1)| == 0 && m < |NFaces(e.S, i)|
    ensures |NFaces(e.S, i)[m]| == 2
    ensures HasShape(e.laplacian[i], |NFaces(e.S, i)|, |NFaces(e.S, i)|)
    ensures Residual(e.laplacian[i][m], m)
        == 4 - Degree(e.S, NFaces(e.S, i)[m][0]) - Degree(e.S, NFaces(e.S, i)[m][1])
  {
    ClosedResidual(e, i, m);
    assert CofaceCount(e.S, i, m) == 0;
    OffDiagonalCount(e, i, m);
    AdjacentEdges(e.S, m);
  }
}
