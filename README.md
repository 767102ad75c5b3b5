# Generalised Forman-Ricci curvature

A Dafny model of the curvature core of GeneralisedFormanRicci, a Python
package that computes the Forman-Ricci curvature of every simplex of a
simplicial complex up to a dimension p. It has two engines.

- The point-cloud engine (`frc.py`). The complex is given. The constructor
  stores the Hodge Laplacians L_0 = B_1·B_1ᵗ and
  L_i = B_(i+1)·B_(i+1)ᵗ + B_iᵗ·B_i. `_compute_forman` reads the curvature
  of a simplex off its Laplacian row as the diagonal entry minus the
  absolute off-diagonal entries. `compute_forman` collects these values
  into a dictionary `dimension -> simplex -> value` and adds, for each
  vertex, the mean over its edges.
- The graph engine (`GeneralisedFormanRicci.py`). `import_simplices` closes
  the cliques of a graph under taking faces. `compute_forman(p)` builds the
  boundary operators B_1 … B_p and gives each simplex the "XOR" curvature:
  - the number of its cofaces,
  - plus its number of vertices,
  - minus the number of positions where its upper and lower adjacency
    rows differ.

  Each node then gets the mean of the values of its edges.

Both engines share the same three building blocks.

- Face enumeration (`faces`): every sorted non-empty sub-tuple of every
  simplex.
- The dimension filter (`n_faces`).
- The boundary matrix (`boundary_operator`). Its entry at a facet is
  (-1)^a. When there are no (i-1)-simplices it is a single row of ones.

The two copies of these functions in the two files are identical, so each
is modelled once.

The model's layout:

- A simplex is a `seq<int>`.
- A complex is a `seq` of simplices without duplicates. It stands for the
  Python set, in the order the set iterates.
- Matrices are dense `seq<seq<int>>`.
- Curvature dictionaries are `map<nat, map<Simplex, real>>`.
- Python's `KeyError` and `IndexError` become the `Err` cases of a
  `Result`.

Methods carry the loops of the source. Each method is proved against a
function or a predicate, and the lemmas prove the properties the package
promises about those functions:

- the closure and idempotence of `faces`;
- boundary of boundary is zero;
- the Laplacians are symmetric;
- the diagonal of L_i counts cofaces plus facets;
- on a graph (a closed complex without triangles), both engines give an
  edge (a, b) the value 4 − deg a − deg b, the standard Forman curvature
  of a graph edge;
- vertex values are means bounded by their edges' values;
- the dictionaries are uniquely determined.

A few behaviours of the code to note:

- Asking for the n-simplices with n < 0 returns an empty list. It is not an
  error.
- Boundary entries are written in a loop where a later write for the same
  row wins. On strictly increasing simplices this equals (-1)^a at the
  facet that drops position a (`Simplices.CoefAt`).
- The point-cloud engine builds its Laplacians once, in the constructor.
  The graph engine builds its boundary operators once per
  `compute_forman` call and forms the adjacency products separately for
  each simplex.

## Model

| member | source | states |
|---|---|---|
| Sorting.Sort | frc.py:45 | `sorted(face)`: the result is in non-decreasing order and has the same elements with the same multiplicities |
| Sorting.SortedUnique | frc.py:45 | two sorted sequences with the same elements are equal, so `tuple(sorted(face))` is a canonical key |
| Sorting.SortSameElements | frc.py:45 | two orderings of the same vertices give the same sorted tuple |
| Sorting.SortDistinct | frc.py:45 | sorting distinct vertices gives a strictly increasing tuple |
| FaceEnumeration.CombinationsSpec | frc.py:44 | `combinations(simplex, r)` yields exactly the subsequences of the simplex of length r |
| FaceEnumeration.AddFacesOf | frc.py:42-45 | after one simplex the face set has gained exactly the sorted non-empty subsequences of that simplex |
| FaceEnumeration.Faces | frc.py:39-46 | a tuple is in the result exactly when it is a sorted non-empty subsequence of some input simplex |
| FaceEnumeration.FaceStrictlySorted | frc.py:45 | a face of a simplex with distinct vertices is strictly increasing |
| FaceEnumeration.FacesDownwardClosed | frc.py:39-46 | every non-empty subsequence of a face is a face: the result is closed under taking faces |
| FaceEnumeration.FacesIdempotent | frc.py:39-46 | applying `faces` to its own result gives the same set |
| FaceEnumeration.FacesOfSortedGenerator | GeneralisedFormanRicci.py:22 | sorting a simplex before enumerating its faces does not change the faces |
| FaceEnumeration.ListOfSet | GeneralisedFormanRicci.py:24 | `list(face_set)` has no duplicates and the same members as the set |
| FaceEnumeration.ImportSimplices | GeneralisedFormanRicci.py:21-24 | the complex has no duplicates; it holds exactly the faces of the cliques and is downward closed; it is a closed complex of strictly increasing simplices when each clique has distinct vertices |
| Simplices.NFaces | frc.py:48-49 | a simplex is kept exactly when it has n + 1 vertices, and the result is no longer than the complex |
| Simplices.NFacesOrder | frc.py:48-49 | the filter keeps the complex's order: the k-th simplex sits after the n-simplices before it |
| Simplices.NFacesNoDup | frc.py:48-49 | filtering a duplicate-free complex gives a duplicate-free list |
| Simplices.IndexOf | frc.py:60-61 | `{t[i]: i}` then lookup: no index exactly for a missing simplex, otherwise its last position in the list |
| Simplices.IndexOfNoDup | frc.py:61 | in a duplicate-free list the lookup of the j-th element gives j |
| Simplices.DeleteIndex | frc.py:66 | `source_simplex[:a] + source_simplex[a+1:]` drops position a and shifts the rest |
| Simplices.SignAlternates | frc.py:69 | `-1 if a % 2 == 1 else 1` squares to 1 and alternates from one position to the next |
| Simplices.CoefAt | frc.py:64-69 | on a strictly increasing simplex the entry written for the facet that drops position a is (-1)^a |
| Simplices.CoefNotFacet | frc.py:63-69 | a row that is not a facet of the column keeps the zero of the fresh matrix |
| Boundary.BoundaryMatrix | frc.py:51-71 | B_i has one row per (i-1)-simplex, or one row when there are none, and one column per i-simplex |
| Boundary.OnesRow | frc.py:56-58 | the degenerate operator is one row of n ones |
| Boundary.WriteColumn | frc.py:64-69 | filling column j succeeds exactly when every facet of the j-th source simplex is a target, writes its coefficients, and leaves every other column unchanged |
| Boundary.FillColumns | frc.py:60-69 | the filled matrix exists exactly when no facet lookup fails and then holds every coefficient |
| Boundary.BoundaryOperator | frc.py:51-71 | `boundary_operator(S, i)` fails (the `KeyError` of line 67) exactly when some facet is missing, and otherwise equals B_i |
| Boundary.DegenerateOnes | frc.py:56-58 | without (i-1)-simplices B_i is a 1-row matrix of ones |
| Boundary.ClosedNoMissing | frc.py:67 | on a closed complex the facet lookup never fails |
| Boundary.BoundaryAtFacet | frc.py:64-69 | on a closed complex the facet that drops position a is a row and holds (-1)^a |
| Boundary.BoundaryOffFacet | frc.py:63-69 | on a closed complex every entry off the facets is 0 |
| Boundary.ColumnNonzeros | frc.py:64-69 | each column of B_i has exactly i + 1 nonzero entries |
| Boundary.ColumnSquares | frc.py:64-69 | the squared entries of a column sum to i + 1 |
| Boundary.BoundaryOfBoundary | frc.py:51-71 | B_i·B_(i+1) is the zero matrix on a closed complex |
| Matrices.GramSymmetric | frc.py:118 | B·Bᵗ is symmetric |
| Matrices.CoGramSymmetric | frc.py:119 | Bᵗ·B is symmetric |
| Laplacian.LaplacianSymmetric | frc.py:113-120 | every stored Laplacian is a symmetric square matrix |
| Laplacian.LaplacianDiagonal | frc.py:116-120 | on a closed complex the diagonal of L_i (i ≥ 1) at simplex m is its number of cofaces plus its i + 1 facets |
| Laplacian.VertexLaplacianDiagonal | frc.py:114 | on a closed complex the diagonal of L_0 at a vertex is the vertex's degree |
| Laplacian.LaplacianStep | frc.py:116-120 | one pass of the loop fails exactly when B_(i+1) misses a face, and otherwise gives L_i |
| Laplacian.ComputeLaplacians | frc.py:113-120 | the list fails exactly when some B_i with i ≤ p + 2 misses a face, and otherwise is L_0 … L_(p+1) |
| Laplacian.LaplaciansAt | frc.py:113-120 | entry i of the list is L_i |
| Laplacian.ClosedLaplaciansSucceed | frc.py:113-120 | on a closed complex the Laplacians are always built |
| EdgeAdjacency.EdgeColumnDot | frc.py:119 | the entries of B_1ᵗ·B_1: 2 on the diagonal, and off it a value in [-1, 1] that is nonzero exactly for edges sharing a vertex |
| EdgeAdjacency.AdjacentEdges | frc.py:119 | the edges adjacent to (a, b), plus 2, number deg a + deg b |
| EdgeAdjacency.EdgeLaplacianEntry | frc.py:115-120 | without triangles L_1 is B_1ᵗ·B_1 |
| PointCloudForman.NewEngine | frc.py:113-120 | construction fails exactly when a boundary operator misses a face, and otherwise stores L_0 … L_(p+1) with the complex and p |
| PointCloudForman.StoredLaplacian | frc.py:113-120 | `self.laplacian[i]` is L_i, square with one row per i-simplex |
| PointCloudForman.ResidualOffDiagonal | frc.py:160-161 | diagonal minus `sum(np.abs(np.delete(row, m)))` is the diagonal minus the absolute entries at every other position |
| PointCloudForman.LookupCases | frc.py:153-155 | the row lookup fails exactly for a simplex that is not an i-simplex of the complex, and otherwise gives a value |
| PointCloudForman.CurvatureCases | frc.py:151-163 | None exactly outside 2 ≤ l ≤ q + 1, a failed lookup exactly for a simplex in that range missing from the complex, a value otherwise |
| PointCloudForman.ComputeFormanAt | frc.py:147-163 | `_compute_forman` with `self.p`: the same three outcomes with the unclamped bound |
| PointCloudForman.FormanAtBound | frc.py:181-191 | for 2 ≤ l ≤ p + 1, `_compute_forman` (bounded by `self.p`) agrees with the curvature at the clamped bound |
| PointCloudForman.CurvatureAt | frc.py:153-161 | the curvature of the i-simplex at position m is the residual of row m of `laplacian[i]` |
| PointCloudForman.StoredDiagonal | frc.py:161 | on a closed complex the diagonal read there is cofaces plus i + 1 |
| PointCloudForman.ClosedResidual | frc.py:160-161 | on a closed complex the curvature is cofaces + i + 1 minus the absolute off-diagonal entries of the row |
| PointCloudForman.OffDiagonalAbsNonNegative | frc.py:161 | the subtracted sum is never negative, so the curvature never exceeds the diagonal |
| EngineGraphCase.StoredEdgeEntry | frc.py:115-120 | on a complex without triangles the stored L_1 is B_1ᵗ·B_1 |
| EngineGraphCase.AbsEntry | frc.py:160-161 | off the diagonal, the absolute entry of L_1 is 1 for adjacent edges and 0 otherwise |
| EngineGraphCase.OffDiagonalCount | frc.py:160-161 | the subtracted sum counts the edges adjacent to the edge |
| EngineGraphCase.EdgeCount | frc.py:160-161 | the residual of an edge's row is 4 − deg a − deg b |
| EngineGraphCase.GraphEdgeCurvature | frc.py:176 | on a graph every edge gets a curvature, and curvature + deg a + deg b = 4 |
| FormanDictionary.Bound | frc.py:181-183 | the clamped p is p itself when p ≥ 1 and 1 otherwise, negative p included, and never exceeds p + 1 for p ≥ 0 |
| FormanDictionary.SimplexValue | frc.py:191 | the stored value is the integer `_compute_forman` gives for the simplex |
| FormanDictionary.Values | frc.py:186-191 | a simplex gets a value exactly when it is in the complex with 2 to q + 1 vertices |
| FormanDictionary.Store | frc.py:191 | `forman_dict[d][s] = v` on a `defaultdict(dict)`: level d exists afterwards, holds s ↦ v on top of its old entries, and the other levels are unchanged |
| FormanDictionary.DescribesStore | frc.py:190-191 | storing an in-range simplex keeps the dictionary exact for the longer prefix |
| FormanDictionary.DescribesSkip | frc.py:190 | skipping an out-of-range simplex keeps the dictionary exact |
| FormanDictionary.Visit | frc.py:189-191 | one pass of the first loop extends the exact description from `simplices[..i]` to `simplices[..i+1]` |
| FormanDictionary.FirstLoop | frc.py:188-191 | after the loop the dictionary holds, for every dimension d from 1 to the clamped bound that occurs, exactly the d-simplices with their values |
| FormanDictionary.SimplexPass | frc.py:186-191 | the same over `list(self.S)` |
| FormanDictionary.SimplexCurvature | frc.py:191 | the value stored for a simplex is its curvature |
| FormanDictionary.AddEdge | frc.py:198-200 | each endpoint's `cnt` grows by its occurrences in the edge, and its `vals` by that many times the edge value; nothing else changes |
| FormanDictionary.AccumulateEdges | frc.py:197-200 | after the loop `cnt[v]` counts v's edges and `vals[v]` sums their values |
| FormanDictionary.MeanLevel | frc.py:201-205 | level 0 has exactly the keys (i,) for i < n, holding the mean of the edges at i, or 0 for an isolated vertex |
| FormanDictionary.VertexLevel | frc.py:193-205 | the whole vertex part: keys (i,) for every vertex label, values the edge means |
| FormanDictionary.WithVertices | frc.py:201-205 | level 0 is the vertex level when there are vertices, and the other levels are untouched |
| FormanDictionary.EdgeEntries | frc.py:199 | every edge read by the vertex loop is stored in level 1 with its value |
| FormanDictionary.Assembled | frc.py:179-205 | the simplex levels with the vertex level form the curvature dictionary |
| FormanDictionary.ComputeForman | frc.py:179-207 | `compute_forman()` returns the curvature dictionary: each level 1 … q holds exactly its simplices with their curvatures, and level 0 holds each vertex's mean |
| VertexMeans.CountIsDegree | frc.py:197-200 | on a closed complex `cnt[v]` is the degree of v |
| VertexMeans.EdgeHitsPositive | frc.py:202 | `cnt[v] > 0` exactly when some edge contains v |
| VertexMeans.MeanCases | frc.py:201-205 | an isolated vertex gets 0; otherwise the mean times the count is the sum |
| VertexMeans.MeanBounds | frc.py:201-203 | a vertex's mean lies between the least and the greatest value of its edges |
| VertexMeans.DescribesUnique | frc.py:186-191 | two dictionaries exact for the same simplices and values are equal |
| VertexMeans.FormanDictUnique | frc.py:179-207 | the curvature dictionary is determined by the engine, independent of how it was built |
| VertexMeans.GraphEdgeValue | frc.py:191 | on a graph the stored edge value plus the endpoints' degrees is 4 |
| VertexMeans.GraphEdgeValueBounds | frc.py:191 | on a graph an edge value at vertex x lies between 4 − 2·|E| and 3 − deg x |
| VertexMeans.GraphVertexMean | frc.py:201-203 | on a graph a non-isolated vertex's value is at most 3 − its degree |
| GraphForman.BopDataAt | GeneralisedFormanRicci.py:97-99 | the k-th element of `bop_data` is B_(k+1) |
| GraphForman.Operators | GeneralisedFormanRicci.py:97-99 | building n operators fails exactly when one of B_1 … B_n misses a face, and otherwise gives B_1 … B_n |
| GraphForman.BoundaryOperators | GeneralisedFormanRicci.py:94-99 | as written, after the clamp: B_1 … B_q with q the clamped p, or the failure of a missing face |
| GraphForman.Upper | GeneralisedFormanRicci.py:110 | `b1_` is square with one row per row of b1 |
| GraphForman.Lower | GeneralisedFormanRicci.py:111 | `b2_` is square with one row per column of b2 |
| GraphForman.NeighbourMatrices | GeneralisedFormanRicci.py:110-111 | both adjacency matrices are symmetric with a zero diagonal |
| GraphForman.NonZerosCofaces | GeneralisedFormanRicci.py:115 | `sum(bop_data[l-1][m] != 0)`, read from B_l, counts the cofaces of the simplex |
| GraphForman.XorBound | GeneralisedFormanRicci.py:115 | on a closed complex the XOR curvature is at most cofaces + i + 1 |
| GraphForman.XorWithoutCofaces | GeneralisedFormanRicci.py:110-115 | without (i+1)-simplices the XOR curvature is i + 1 minus the number of nonzero lower-adjacency entries |
| GraphForman.LowerEdgeEntry | GeneralisedFormanRicci.py:111 | for edges, a lower-adjacency entry is nonzero exactly for a different edge sharing a vertex |
| GraphForman.GraphXor | GeneralisedFormanRicci.py:110-115 | on a graph the XOR curvature of an edge plus the endpoints' degrees is 4 |
| GraphDictionary.XorValues | GeneralisedFormanRicci.py:101-115 | a simplex gets a value exactly when it is in the complex with 2 to q + 1 vertices |
| GraphDictionary.XorDictDescribes | GeneralisedFormanRicci.py:101-115 | the specified dictionary holds, for each occurring dimension 1 … q, exactly its simplices with their XOR values |
| GraphDictionary.BopsAt | GeneralisedFormanRicci.py:97-99 | `bop_data[l-1]` is B_l and `bop_data[l-2]` is B_(l-1) |
| GraphDictionary.XorFromBops | GeneralisedFormanRicci.py:110-115 | the formula applied to `bop_data[l-1]` and `bop_data[l-2]` is the XOR curvature of the (l-1)-simplex at row m |
| GraphDictionary.ReadXor | GeneralisedFormanRicci.py:110-115 | the value computed from the operator list is the XOR curvature at row m |
| GraphDictionary.SimplexXor | GeneralisedFormanRicci.py:104-115 | the value stored for an in-range simplex is its XOR value |
| GraphDictionary.XorVisit | GeneralisedFormanRicci.py:102-115 | one pass of the corrected first loop extends the exact description by one simplex |
| GraphDictionary.XorLoop | GeneralisedFormanRicci.py:101-115 | the corrected first loop yields the specified dictionary |
| GraphDictionary.ComputeForman | GeneralisedFormanRicci.py:92-130 | the corrected `compute_forman(p)` fails exactly when an operator up to B_(q+1) misses a face or a node's edge value is absent; otherwise it is the XOR dictionary with the node averages under key 0 |
| GraphDictionary.XorDictEdges | GeneralisedFormanRicci.py:115 | level 1 holds exactly the edges of the complex, each with its XOR value |
| GraphDictionary.GraphEdgeXor | GeneralisedFormanRicci.py:89 | on a graph an edge's value plus its endpoints' degrees is 4 |
| GraphDictionary.GraphEdgeBounds | GeneralisedFormanRicci.py:115 | on a graph every edge value lies between 4 − 2·|E| and 2 |
| GraphDictionary.GraphNodeBound | GeneralisedFormanRicci.py:118-128 | on a graph every node with neighbours gets an average between 4 − 2·|E| and 2 |
| GraphDictionary.AsWrittenOk | GeneralisedFormanRicci.py:101-115 | the first loop as written succeeds exactly when no simplex has 2 to p + 1 vertices, and then leaves the dictionary empty |
| GraphDictionary.AsWrittenErr | GeneralisedFormanRicci.py:101-115 | a failure aborts the rest of the loop |
| GraphDictionary.AsWrittenFirst | GeneralisedFormanRicci.py:101-115 | the first in-range simplex ends the loop, with `IndexError` when `bop_data[l-1]` is past the end and `KeyError` otherwise |
| GraphDictionary.AsWrittenEdgeExample | GeneralisedFormanRicci.py:97-110 | with p = 1 and the single edge (0, 1), the loop as written raises `IndexError` |
| GraphDictionary.AsWrittenStoreExample | GeneralisedFormanRicci.py:92-115 | with p = 2 and the single edge (0, 1), the loop as written raises `KeyError` |
| GraphDictionary.VertexAsWrittenFails | GeneralisedFormanRicci.py:118-128 | the vertex loop as written, started from the empty plain dictionary, fails at its first node: `AttributeError` from `self.G.neighbor` for a node with neighbours, `KeyError` from `forman_dict[0]` for one without |
| GraphDictionary.AsWrittenAlwaysFails | GeneralisedFormanRicci.py:92-130 | `compute_forman(p)` as written succeeds exactly when every face is present, the graph has no node and no simplex has 2 to p + 1 vertices: it fails on every graph with a node |
| NeighbourAverage.SortedEdgeLookup | GeneralisedFormanRicci.py:122-125 | with increasing keys, the edge is found from either endpoint with the same value |
| NeighbourAverage.SumLookupsOk | GeneralisedFormanRicci.py:121-125 | `cur_sum` exists exactly when every neighbour's edge is stored in one orientation |
| NeighbourAverage.SumLookupsErr | GeneralisedFormanRicci.py:121-125 | a failed lookup aborts the sum |
| NeighbourAverage.SumLookupsBounds | GeneralisedFormanRicci.py:119-125 | with stored values in [lo, hi], the sum lies between lo and hi times the degree |
| NeighbourAverage.NeighbourSum | GeneralisedFormanRicci.py:119-125 | the inner loop computes the specified sum or its failure |
| NeighbourAverage.NodeValueBounds | GeneralisedFormanRicci.py:120-126 | a node with neighbours gets a value between the least and the greatest stored edge value |
| NeighbourAverage.AveragesOk | GeneralisedFormanRicci.py:118-128 | the vertex loop succeeds exactly when every node's value does |
| NeighbourAverage.AveragesKeys | GeneralisedFormanRicci.py:118-128 | level 0 holds exactly the keys (v,) of the nodes |
| NeighbourAverage.AveragesValues | GeneralisedFormanRicci.py:118-128 | with distinct nodes, each (v,) holds that node's value |
| NeighbourAverage.AveragesErr | GeneralisedFormanRicci.py:118-128 | a failure at a node aborts the whole loop |
| NeighbourAverage.VertexAverages | GeneralisedFormanRicci.py:118-128 | the outer loop computes the specified vertex level or its failure |

## Left out

- The geometric constructors `construct_rips` and `construct_alpha` (frc.py:125-145) are left out. They call gudhi, floating-point distances and filtrations. The engine takes the complex as given. Their one effect the model needs, keeping only simplices with at most p + 1 vertices, is the precondition `PointCloudForman.WithinBound`.
- The rest of `__init__` (frc.py:76-107) is left out: the method dispatch, `raise` of a string, `print`, and `self.pts` and `self.labels`. So are `gen_graph`, the graph copy and `nx.find_cliques` (GeneralisedFormanRicci.py:71-76). These are I/O and foreign libraries. The cliques are the input of `FaceEnumeration.ImportSimplices`, and the graph is a given `NeighbourAverage.Graph`.
- The graph's nodes and neighbour lists are not tied to the complex (in the source, the complex is built from the graph's cliques). `NeighbourAverage.Graph` is an independent input.
- `G.neighbor(v)` does not exist in networkx, which names the method `neighbors`. The model reads the node's neighbour list, as evidently intended. The degree is that list's length, so self-loops and multi-edges are not modelled.
- `dok_matrix`, `toarray` and `float64` are modelled as dense integer matrices. All entries are -1, 0 or 1 and all products are small integer counts, so nothing is lost. The curvature values become `real` only where they enter the dictionaries.
- Negative indices wrapping around in numpy are not modelled. No index the model computes can be negative.
- There is no lemma that the XOR formula and the residual formula agree on simplices of dimension 2 and more. Their agreement is proved only on graphs, where both equal 4 − deg a − deg b (`EngineGraphCase.GraphEdgeCurvature`, `GraphForman.GraphXor`).
- FormanDictionary.ComputeForman: requires `WithinBound` and `LabelsInRange`. `WithinBound` is what the rips and alpha constructors guarantee. Because of it, `_compute_forman`'s test against the unclamped `self.p` never disagrees with the clamped p, including p = 0, where no edge exists. `LabelsInRange` requires every endpoint of an edge to be below the number of vertices, so that `vals[v]` at frc.py:199 is in bounds. gudhi numbers the points 0 … n-1, which guarantees this.
- The point-cloud engine takes `p` as a `nat` (`PointCloudForman.NewEngine`, `Laplacian.ComputeLaplacians`). In the source p may be negative: then the loop at frc.py:115 is empty and the constructors at frc.py:131 and frc.py:142 keep no simplex at all, so there is nothing to compute. The graph engine takes `p` as an `int`, and `FormanDictionary.Bound` raises a negative p to 1 as GeneralisedFormanRicci.py:94-95 does.
- GraphDictionary.ComputeForman: models the corrected loop, with B_1 … B_(p+1) and levels created on first use. The loop as written is modelled separately by `LoopAsWritten` (see Findings).
- The graph-case lemmas (`EngineGraphCase.*`, `GraphForman.GraphXor`, `GraphDictionary.GraphEdgeXor` and the bounds lemmas) take the dimension as a parameter `i` with `i == 1`, not as the literal 1. This is a proof device and states the same property.

## Findings

| source | as written | input that shows it | evidently intended | confidence | as-written member | corrected member |
|---|---|---|---|---|---|---|
| GeneralisedFormanRicci.py:97-110 | `bop_data` holds B_1 … B_p, but the first loop reads `bop_data[l-1]` = B_l for every simplex with up to p + 1 vertices, so l = p + 1 is past the end | p = 1 and the complex {(0,), (1,), (0, 1)}: the edge has l = 2 and `bop_data[1]` raises `IndexError` | build B_1 … B_(p+1), so that B_l, which counts the cofaces, exists for every l ≤ p + 1 | high, not executed | GraphDictionary.AsWrittenEdgeExample | GraphDictionary.XorLoop |
| GeneralisedFormanRicci.py:92-128 | `forman_dict = dict()`, then `forman_dict[l-1][simplex] = …` (line 115) and `forman_dict[0][(v,)] = …` (lines 126 and 128) read a level that was never created | p = 2 and the complex {(0,), (1,), (0, 1)}: B_1 and B_2 exist, and `forman_dict[1]` raises `KeyError` | `defaultdict(dict)`, as the point-cloud engine does at frc.py:179 | high, not executed | GraphDictionary.AsWrittenStoreExample | GraphDictionary.XorVisit |

`GraphDictionary.AsWrittenFirst` generalises both rows. On every complex, the as-written first loop stops at the first simplex with 2 to p + 1 vertices. It raises `IndexError` when that simplex has p + 1 vertices and `KeyError` otherwise. `GraphDictionary.AsWrittenOk` shows that it succeeds only when there is no such simplex, and then it leaves the dictionary empty.

The vertex loop then fails at its first node. A node with neighbours calls `self.G.neighbor` (line 121), which networkx graphs do not have; the call sits outside the `try`, so the `AttributeError` escapes. A node without neighbours stores into `forman_dict[0]` (line 128), which the plain dictionary does not hold. `GraphDictionary.AsWrittenAlwaysFails` puts the two loops together: as written, `compute_forman` fails on every graph with at least one node, even a graph without edges. The corrected members use `neighbors` and a `defaultdict`.
