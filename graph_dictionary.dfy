/** The dictionary of the graph-based `compute_forman`
    (GeneralisedFormanRicci.py:92-130): the first loop stores the XOR
    curvature of each simplex of dimension 1 to p, and the vertex loop
    adds the neighbour averages under key 0. The loop as written fails on
    every complex with an edge; the model states that failure and then
    models the evidently intended loop, which reads B_(p+1) as well and
    stores into a dictionary of dictionaries created on first use, as
    frc.py:179 does. */
module GraphDictionary {
  import opened Sums
  import opened Results
  import opened Simplices
  import opened Matrices
  import opened Boundary
  import opened Laplacian
  import opened FormanDictionary
  import opened GraphForman
  import opened NeighbourAverage
  import opened VertexMeans

  /** The XOR curvature of the simplex s of the complex, read at its row in
      the (|s| - 1)-simplices. */
  function XorValue(S: Complex, s: Simplex): real
    requires s in S && |s| >= 2
  {
    XorOf(S, s) as real
  }

  function XorOf(S: Complex, s: Simplex): int
    requires s in S && |s| >= 2
  {
    var i := |s| - 1;
    XorAt(S, i, IndexOf(NFaces(S, i), s).value)
  }

  /** The curvature of every simplex with 2 to q + 1 vertices. */
  function XorValues(S: Complex, q: nat): (vals: map<Simplex, real>)
    ensures forall s :: s in vals <==> s in S && 2 <= |s| <= q + 1
  {
    map s | s in S && 2 <= |s| <= q + 1 :: XorValue(S, s)
  }

  /** The d-simplices of the complex with their curvatures. */
  function XorLevel(S: Complex, d: nat): map<Simplex, real>
    requires d >= 1
  {
    map s | s in S && |s| == d + 1 :: XorValue(S, s)
  }

  /** The dictionary the first loop is meant to leave: one level for each
      dimension 1 to q that the complex occupies. */
  function XorDict(S: Complex, q: nat): FormanDict
  {
    map d | 1 <= d <= q && HasDim(S, d) :: XorLevel(S, d)
  }

  /** XorDict is the dictionary that describes the whole complex. */
  lemma XorDictDescribes(S: Complex, q: nat)
    ensures Describes(S, q, XorValues(S, q), XorDict(S, q))
  {
  }

  /** With `bop_data` = B_1 .. B_n, the entries at i and i - 1 are B_(i+1)
      and B_i, so the formula read from them is the curvature of the
      i-simplex m. */
  lemma XorFromBops(S: Complex, bops: seq<Matrix>, i: nat, m: nat)
    requires bops == BopData(S, |bops|) && 1 <= i < |bops| && m < |NFaces(S, i)|
    ensures HasShape(bops[i], |NFaces(S, i)|, |NFaces(S, i + 1)|) && HasShape(bops[i - 1], |bops[i - 1]|, |NFaces(S, i)|)
    ensures XorFormula(bops[i], bops[i - 1], |NFaces(S, i)|, |NFaces(S, i + 1)|, m, i + 1) == XorAt(S, i, m)
  {
    BopsAt(S, bops, i);
  }

  lemma BopsAt(S: Complex, bops: seq<Matrix>, i: nat)
    requires bops == BopData(S, |bops|) && 1 <= i < |bops|
    ensures bops[i] == BoundaryMatrix(S, i + 1) && bops[i - 1] == BoundaryMatrix(S, i)
  {
    BopDataAt(S, |bops|, i);
    BopDataAt(S, |bops|, i - 1);
  }

  /** Lines 104-115 for one simplex of the complex, reading B_l and
      B_(l-1) from a `bop_data` that holds B_1 .. B_(q + 1). */
  method SimplexXor(S: Complex, bops: seq<Matrix>, q: nat, s: Simplex) returns (v: real)
    requires bops == BopData(S, q + 1) && s in S && 2 <= |s| <= q + 1
    ensures v == XorValue(S, s)
  {
    var i := |s| - 1;
    var m := IndexOf(NFaces(S, i), s).value;
    var x := ReadXor(S, bops, i, m);
    XorValueIs(S, s, i, m);
    v := x as real;
  }

  /** Lines 110-115 at row m of the i-simplices: b1_, b2_, p1, p2 and the
      count. */
  method ReadXor(S: Complex, bops: seq<Matrix>, i: nat, m: nat) returns (x: int)
    requires bops == BopData(S, |bops|) && 1 <= i < |bops| && m < |NFaces(S, i)|
    ensures x == XorAt(S, i, m)
  {
    XorFromBops(S, bops, i, m);
    x := XorFormula(bops[i], bops[i - 1], |NFaces(S, i)|, |NFaces(S, i + 1)|, m, i + 1);
  }

  lemma XorValueIs(S: Complex, s: Simplex, i: nat, m: nat)
    requires s in S && |s| >= 2 && i == |s| - 1 && IndexOf(NFaces(S, i), s) == Some(m)
    ensures m < |NFaces(S, i)| && XorValue(S, s) == XorAt(S, i, m) as real
  {
    assert |s| - 1 == i;
    assert IndexOf(NFaces(S, |s| - 1), s).value == m;
    assert XorOf(S, s) == XorAt(S, i, m);
  }

  /** vals holds the curvature of every simplex with 2 to q + 1 vertices. */
  ghost predicate XorAgree(S: Complex, q: nat, vals: map<Simplex, real>)
  {
    forall s {:trigger XorValue(S, s)} :: s in S && 2 <= |s| <= q + 1 ==> s in vals && vals[s] == XorValue(S, s)
  }

  lemma XorValuesAgree(S: Complex, q: nat)
    ensures XorAgree(S, q, XorValues(S, q))
  {
  }

  /** One pass of the intended first loop: a simplex with 2 to q + 1
      vertices is stored under l - 1, creating that level when it is
      missing; any other is skipped. */
  method XorVisit(S: Complex, bops: seq<Matrix>, q: nat, ghost vals: map<Simplex, real>, i: nat, fd: FormanDict)
    returns (fd': FormanDict)
    requires bops == BopData(S, q + 1) && XorAgree(S, q, vals) && i < |S|
    requires Describes(S[..i], q, vals, fd)
    ensures Describes(S[..i + 1], q, vals, fd')
  {
    ghost var T, T' := S[..i], S[..i + 1];
    PrefixStep(S, i);
    var s := S[i];
    var l := |s|;
    if l <= q + 1 && l >= 2 {
      var v := SimplexXor(S, bops, q, s);
      DescribesStore(T, T', q, vals, s, fd, l - 1, v);
      fd' := Store(fd, l - 1, s, v);
    } else {
      DescribesSkip(T, T', q, vals, s, fd);
      fd' := fd;
    }
  }

  /** The intended first loop over `self.S`. */
  method XorLoop(S: Complex, bops: seq<Matrix>, q: nat) returns (fd: FormanDict)
    requires bops == BopData(S, q + 1)
    ensures fd == XorDict(S, q)
  {
    ghost var vals := XorValues(S, q);
    XorValuesAgree(S, q);
    fd := map[];
    for i := 0 to |S|
      invariant Describes(S[..i], q, vals, fd)
    {
      fd := XorVisit(S, bops, q, vals, i, fd);
    }
    assert S[..|S|] == S;
    XorDictDescribes(S, q);
    DescribesUnique(S, q, vals, fd, XorDict(S, q));
  }

  /** `forman_dict[1]` as the vertex loop reads it: the edge level, or an
      empty one when no edge was stored. */
  function EdgeLevelOf(fd: FormanDict): map<Simplex, real>
  {
    if 1 in fd then fd[1] else map[]
  }

  /** The dictionary after the vertex loop: level 0 exists once some node
      was visited. */
  function WithAverages(fd: FormanDict, lv: map<Simplex, real>, n: nat): FormanDict
  {
    if n > 0 then fd[0 := lv] else fd
  }

  /** The intended `compute_forman(p)`: p raised to at least 1, B_1 ..
      B_(p+1) built, the curvature of every simplex of dimension 1 to p
      stored, and then the neighbour average of every node. It fails when
      a boundary operator misses a face or a node's edge is not stored. */
  method ComputeForman(S: Complex, G: Graph, p: int) returns (res: Result<FormanDict>)
    requires NoDup(S) && WellFormed(G)
    ensures res.Ok? <==> FacesPresentUpTo(S, Bound(p) + 1) && Averages(EdgeLevelOf(XorDict(S, Bound(p))), G, |G.nodes|).Ok?
    ensures res.Ok? ==>
      res.value == WithAverages(XorDict(S, Bound(p)), Averages(EdgeLevelOf(XorDict(S, Bound(p))), G, |G.nodes|).value, |G.nodes|)
  {
    var q := p;
    if q < 1 {
      q := 1;
    }
    assert q == Bound(p);
    var bops := Operators(S, q + 1);
    if bops.Err? {
      return Err(bops.error);
    }
    var fd := XorLoop(S, bops.value, q);
    var level := if 1 in fd then fd[1] else map[];
    var lv := VertexAverages(level, G);
    if lv.Err? {
      return Err(lv.error);
    }
    if |G.nodes| > 0 {
      fd := fd[0 := lv.value];
    }
    return Ok(fd);
  }

  /** Every edge of the complex is in the edge level with its curvature,
      and the level holds nothing else. */
  lemma XorDictEdges(S: Complex, q: nat)
    requires q >= 1
    ensures forall t :: t in EdgeLevelOf(XorDict(S, q)) <==> t in S && |t| == 2
    ensures forall t :: t in S && |t| == 2 ==> EdgeLevelOf(XorDict(S, q))[t] == XorValue(S, t)
  {
    if exists t :: t in S && |t| == 2 {
      var t :| t in S && |t| == 2;
      HasDimWitness(S, t, 1);
    }
  }

  /** The graph case (GeneralisedFormanRicci.py:89): in a closed complex
      without triangles the edge [a, b] has curvature 4 - deg a - deg b.
      The edge dimension i = 1 is passed as a variable. */
  lemma GraphEdgeXor(S: Complex, i: nat, s: Simplex)
    requires Closed(S) && i == 1 && |NFaces(S, i + 1)| == 0 && s in S && |s| == i + 1
    ensures XorValue(S, s) + Degree(S, s[0]) as real + Degree(S, s[1]) as real == 4.0
  {
    var m := IndexOf(NFaces(S, i), s).value;
    GraphXor(S, i, m);
  }

  /** In that case every stored edge value lies between 4 - 2|E| and 2. */
  lemma GraphEdgeBounds(S: Complex, q: nat, i: nat)
    requires Closed(S) && i == 1 && q >= 1 && |NFaces(S, i + 1)| == 0
    ensures var level, E := EdgeLevelOf(XorDict(S, q)), NFaces(S, i);
      forall t :: t in level ==> 4.0 - 2.0 * |E| as real <= level[t] <= 2.0
  {
    XorDictEdges(S, q);
    var level, E := EdgeLevelOf(XorDict(S, q)), NFaces(S, i);
    forall t | t in level ensures 4.0 - 2.0 * |E| as real <= level[t] <= 2.0 {
      GraphEdgeXor(S, i, t);
      var j := IndexOf(E, t).value;
      EndDegrees(S, i, j, t[0]);
    }
  }

  /** In a graph complex a node with neighbours, all of whose edges are
      stored, gets an average of at most 2. */
  lemma GraphNodeBound(S: Complex, q: nat, i: nat, v: int, ns: seq<int>)
    requires Closed(S) && i == 1 && q >= 1 && |NFaces(S, i + 1)| == 0
    requires |ns| > 0 && NodeValue(EdgeLevelOf(XorDict(S, q)), v, ns).Ok?
    ensures 4.0 - 2.0 * |NFaces(S, i)| as real <= NodeValue(EdgeLevelOf(XorDict(S, q)), v, ns).value <= 2.0
  {
    GraphEdgeBounds(S, q, i);
    NodeValueBounds(EdgeLevelOf(XorDict(S, q)), v, ns, 4.0 - 2.0 * |NFaces(S, i)| as real, 2.0);
  }

  /** One pass of the first loop as written (lines 103-115): `bop_data`
      holds B_1 .. B_|bops|, so `bop_data[l-1]` fails for l > |bops|, and
      `forman_dict` is a plain `dict()`, so `forman_dict[l-1]` fails for a
      level not yet present. */
  function VisitAsWritten(S: Complex, bops: seq<Matrix>, q: nat, fd: FormanDict, s: Simplex): Result<FormanDict>
    requires bops == BopData(S, |bops|)
  {
    var l := |s|;
    if 2 <= l <= q + 1 then
      match IndexOf(NFaces(S, l - 1), s)
      case None => Err(KeyNotFound)
      case Some(m) =>
        var i := l - 1;
        if i >= |bops| then Err(IndexOutOfRange)
        else if i !in fd then Err(KeyNotFound)
        else
          XorFromBops(S, bops, i, m);
          var v := XorFormula(bops[i], bops[i - 1], |NFaces(S, i)|, |NFaces(S, i + 1)|, m, i + 1) as real;
          Ok(fd[i := fd[i][s := v]])
    else Ok(fd)
  }

  /** The first loop as written, over S[..k], from the empty dictionary. */
  function LoopAsWritten(S: Complex, bops: seq<Matrix>, q: nat, k: nat): Result<FormanDict>
    requires bops == BopData(S, |bops|) && k <= |S|
  {
    if k == 0 then Ok(map[])
    else match LoopAsWritten(S, bops, q, k - 1)
      case Err(e) => Err(e)
      case Ok(fd) => VisitAsWritten(S, bops, q, fd, S[k - 1])
  }

  /** As written, the loop succeeds only while it meets no simplex in
      range, and then it has stored nothing. */
  lemma {:induction false} AsWrittenOk(S: Complex, bops: seq<Matrix>, q: nat, k: nat)
    requires bops == BopData(S, |bops|) && k <= |S|
    ensures LoopAsWritten(S, bops, q, k).Ok? <==> forall j :: 0 <= j < k ==> !(2 <= |S[j]| <= q + 1)
    ensures LoopAsWritten(S, bops, q, k).Ok? ==> LoopAsWritten(S, bops, q, k).value == map[]
  {
    if k > 0 {
      AsWrittenOk(S, bops, q, k - 1);
      assert S[k - 1] in S;
    }
  }

  /** A failure is the failure of the rest of the loop. */
  lemma {:induction false} AsWrittenErr(S: Complex, bops: seq<Matrix>, q: nat, k: nat, n: nat)
    requires bops == BopData(S, |bops|) && k <= n <= |S| && LoopAsWritten(S, bops, q, k).Err?
    ensures LoopAsWritten(S, bops, q, n) == LoopAsWritten(S, bops, q, k)
    decreases n - k
  {
    if k < n {
      AsWrittenErr(S, bops, q, k, n - 1);
    }
  }

  /** As written, the loop fails at the first simplex j in range: with an
      index error when B_l is missing, and otherwise because the plain
      dictionary has no level l - 1. */
  lemma AsWrittenFirst(S: Complex, bops: seq<Matrix>, q: nat, j: nat)
    requires bops == BopData(S, |bops|) && j < |S| && 2 <= |S[j]| <= q + 1
    requires forall k :: 0 <= k < j ==> !(2 <= |S[k]| <= q + 1)
    ensures LoopAsWritten(S, bops, q, |S|) == if |S[j]| - 1 >= |bops| then Err(IndexOutOfRange) else Err(KeyNotFound)
  {
    AsWrittenOk(S, bops, q, j);
    assert S[j] in S;
    AsWrittenErr(S, bops, q, j + 1, |S|);
  }

  /** The graph case, p = 1: the loop as written stops at the first edge,
      reading `bop_data[1]` from a list holding only B_1. */
  lemma AsWrittenEdgeExample()
    ensures var S := [[0], [1], [0, 1]];
      LoopAsWritten(S, BopData(S, Bound(1)), Bound(1), |S|) == Err(IndexOutOfRange)
  {
    var S := [[0], [1], [0, 1]];
    var bops := BopData(S, 1);
    AsWrittenFirst(S, bops, 1, 2);
  }

  /** The same edge with p = 2: `bop_data[1]` now exists, and the store
      fails on the plain dictionary instead. */
  lemma AsWrittenStoreExample()
    ensures var S := [[0], [1], [0, 1]];
      LoopAsWritten(S, BopData(S, Bound(2)), Bound(2), |S|) == Err(KeyNotFound)
  {
    var S := [[0], [1], [0, 1]];
    var bops := BopData(S, 2);
    AsWrittenFirst(S, bops, 2, 2);
  }

  /** One pass of the vertex loop as written (lines 118-128): a node with
      neighbours calls `self.G.neighbor`, which networkx graphs do not
      have, and a node without neighbours stores into `forman_dict[0]`,
      which the plain dictionary holds only once it was created. */
  function VertexVisitAsWritten(fd: FormanDict, deg: nat, v: int): Result<FormanDict>
  {
    if deg > 0 then Err(AttributeMissing)
    else if 0 !in fd then Err(KeyNotFound)
    else Ok(fd[0 := fd[0][[v] := 0.0]])
  }

  /** The vertex loop as written over the first k nodes. */
  function VertexLoopAsWritten(fd: FormanDict, G: Graph, k: nat): Result<FormanDict>
    requires WellFormed(G) && k <= |G.nodes|
  {
    if k == 0 then Ok(fd)
    else match VertexLoopAsWritten(fd, G, k - 1)
      case Err(e) => Err(e)
      case Ok(fd') =>
        var v := G.nodes[k - 1];
        VertexVisitAsWritten(fd', |G.adj[v]|, v)
  }

  /** `compute_forman(p)` as written: p raised to at least 1, B_1 .. B_p
      built (failing on a missing face), the first loop, then the vertex
      loop, all on a plain `dict()`. */
  function ComputeFormanAsWritten(S: Complex, G: Graph, p: int): Result<FormanDict>
    requires WellFormed(G)
  {
    var q := Bound(p);
    if !FacesPresentUpTo(S, q) then Err(KeyNotFound)
    else match LoopAsWritten(S, BopData(S, q), q, |S|)
      case Err(e) => Err(e)
      case Ok(fd) => VertexLoopAsWritten(fd, G, |G.nodes|)
  }

  /** Started from the empty dictionary, the vertex loop as written fails
      at its first node. */
  lemma {:induction false} VertexAsWrittenFails(G: Graph, k: nat)
    requires WellFormed(G) && k <= |G.nodes|
    ensures VertexLoopAsWritten(map[], G, k).Ok? <==> k == 0
  {
    if k > 1 {
      VertexAsWrittenFails(G, k - 1);
    }
  }

  /** As written, `compute_forman` succeeds only on a graph without nodes
      whose complex has no simplex of dimension 1 to p: on every graph with
      a node it fails. */
  lemma AsWrittenAlwaysFails(S: Complex, G: Graph, p: int)
    requires WellFormed(G)
    ensures ComputeFormanAsWritten(S, G, p).Ok? <==>
      FacesPresentUpTo(S, Bound(p)) && |G.nodes| == 0 && forall j :: 0 <= j < |S| ==> !(2 <= |S[j]| <= Bound(p) + 1)
  {
    var q := Bound(p);
    var bops := BopData(S, q);
    AsWrittenOk(S, bops, q, |S|);
    VertexAsWrittenFails(G, |G.nodes|);
  }
}
