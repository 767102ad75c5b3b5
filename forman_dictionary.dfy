/** `compute_forman` of the point-cloud engine (frc.py:179-205): the
    dictionary `forman_dict` holding, for every dimension d from 1 to the
    clamped bound, the curvature of each d-simplex, and under key 0 the
    mean curvature of the edges at each vertex. */
module FormanDictionary {
  import opened Sums
  import opened Results
  import opened Simplices
  import opened Laplacian
  import opened PointCloudForman

  /** The dictionary: dimension, then simplex, then value. */
  type FormanDict = map<nat, map<Simplex, real>>

  /** `p = self.p`, raised to 1 when it is below 1. */
  function Bound(p: int): (q: nat)
    ensures q >= 1 && (p >= 0 ==> q <= p + 1)
    ensures p >= 1 ==> q == p
    ensures p < 1 ==> q == 1
  {
    if p < 1 then 1 else p
  }

  /** The curvature of a simplex of the complex whose dimension is in
      range: it is always found. */
  function SimplexValue(e: Engine, s: Simplex): (v: real)
    requires Valid(e) && s in e.S && 2 <= |s| <= Bound(e.p) + 1
    ensures Curvature(e, Bound(e.p), s) == Ok(Some(v.Floor))
    ensures v == v.Floor as real
  {
    CurvatureCases(e, Bound(e.p), s);
    Curvature(e, Bound(e.p), s).value.value as real
  }

  /** Some simplex of T has dimension d. */
  predicate HasDim(T: seq<Simplex>, d: nat)
  {
    exists s :: s in T && |s| == d + 1
  }

  /** The curvature of every simplex of the complex whose dimension is
      from 1 to the bound. */
  function Values(e: Engine): (vals: map<Simplex, real>)
    requires Valid(e)
    ensures forall s :: s in vals <==> s in e.S && 2 <= |s| <= Bound(e.p) + 1
  {
    map s | s in e.S && 2 <= |s| <= Bound(e.p) + 1 :: SimplexValue(e, s)
  }

  /** fd is `forman_dict` once the first loop has visited the simplices
      of T: one entry for each dimension d from 1 to q that T occupies,
      holding the value of each d-simplex of T. */
  ghost predicate Describes(T: seq<Simplex>, q: nat, vals: map<Simplex, real>, fd: FormanDict)
  {
    && (forall d :: d in fd <==> 1 <= d <= q && HasDim(T, d))
    && (forall d, s :: d in fd ==> (s in fd[d] <==> s in T && |s| == d + 1))
    && (forall d, s :: d in fd && s in fd[d] ==> s in vals && fd[d][s] == vals[s])
  }

  /** `forman_dict[d][s] = v` on a `defaultdict(dict)`: the inner
      dictionary is created empty on first use. */
  function Store(fd: FormanDict, d: nat, s: Simplex, v: real): (r: FormanDict)
    ensures r.Keys == fd.Keys + {d}
    ensures r[d] == (if d in fd then fd[d] else map[])[s := v]
    ensures forall k :: k in fd && k != d ==> r[k] == fd[k]
  {
    fd[d := (if d in fd then fd[d] else map[])[s := v]]
  }

  /** Visiting a simplex x whose dimension is in range stores its value. */
  lemma DescribesStore(T: seq<Simplex>, T': seq<Simplex>, q: nat, vals: map<Simplex, real>, x: Simplex, fd: FormanDict, d: nat, v: real)
    requires Describes(T, q, vals, fd) && 2 <= |x| <= q + 1 && x in vals && T' == T + [x]
    requires d == |x| - 1 && v == vals[x]
    ensures Describes(T', q, vals, Store(fd, d, x, v))
  {
    StoreKeys(T, T', q, vals, x, fd, d, v);
    StoreMembers(T, T', q, vals, x, fd, d, v);
    StoreValues(T, T', q, vals, x, fd, d, v);
  }

  lemma StoreKeys(T: seq<Simplex>, T': seq<Simplex>, q: nat, vals: map<Simplex, real>, x: Simplex, fd: FormanDict, d: nat, v: real)
    requires Describes(T, q, vals, fd) && 2 <= |x| <= q + 1 && T' == T + [x] && d == |x| - 1
    ensures forall k :: k in Store(fd, d, x, v) <==> 1 <= k <= q && HasDim(T', k)
  {
    forall k: nat ensures k in Store(fd, d, x, v) <==> 1 <= k <= q && HasDim(T', k) {
      HasDimStep(T, x, k);
    }
  }

  lemma StoreMembers(T: seq<Simplex>, T': seq<Simplex>, q: nat, vals: map<Simplex, real>, x: Simplex, fd: FormanDict, d: nat, v: real)
    requires Describes(T, q, vals, fd) && 2 <= |x| <= q + 1 && T' == T + [x] && d == |x| - 1
    ensures var r := Store(fd, d, x, v);
      forall k, s :: k in r ==> (s in r[k] <==> s in T' && |s| == k + 1)
  {
    var r := Store(fd, d, x, v);
    forall k, s | k in r ensures s in r[k] <==> s in T' && |s| == k + 1 {
      if k == d {
        assert s in r[k] <==> s == x || (k in fd && s in fd[k]);
      } else {
        assert r[k] == fd[k];
      }
    }
  }

  lemma StoreValues(T: seq<Simplex>, T': seq<Simplex>, q: nat, vals: map<Simplex, real>, x: Simplex, fd: FormanDict, d: nat, v: real)
    requires Describes(T, q, vals, fd) && x in vals && v == vals[x]
    ensures var r := Store(fd, d, x, v);
      forall k, s :: k in r && s in r[k] ==> s in vals && r[k][s] == vals[s]
  {
    var r := Store(fd, d, x, v);
    forall k, s | k in r && s in r[k] ensures s in vals && r[k][s] == vals[s] {
      if k != d {
        assert r[k] == fd[k];
      } else if s != x {
        assert k in fd && s in fd[k];
      }
    }
  }

  /** Visiting a simplex x whose dimension is out of range changes nothing. */
  lemma DescribesSkip(T: seq<Simplex>, T': seq<Simplex>, q: nat, vals: map<Simplex, real>, x: Simplex, fd: FormanDict)
    requires Describes(T, q, vals, fd) && !(2 <= |x| <= q + 1) && T' == T + [x]
    ensures Describes(T', q, vals, fd)
  {
    forall d: nat ensures d in fd <==> 1 <= d <= q && HasDim(T + [x], d) {
      HasDimStep(T, x, d);
    }
  }

  lemma HasDimWitness(T: seq<Simplex>, s: Simplex, d: nat)
    requires s in T && |s| == d + 1
    ensures HasDim(T, d)
  {
  }

  lemma HasDimStep(T: seq<Simplex>, x: Simplex, d: nat)
    ensures HasDim(T + [x], d) <==> HasDim(T, d) || |x| == d + 1
  {
    if HasDim(T + [x], d) {
      var s :| s in T + [x] && |s| == d + 1;
    }
    if HasDim(T, d) {
      var s :| s in T && |s| == d + 1;
      assert s in T + [x];
    }
    if |x| == d + 1 {
      assert x in T + [x];
    }
  }

  /** vals holds the curvature of every simplex of the complex in range. */
  ghost predicate Agree(e: Engine, vals: map<Simplex, real>)
    requires Valid(e)
  {
    forall s {:trigger SimplexValue(e, s)} :: s in e.S && 2 <= |s| <= Bound(e.p) + 1 ==> s in vals && vals[s] == SimplexValue(e, s)
  }

  lemma ValuesAgree(e: Engine)
    requires Valid(e)
    ensures Agree(e, Values(e))
  {
  }

  /** The first loop of `compute_forman`: every simplex of dimension 1 to
      the bound is stored with its curvature, computed by
      `_compute_forman` with the clamped bound. */
  method SimplexPass(e: Engine) returns (fd: FormanDict)
    requires Valid(e) && WithinBound(e)
    ensures Describes(e.S, Bound(e.p), Values(e), fd)
  {
    ValuesAgree(e);
    fd := FirstLoop(e, Values(e), e.S);
  }

  /** The loop itself, with the curvatures known to agree with vals. */
  method FirstLoop(e: Engine, ghost vals: map<Simplex, real>, simplices: seq<Simplex>) returns (fd: FormanDict)
    requires Valid(e) && Agree(e, vals) && forall s :: s in simplices ==> s in e.S && |s| <= e.p + 1
    ensures Describes(simplices, Bound(e.p), vals, fd)
  {
    fd := map[];
    for i := 0 to |simplices|
      invariant Describes(simplices[..i], Bound(e.p), vals, fd)
    {
      fd := Visit(e, vals, simplices, i, fd);
    }
    assert simplices[..|simplices|] == simplices;
  }

  lemma PrefixStep(xs: seq<Simplex>, i: nat)
    requires i < |xs|
    ensures xs[..i + 1] == xs[..i] + [xs[i]]
  {
  }

  /** One pass of the loop: with `p` clamped to at least 1, a simplex
      with 2 to p + 1 vertices is stored under `l - 1` with the value of
      `_compute_forman`; any other is skipped. */
  method Visit(e: Engine, ghost vals: map<Simplex, real>, simplices: seq<Simplex>, i: nat, fd: FormanDict)
    returns (fd': FormanDict)
    requires Valid(e) && Agree(e, vals) && i < |simplices|
    requires simplices[i] in e.S && |simplices[i]| <= e.p + 1
    requires Describes(simplices[..i], Bound(e.p), vals, fd)
    ensures Describes(simplices[..i + 1], Bound(e.p), vals, fd')
  {
    ghost var T, T' := simplices[..i], simplices[..i + 1];
    PrefixStep(simplices, i);
    var s := simplices[i];
    var p := e.p;
    if p < 1 {
      p := 1;
    }
    var l := |s|;
    if l <= p + 1 && l >= 2 {
      var v := SimplexCurvature(e, vals, s);
      DescribesStore(T, T', p, vals, s, fd, l - 1, v);
      fd' := Store(fd, l - 1, s, v);
    } else {
      DescribesSkip(T, T', p, vals, s, fd);
      fd' := fd;
    }
  }

  /** `self._compute_forman(simplex)` on a simplex of the complex in
      range: the lookup succeeds and gives its curvature. */
  method SimplexCurvature(e: Engine, ghost vals: map<Simplex, real>, s: Simplex) returns (v: real)
    requires Valid(e) && Agree(e, vals) && s in e.S && 2 <= |s| <= Bound(e.p) + 1 && |s| <= e.p + 1
    ensures s in vals && v == vals[s]
  {
    var r := ComputeFormanAt(e, s);
    FormanAtBound(e, Bound(e.p), s);
    CurvatureCases(e, Bound(e.p), s);
    v := r.value.value as real;
    assert v == SimplexValue(e, s);
  }

  /** The number of positions before k at which s holds x. */
  function Hits(s: Simplex, x: int, k: nat): nat
    requires k <= |s|
  {
    if k == 0 then 0 else Hits(s, x, k - 1) + (if s[k - 1] == x then 1 else 0)
  }

  /** w added once for each position before k at which s holds x. */
  function HitsValue(s: Simplex, x: int, k: nat, w: real): real
    requires k <= |s|
  {
    if k == 0 then 0.0 else HitsValue(s, x, k - 1, w) + (if s[k - 1] == x then w else 0.0)
  }

  /** `cnt[x]` after the first n edges of E. */
  function EdgeHits(E: seq<Simplex>, x: int, n: nat): nat
    requires n <= |E|
  {
    if n == 0 then 0 else EdgeHits(E, x, n - 1) + Hits(E[n - 1], x, |E[n - 1]|)
  }

  /** `vals[x]` after the first n edges of E, edge j adding W[j]. */
  function EdgeTotal(E: seq<Simplex>, W: seq<real>, x: int, n: nat): real
    requires n <= |E| == |W|
  {
    if n == 0 then 0.0 else EdgeTotal(E, W, x, n - 1) + HitsValue(E[n - 1], x, |E[n - 1]|, W[n - 1])
  }

  /** `vals[x] / cnt[x]`, or 0 for a vertex on no edge. */
  function Mean(E: seq<Simplex>, W: seq<real>, x: int): real
    requires |E| == |W|
  {
    if EdgeHits(E, x, |E|) > 0 then EdgeTotal(E, W, x, |E|) / (EdgeHits(E, x, |E|) as real) else 0.0
  }

  /** The curvature of each edge, in the order of `n_faces(S, 1)`. */
  function EdgeValues(e: Engine): (W: seq<real>)
    requires Valid(e)
    ensures |W| == |NFaces(e.S, 1)|
    ensures forall j :: 0 <= j < |W| ==> NFaces(e.S, 1)[j] in Values(e) && W[j] == Values(e)[NFaces(e.S, 1)[j]]
  {
    var E := NFaces(e.S, 1);
    seq(|E|, j requires 0 <= j < |E| => assert E[j] in E; Values(e)[E[j]])
  }

  /** The vertex labels of the edges index the vertex arrays: they run
      over 0 .. |V| - 1. */
  predicate LabelsInRange(S: Complex)
  {
    LabelsBelow(NFaces(S, 1), |NFaces(S, 0)|)
  }

  /** Every vertex of every edge of nbrs is below n. */
  predicate LabelsBelow(nbrs: seq<Simplex>, n: nat)
  {
    forall j, k :: 0 <= j < |nbrs| && 0 <= k < |nbrs[j]| ==> 0 <= nbrs[j][k] < n
  }

  /** `forman_dict[1]` holds each edge of nbrs, with the value in W at its
      position. */
  predicate EdgeLevel(fd: FormanDict, nbrs: seq<Simplex>, W: seq<real>)
    requires |W| == |nbrs|
  {
    forall j :: 0 <= j < |nbrs| ==> 1 in fd && nbrs[j] in fd[1] && fd[1][nbrs[j]] == W[j]
  }

  /** The whole of `forman_dict`: the simplex levels of the first loop,
      and under key 0, present when there are vertices, the vertex
      `(i,)` for each i < |V| with the mean curvature of its edges. */
  ghost predicate IsFormanDict(e: Engine, fd: FormanDict)
    requires Valid(e)
  {
    var V, E := NFaces(e.S, 0), NFaces(e.S, 1);
    && Describes(e.S, Bound(e.p), Values(e), fd - {0})
    && (0 in fd <==> |V| > 0)
    && (0 in fd ==> forall t :: t in fd[0] <==> |t| == 1 && 0 <= t[0] < |V|)
    && (0 in fd ==> forall i :: 0 <= i < |V| ==> [i] in fd[0] && fd[0][[i]] == Mean(E, EdgeValues(e), i))
  }

  /** `compute_forman`: the first loop, then the edge loop accumulating
      `vals` and `cnt` per vertex, then the vertex means. */
  method ComputeForman(e: Engine) returns (fd: FormanDict)
    requires Valid(e) && WithinBound(e) && LabelsInRange(e.S)
    ensures IsFormanDict(e, fd)
  {
    var levels := SimplexPass(e);
    var V := NFaces(e.S, 0);
    var nbrs := NFaces(e.S, 1);
    ghost var W := EdgeValues(e);
    EdgeEntries(e, levels, nbrs, W);
    var level := VertexLevel(levels, nbrs, W, |V|);
    fd := WithVertices(levels, level, |V|);
    Assembled(e, levels, level);
  }

  /** The second half of `compute_forman`: `vals` and `cnt` start at zero
      for each of the n vertices, the edge loop fills them, and the vertex
      loop turns them into means. */
  method VertexLevel(fd: FormanDict, nbrs: seq<Simplex>, ghost W: seq<real>, n: nat) returns (level: map<Simplex, real>)
    requires |W| == |nbrs|
    requires EdgeLevel(fd, nbrs, W) && LabelsBelow(nbrs, n)
    ensures forall t :: t in level <==> |t| == 1 && 0 <= t[0] < n
    ensures forall x :: 0 <= x < n ==> [x] in level && level[[x]] == Mean(nbrs, W, x)
  {
    var cnt := new int[n](_ => 0);
    var vals := new real[n](_ => 0.0);
    AccumulateEdges(fd, nbrs, W, cnt, vals);
    level := MeanLevel(nbrs, W, cnt, vals);
  }

  /** `forman_dict[0][(i,)] = ...` for each of the n vertices: key 0 is
      created by the first assignment, so only when n > 0. */
  function WithVertices(levels: FormanDict, level: map<Simplex, real>, n: nat): (fd: FormanDict)
    ensures 0 in fd <==> 0 in levels || n > 0
    ensures n > 0 ==> fd[0] == level
    ensures forall d :: d in levels && d != 0 ==> d in fd && fd[d] == levels[d]
  {
    if n > 0 then levels[0 := level] else levels
  }

  /** The simplex levels with the vertex level added under key 0 when
      there are vertices make up `forman_dict`. */
  lemma Assembled(e: Engine, levels: FormanDict, level: map<Simplex, real>)
    requires Valid(e) && Describes(e.S, Bound(e.p), Values(e), levels)
    requires forall t :: t in level <==> |t| == 1 && 0 <= t[0] < |NFaces(e.S, 0)|
    requires forall x :: 0 <= x < |NFaces(e.S, 0)| ==> [x] in level && level[[x]] == Mean(NFaces(e.S, 1), EdgeValues(e), x)
    ensures IsFormanDict(e, WithVertices(levels, level, |NFaces(e.S, 0)|))
  {
    DropVertexLevel(levels, level, |NFaces(e.S, 0)| > 0);
  }

  /** Adding the vertex level under key 0 leaves the simplex levels as
      they were. */
  lemma DropVertexLevel(levels: FormanDict, level: map<Simplex, real>, added: bool)
    requires 0 !in levels
    ensures (if added then levels[0 := level] else levels) - {0} == levels
  {
  }

  /** The edge loop: for each edge `vertex` of nbrs, `forman_dict[1][vertex]`
      is added to `vals` and 1 to `cnt` at each of its vertices. */
  method AccumulateEdges(fd: FormanDict, nbrs: seq<Simplex>, ghost W: seq<real>, cnt: array<int>, vals: array<real>)
    requires |W| == |nbrs| && cnt.Length == vals.Length
    requires EdgeLevel(fd, nbrs, W) && LabelsBelow(nbrs, cnt.Length)
    requires forall x :: 0 <= x < cnt.Length ==> cnt[x] == 0 && vals[x] == 0.0
    modifies cnt, vals
    ensures forall x :: 0 <= x < cnt.Length ==> cnt[x] == EdgeHits(nbrs, x, |nbrs|) && vals[x] == EdgeTotal(nbrs, W, x, |nbrs|)
  {
    for j := 0 to |nbrs|
      invariant forall x :: 0 <= x < cnt.Length ==> cnt[x] == EdgeHits(nbrs, x, j) && vals[x] == EdgeTotal(nbrs, W, x, j)
    {
      AddEdge(nbrs[j], fd[1][nbrs[j]], cnt, vals);
    }
  }

  /** The inner loop over the vertices of one edge. */
  method AddEdge(vertex: Simplex, w: real, cnt: array<int>, vals: array<real>)
    requires cnt.Length == vals.Length
    requires forall k :: 0 <= k < |vertex| ==> 0 <= vertex[k] < cnt.Length
    modifies cnt, vals
    ensures forall x :: 0 <= x < cnt.Length ==>
      cnt[x] == old(cnt[x]) + Hits(vertex, x, |vertex|) && vals[x] == old(vals[x]) + HitsValue(vertex, x, |vertex|, w)
  {
    for k := 0 to |vertex|
      invariant forall x :: 0 <= x < cnt.Length ==>
        cnt[x] == old(cnt[x]) + Hits(vertex, x, k) && vals[x] == old(vals[x]) + HitsValue(vertex, x, k, w)
    {
      var v := vertex[k];
      vals[v] := vals[v] + w;
      cnt[v] := cnt[v] + 1;
    }
  }

  /** The vertex loop: `(i,)` gets `vals[i] / cnt[i]`, or 0 when the
      vertex is on no edge. */
  method MeanLevel(nbrs: seq<Simplex>, ghost W: seq<real>, cnt: array<int>, vals: array<real>) returns (level: map<Simplex, real>)
    requires |W| == |nbrs| && cnt.Length == vals.Length
    requires forall x :: 0 <= x < cnt.Length ==> cnt[x] == EdgeHits(nbrs, x, |nbrs|) && vals[x] == EdgeTotal(nbrs, W, x, |nbrs|)
    ensures forall t :: t in level <==> |t| == 1 && 0 <= t[0] < cnt.Length
    ensures forall x :: 0 <= x < cnt.Length ==> [x] in level && level[[x]] == Mean(nbrs, W, x)
  {
    level := map[];
    for i := 0 to cnt.Length
      invariant forall t :: t in level <==> |t| == 1 && 0 <= t[0] < i
      invariant forall x :: 0 <= x < i ==> [x] in level && level[[x]] == Mean(nbrs, W, x)
    {
      SingletonKey(i);
      if cnt[i] > 0 {
        level := level[[i] := vals[i] / (cnt[i] as real)];
      } else {
        level := level[[i] := 0.0];
      }
    }
  }

  lemma SingletonKey(i: int)
    ensures forall t: Simplex :: |t| == 1 && t[0] == i ==> t == [i]
  {
  }

  /** Every edge is stored under key 1 with its curvature. */
  lemma EdgeEntries(e: Engine, fd: FormanDict, E: seq<Simplex>, W: seq<real>)
    requires Valid(e) && Describes(e.S, Bound(e.p), Values(e), fd)
    requires E == NFaces(e.S, 1) && W == EdgeValues(e)
    ensures |W| == |E|
    ensures EdgeLevel(fd, E, W)
  {
    forall j | 0 <= j < |E| ensures E[j] in e.S && |E[j]| == 2 {
      assert E[j] in E;
    }
    LevelEntries(e.S, Bound(e.p), Values(e), fd, E, W);
  }

  /** The simplices of E, all edges of T with their values in W, sit
      under key 1 of a dictionary describing T. */
  lemma LevelEntries(T: seq<Simplex>, q: nat, vals: map<Simplex, real>, fd: FormanDict, E: seq<Simplex>, W: seq<real>)
    requires Describes(T, q, vals, fd) && 1 <= q && |W| == |E|
    requires forall j :: 0 <= j < |E| ==> E[j] in T && |E[j]| == 2
    requires forall j :: 0 <= j < |E| ==> E[j] in vals && W[j] == vals[E[j]]
    ensures EdgeLevel(fd, E, W)
  {
    forall j | 0 <= j < |E| ensures 1 in fd && E[j] in fd[1] && fd[1][E[j]] == W[j] {
      HasDimWitness(T, E[j], 1);
    }
  }
}
