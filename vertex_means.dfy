/** What `forman_dict` holds (frc.py:179-205): it is determined by the
    complex, `cnt[x]` is the degree of the vertex x, the vertex entry is the
    mean of the values of the edges at x, and in a graph the edge entries
    are 4 - deg a - deg b. */
module VertexMeans {
  import opened Sums
  import opened Results
  import opened Simplices
  import opened Boundary
  import opened Laplacian
  import opened EdgeAdjacency
  import opened PointCloudForman
  import opened EngineGraphCase
  import opened FormanDictionary

  /** An edge holds a vertex at most once. */
  lemma EdgeHitsOnce(s: Simplex, x: int)
    requires IsEdge(s)
    ensures Hits(s, x, |s|) == if x in s then 1 else 0
  {
    assert s == [s[0], s[1]];
    assert Hits(s, x, 1) == if s[0] == x then 1 else 0;
  }

  /** No position of s holds a vertex that is not in s. */
  lemma {:induction false} HitsAbsent(s: Simplex, x: int, k: nat)
    requires k <= |s| && x !in s
    ensures Hits(s, x, k) == 0
  {
    if k > 0 {
      HitsAbsent(s, x, k - 1);
    }
  }

  /** Over a list of edges, the count `cnt[x]` is the number of edges
      holding x. */
  lemma {:induction false} EdgeHitsCount(E: seq<Simplex>, x: int, n: nat)
    requires n <= |E| && forall j :: 0 <= j < |E| ==> IsEdge(E[j])
    ensures EdgeHits(E, x, n) == Count(n, (c: nat) => c < |E| && x in E[c])
  {
    if n > 0 {
      EdgeHitsCount(E, x, n - 1);
      EdgeHitsOnce(E[n - 1], x);
    }
  }

  /** On a closed complex the edge loop leaves `cnt[x]` equal to the
      degree of x. */
  lemma CountIsDegree(S: Complex, x: int)
    requires Closed(S)
    ensures EdgeHits(NFaces(S, 1), x, |NFaces(S, 1)|) == Degree(S, x)
  {
    var E := NFaces(S, 1);
    forall j | 0 <= j < |E| ensures IsEdge(E[j]) {
      var k := SourceInComplex(S, 1, j);
    }
    EdgeHitsCount(E, x, |E|);
  }

  /** The count is positive exactly when some edge among the first n
      holds x. */
  lemma {:induction false} EdgeHitsPositive(E: seq<Simplex>, x: int, n: nat)
    requires n <= |E|
    ensures EdgeHits(E, x, n) > 0 <==> exists j :: 0 <= j < n && x in E[j]
  {
    if n > 0 {
      EdgeHitsPositive(E, x, n - 1);
      if x in E[n - 1] {
        var a :| 0 <= a < |E[n - 1]| && E[n - 1][a] == x;
        HitsAtLeastOne(E[n - 1], x, a, |E[n - 1]|);
      } else {
        HitsAbsent(E[n - 1], x, |E[n - 1]|);
      }
    }
  }

  lemma {:induction false} HitsAtLeastOne(s: Simplex, x: int, a: nat, k: nat)
    requires a < k <= |s| && s[a] == x
    ensures Hits(s, x, k) >= 1
  {
    if a < k - 1 {
      HitsAtLeastOne(s, x, a, k - 1);
    }
  }

  /** Adding w once per hit adds the number of hits times w. */
  lemma {:induction false} HitsValueScale(s: Simplex, x: int, k: nat, w: real)
    requires k <= |s|
    ensures HitsValue(s, x, k, w) == (Hits(s, x, k) as real) * w
  {
    if k > 0 {
      HitsValueScale(s, x, k - 1, w);
    }
  }

  /** When every edge holding x has a value between lo and hi, the total
      `vals[x]` lies between lo and hi times the count `cnt[x]`. */
  lemma {:induction false} EdgeTotalBounds(E: seq<Simplex>, W: seq<real>, x: int, n: nat, lo: real, hi: real)
    requires n <= |E| == |W|
    requires forall j :: 0 <= j < n && x in E[j] ==> lo <= W[j] <= hi
    ensures Between(lo, hi, EdgeHits(E, x, n) as real, EdgeTotal(E, W, x, n))
  {
    if n > 0 {
      EdgeTotalBounds(E, W, x, n - 1, lo, hi);
      var s, w := E[n - 1], W[n - 1];
      HitsValueScale(s, x, |s|, w);
      if x !in s {
        HitsAbsent(s, x, |s|);
      }
      var c, t, h := EdgeHits(E, x, n - 1) as real, EdgeTotal(E, W, x, n - 1), Hits(s, x, |s|) as real;
      StepBounds(c, t, h, w, lo, hi, EdgeHits(E, x, n) as real, EdgeTotal(E, W, x, n));
    } else {
      StepBounds(0.0, 0.0, 0.0, 0.0, lo, hi, EdgeHits(E, x, n) as real, EdgeTotal(E, W, x, n));
    }
  }

  /** t lies between lo and hi times c. */
  predicate Between(lo: real, hi: real, c: real, t: real)
  {
    lo * c <= t <= hi * c
  }

  /** One step of EdgeTotalBounds: adding h copies of a value w that lies
      between lo and hi (or no copies at all). */
  lemma StepBounds(c: real, t: real, h: real, w: real, lo: real, hi: real, c': real, t': real)
    requires Between(lo, hi, c, t) && h >= 0.0 && (h != 0.0 ==> lo <= w <= hi)
    requires c' == c + h && t' == t + h * w
    ensures Between(lo, hi, c', t')
  {
    assert (w - lo) * h >= 0.0;
    assert (hi - w) * h >= 0.0;
  }

  /** The vertex entry of a vertex on some edge is a mean: lo <= mean <= hi
      whenever every edge holding x has a value between lo and hi. */
  lemma MeanBounds(E: seq<Simplex>, W: seq<real>, x: int, lo: real, hi: real)
    requires |E| == |W| && exists j :: 0 <= j < |E| && x in E[j]
    requires forall j :: 0 <= j < |E| && x in E[j] ==> lo <= W[j] <= hi
    ensures lo <= Mean(E, W, x) <= hi
  {
    EdgeHitsPositive(E, x, |E|);
    EdgeTotalBounds(E, W, x, |E|, lo, hi);
    var c := EdgeHits(E, x, |E|) as real;
    var t := EdgeTotal(E, W, x, |E|);
    assert Mean(E, W, x) == t / c;
    DivideBounds(t, c, lo, hi);
  }

  lemma DivideBounds(t: real, c: real, lo: real, hi: real)
    requires c > 0.0 && lo * c <= t <= hi * c
    ensures lo <= t / c <= hi
  {
    var m := t / c;
    assert m * c == t;
    assert (m - lo) * c >= 0.0;
    assert (hi - m) * c >= 0.0;
  }

  /** A vertex on no edge gets 0, and a vertex on some edge gets the total
      divided by the count: mean times count is the total. */
  lemma MeanCases(E: seq<Simplex>, W: seq<real>, x: int)
    requires |E| == |W|
    ensures (forall j :: 0 <= j < |E| ==> x !in E[j]) ==> Mean(E, W, x) == 0.0
    ensures (exists j :: 0 <= j < |E| && x in E[j]) ==>
      Mean(E, W, x) * (EdgeHits(E, x, |E|) as real) == EdgeTotal(E, W, x, |E|)
  {
    EdgeHitsPositive(E, x, |E|);
  }

  /** Two dictionaries describing the same simplices with the same
      values are equal. */
  lemma DescribesUnique(T: seq<Simplex>, q: nat, vals: map<Simplex, real>, a: FormanDict, b: FormanDict)
    requires Describes(T, q, vals, a) && Describes(T, q, vals, b)
    ensures a == b
  {
    forall d | d in a ensures d in b && a[d] == b[d] {
      assert d in b;
      forall s ensures s in a[d] <==> s in b[d] {
        assert s in a[d] <==> s in T && |s| == d + 1;
        assert s in b[d] <==> s in T && |s| == d + 1;
      }
      forall s | s in a[d] ensures a[d][s] == b[d][s] {
        assert a[d][s] == vals[s];
      }
      MapExt(a[d], b[d]);
    }
    MapExt(a, b);
  }

  /** Maps with the same keys and the same values are equal. */
  lemma MapExt<K, V>(a: map<K, V>, b: map<K, V>)
    requires forall k :: k in a <==> k in b
    requires forall k :: k in a ==> a[k] == b[k]
    ensures a == b
  {
  }

  /** `forman_dict` is determined by the engine: two dictionaries meeting
      IsFormanDict are equal. */
  lemma FormanDictUnique(e: Engine, a: FormanDict, b: FormanDict)
    requires Valid(e) && IsFormanDict(e, a) && IsFormanDict(e, b)
    ensures a == b
  {
    DescribesUnique(e.S, Bound(e.p), Values(e), a - {0}, b - {0});
    if 0 in a {
      LevelUnique(a[0], b[0], |NFaces(e.S, 0)|);
    }
    MapsFromParts(a, b);
  }

  /** Two vertex levels over the same n vertices with the same entries. */
  lemma LevelUnique(a: map<Simplex, real>, b: map<Simplex, real>, n: nat)
    requires forall t :: t in a <==> |t| == 1 && 0 <= t[0] < n
    requires forall t :: t in b <==> |t| == 1 && 0 <= t[0] < n
    requires forall i :: 0 <= i < n ==> [i] in a && [i] in b && a[[i]] == b[[i]]
    ensures a == b
  {
    forall t | t in a ensures a[t] == b[t] {
      assert t == [t[0]];
    }
    MapExt(a, b);
  }

  lemma MapsFromParts(a: FormanDict, b: FormanDict)
    requires a - {0} == b - {0}
    requires 0 in a <==> 0 in b
    requires 0 in a ==> a[0] == b[0]
    ensures a == b
  {
    forall d | d in a ensures d in b && a[d] == b[d] {
      if d != 0 {
        assert d in a - {0};
      }
    }
    forall d | d in b ensures d in a {
      if d != 0 {
        assert d in b - {0};
      }
    }
    MapExt(a, b);
  }

  /** In a closed complex without triangles the value stored for the
      edge [a, b] is 4 - deg a - deg b. The edge dimension i = 1 is
      passed as a variable. */
  lemma GraphEdgeValue(e: Engine, i: nat, m: nat)
    requires Valid(e) && Closed(e.S) && i == 1
    requires |NFaces(e.S, i + 1)| == 0 && m < |NFaces(e.S, i)|
    ensures |NFaces(e.S, i)[m]| == 2
    ensures EdgeValues(e)[m] + Degree(e.S, NFaces(e.S, i)[m][0]) as real + Degree(e.S, NFaces(e.S, i)[m][1]) as real == 4.0
  {
    GraphEdgeCurvature(e, Bound(e.p), i, m);
    var x := NFaces(e.S, i)[m];
    assert x in NFaces(e.S, i);
    assert EdgeValues(e)[m] == SimplexValue(e, x);
  }

  /** A vertex of some edge has degree at least 1 and at most the number
      of edges. */
  lemma DegreeBounds(S: Complex, y: int, j: nat)
    requires j < |NFaces(S, 1)| && y in NFaces(S, 1)[j]
    ensures 1 <= Degree(S, y) <= |NFaces(S, 1)|
  {
    var E := NFaces(S, 1);
    var P := (c: nat) => c < |E| && y in E[c];
    assert Degree(S, y) == Count(|E|, P);
    CountPositive(|E|, P, j);
    CountAtMost(|E|, P);
  }

  /** In a graph an edge at x has value at most 3 - deg x (its other end
      has degree at least 1) and at least 4 - 2|E|. */
  lemma GraphEdgeValueBounds(e: Engine, i: nat, x: int, j: nat)
    requires Valid(e) && Closed(e.S) && i == 1
    requires |NFaces(e.S, i + 1)| == 0 && j < |NFaces(e.S, i)| && x in NFaces(e.S, i)[j]
    ensures (4 - 2 * |NFaces(e.S, i)|) as real <= EdgeValues(e)[j] <= (3 - Degree(e.S, x)) as real
  {
    GraphEdgeValue(e, i, j);
    var a, b := NFaces(e.S, i)[j][0], NFaces(e.S, i)[j][1];
    EndDegrees(e.S, i, j, x);
    ValueBounds(EdgeValues(e)[j], Degree(e.S, a), Degree(e.S, b), Degree(e.S, x), |NFaces(e.S, i)|);
  }

  /** The two ends of an edge holding x: x is one of them, and both have
      degree between 1 and the number of edges. */
  lemma EndDegrees(S: Complex, i: nat, j: nat, x: int)
    requires i == 1 && j < |NFaces(S, i)| && |NFaces(S, i)[j]| == 2 && x in NFaces(S, i)[j]
    ensures x == NFaces(S, i)[j][0] || x == NFaces(S, i)[j][1]
    ensures 1 <= Degree(S, NFaces(S, i)[j][0]) <= |NFaces(S, i)|
    ensures 1 <= Degree(S, NFaces(S, i)[j][1]) <= |NFaces(S, i)|
  {
    var a, b := NFaces(S, i)[j][0], NFaces(S, i)[j][1];
    assert NFaces(S, i)[j] == [a, b];
    DegreeBounds(S, a, j);
    DegreeBounds(S, b, j);
  }

  lemma ValueBounds(w: real, da: int, db: int, dx: int, n: int)
    requires w + da as real + db as real == 4.0
    requires 1 <= da <= n && 1 <= db <= n && (dx == da || dx == db)
    ensures (4 - 2 * n) as real <= w <= (3 - dx) as real
  {
  }

  /** In a closed complex without triangles the vertex entry of a vertex
      of degree d >= 1 is at most 3 - d. */
  lemma GraphVertexMean(e: Engine, i: nat, x: int)
    requires Valid(e) && Closed(e.S) && i == 1
    requires |NFaces(e.S, i + 1)| == 0 && exists j :: 0 <= j < |NFaces(e.S, i)| && x in NFaces(e.S, i)[j]
    ensures Mean(NFaces(e.S, i), EdgeValues(e), x) <= (3 - Degree(e.S, x)) as real
  {
    var E, W := NFaces(e.S, i), EdgeValues(e);
    var lo, hi := (4 - 2 * |E|) as real, (3 - Degree(e.S, x)) as real;
    forall j | 0 <= j < |E| && x in E[j] ensures lo <= W[j] <= hi {
      GraphEdgeValueBounds(e, i, x, j);
    }
    MeanBounds(E, W, x, lo, hi);
  }
}
