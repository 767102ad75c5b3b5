/** The vertex loop of the graph-based `compute_forman`
    (GeneralisedFormanRicci.py:118-128): for each node v the curvatures of
    its edges are looked up under (v, n) or else (n, v), summed, and
    divided by the degree; a node without neighbours gets 0. */
module NeighbourAverage {
  import opened Sums
  import opened Sorting
  import opened Results
  import opened Simplices
  import opened VertexMeans

  /** The input graph: its nodes in iteration order and the neighbours of
      each node. */
  datatype Graph = Graph(nodes: seq<int>, adj: map<int, seq<int>>)

  /** Every node has a neighbour list. */
  predicate WellFormed(G: Graph)
  {
    forall v :: v in G.nodes ==> v in G.adj
  }

  /** `try: forman_dict[1][(v,n)] except: forman_dict[1][(n,v)]`. */
  function EdgeLookup(level: map<Simplex, real>, v: int, n: int): Result<real>
  {
    if [v, n] in level then Ok(level[[v, n]])
    else if [n, v] in level then Ok(level[[n, v]])
    else Err(KeyNotFound)
  }

  /** The lookup accepts either orientation of the edge, preferring
      (v, n), and fails only when neither is stored. */
  lemma EdgeLookupCases(level: map<Simplex, real>, v: int, n: int)
    ensures EdgeLookup(level, v, n).Ok? <==> [v, n] in level || [n, v] in level
    ensures [v, n] in level ==> EdgeLookup(level, v, n) == Ok(level[[v, n]])
    ensures [v, n] !in level && [n, v] in level ==> EdgeLookup(level, v, n) == Ok(level[[n, v]])
  {
  }

  /** A dictionary keyed by increasing tuples holds the edge {v, n} under
      [min, max]: the lookup finds it from either end. */
  lemma SortedEdgeLookup(level: map<Simplex, real>, v: int, n: int)
    requires v != n && (forall t :: t in level ==> StrictlySorted(t))
    requires (if v < n then [v, n] else [n, v]) in level
    ensures EdgeLookup(level, v, n) == EdgeLookup(level, n, v) == Ok(level[if v < n then [v, n] else [n, v]])
  {
    if v > n {
      assert !StrictlySorted([v, n]) by {
        assert [v, n][0] > [v, n][1];
      }
    } else {
      assert !StrictlySorted([n, v]) by {
        assert [n, v][0] > [n, v][1];
      }
    }
  }

  /** `cur_sum` after the neighbours ns, or the failed lookup. */
  function SumLookups(level: map<Simplex, real>, v: int, ns: seq<int>): Result<real>
  {
    if ns == [] then Ok(0.0)
    else match SumLookups(level, v, ns[..|ns| - 1])
      case Err(e) => Err(e)
      case Ok(t) =>
        match EdgeLookup(level, v, ns[|ns| - 1])
        case Err(e) => Err(e)
        case Ok(w) => Ok(t + w)
  }

  /** The sum succeeds exactly when every neighbour's edge is stored in
      one orientation or the other. */
  lemma {:induction false} SumLookupsOk(level: map<Simplex, real>, v: int, ns: seq<int>)
    ensures SumLookups(level, v, ns).Ok? <==> forall j :: 0 <= j < |ns| ==> [v, ns[j]] in level || [ns[j], v] in level
  {
    if ns != [] {
      var ns' := ns[..|ns| - 1];
      SumLookupsOk(level, v, ns');
      EdgeLookupCases(level, v, ns[|ns| - 1]);
      assert forall j :: 0 <= j < |ns'| ==> ns'[j] == ns[j];
    }
  }

  /** When every stored edge value lies between lo and hi, the sum over
      the neighbours lies between lo and hi times their number. */
  lemma {:induction false} SumLookupsBounds(level: map<Simplex, real>, v: int, ns: seq<int>, lo: real, hi: real)
    requires forall t :: t in level ==> lo <= level[t] <= hi
    requires SumLookups(level, v, ns).Ok?
    ensures Between(lo, hi, |ns| as real, SumLookups(level, v, ns).value)
  {
    if ns != [] {
      var ns' := ns[..|ns| - 1];
      SumLookupsBounds(level, v, ns', lo, hi);
      var w := EdgeLookup(level, v, ns[|ns| - 1]).value;
      StepBounds(|ns'| as real, SumLookups(level, v, ns').value, 1.0, w, lo, hi, |ns| as real, SumLookups(level, v, ns).value);
    }
  }

  /** A failure in a prefix of the neighbours is the failure of the whole
      sum. */
  lemma {:induction false} SumLookupsErr(level: map<Simplex, real>, v: int, ns: seq<int>, i: nat)
    requires i <= |ns| && SumLookups(level, v, ns[..i]).Err?
    ensures SumLookups(level, v, ns) == SumLookups(level, v, ns[..i])
    decreases |ns| - i
  {
    if i < |ns| {
      assert ns[..i + 1][..i] == ns[..i];
      SumLookupsErr(level, v, ns, i + 1);
    } else {
      assert ns[..i] == ns;
    }
  }

  /** The inner loop: `cur_sum` over the neighbours of v. */
  method NeighbourSum(level: map<Simplex, real>, v: int, ns: seq<int>) returns (res: Result<real>)
    ensures res == SumLookups(level, v, ns)
  {
    var cur := 0.0;
    for i := 0 to |ns|
      invariant SumLookups(level, v, ns[..i]) == Ok(cur)
    {
      assert ns[..i + 1][..i] == ns[..i];
      var w := EdgeLookup(level, v, ns[i]);
      if w.Err? {
        SumLookupsErr(level, v, ns, i + 1);
        return Err(w.error);
      }
      cur := cur + w.value;
    }
    assert ns[..|ns|] == ns;
    return Ok(cur);
  }

  /** `forman_dict[0][(v,)]` for one node: the mean over its neighbours,
      or 0 without neighbours. */
  function NodeValue(level: map<Simplex, real>, v: int, ns: seq<int>): Result<real>
  {
    if |ns| > 0 then
      match SumLookups(level, v, ns)
      case Err(e) => Err(e)
      case Ok(t) => Ok(t / (|ns| as real))
    else Ok(0.0)
  }

  /** A node with neighbours gets a value between the least and the
      greatest stored edge value. */
  lemma NodeValueBounds(level: map<Simplex, real>, v: int, ns: seq<int>, lo: real, hi: real)
    requires forall t :: t in level ==> lo <= level[t] <= hi
    requires |ns| > 0 && NodeValue(level, v, ns).Ok?
    ensures lo <= NodeValue(level, v, ns).value <= hi
  {
    SumLookupsBounds(level, v, ns, lo, hi);
    DivideBounds(SumLookups(level, v, ns).value, |ns| as real, lo, hi);
  }

  /** The vertex level after the first k nodes, or the first failure. */
  function Averages(level: map<Simplex, real>, G: Graph, k: nat): Result<map<Simplex, real>>
    requires WellFormed(G) && k <= |G.nodes|
  {
    if k == 0 then Ok(map[])
    else match Averages(level, G, k - 1)
      case Err(e) => Err(e)
      case Ok(lv) =>
        var v := G.nodes[k - 1];
        match NodeValue(level, v, G.adj[v])
        case Err(e) => Err(e)
        case Ok(x) => Ok(lv[[v] := x])
  }

  /** The vertex level succeeds exactly when every node's value does. */
  lemma {:induction false} AveragesOk(level: map<Simplex, real>, G: Graph, k: nat)
    requires WellFormed(G) && k <= |G.nodes|
    ensures Averages(level, G, k).Ok? <==> forall j :: 0 <= j < k ==> NodeValue(level, G.nodes[j], G.adj[G.nodes[j]]).Ok?
  {
    if k > 0 {
      AveragesOk(level, G, k - 1);
    }
  }

  /** A successful vertex level holds the key (v,) of each node and
      nothing else. */
  lemma {:induction false} AveragesKeys(level: map<Simplex, real>, G: Graph, k: nat)
    requires WellFormed(G) && k <= |G.nodes| && Averages(level, G, k).Ok?
    ensures forall t :: t in Averages(level, G, k).value <==> exists j :: 0 <= j < k && t == [G.nodes[j]]
  {
    if k > 0 {
      AveragesKeys(level, G, k - 1);
    }
  }

  /** The nodes being distinct, a successful vertex level holds each
      node's own value. */
  lemma {:induction false} AveragesValues(level: map<Simplex, real>, G: Graph, k: nat)
    requires WellFormed(G) && k <= |G.nodes| && NoDup(G.nodes) && Averages(level, G, k).Ok?
    ensures forall j :: 0 <= j < k ==>
      [G.nodes[j]] in Averages(level, G, k).value && NodeValue(level, G.nodes[j], G.adj[G.nodes[j]]).Ok? &&
      Averages(level, G, k).value[[G.nodes[j]]] == NodeValue(level, G.nodes[j], G.adj[G.nodes[j]]).value
  {
    if k > 0 {
      AveragesValues(level, G, k - 1);
      var v := G.nodes[k - 1];
      forall j | 0 <= j < k - 1 ensures [G.nodes[j]] != [v] {
        assert G.nodes[j] != v;
      }
    }
  }

  /** The outer loop over `G.nodes()`. */
  method VertexAverages(level: map<Simplex, real>, G: Graph) returns (res: Result<map<Simplex, real>>)
    requires WellFormed(G)
    ensures res == Averages(level, G, |G.nodes|)
  {
    var lv: map<Simplex, real> := map[];
    for k := 0 to |G.nodes|
      invariant Averages(level, G, k) == Ok(lv)
    {
      var v := G.nodes[k];
      assert v in G.nodes;
      var ns := G.adj[v];
      if |ns| > 0 {
        var sum := NeighbourSum(level, v, ns);
        if sum.Err? {
          AveragesErr(level, G, k + 1);
          return Err(sum.error);
        }
        lv := lv[[v] := sum.value / (|ns| as real)];
      } else {
        lv := lv[[v] := 0.0];
      }
    }
    return Ok(lv);
  }

  /** A failure after k nodes is the failure of the whole loop. */
  lemma {:induction false} AveragesErr(level: map<Simplex, real>, G: Graph, k: nat)
    requires WellFormed(G) && k <= |G.nodes| && Averages(level, G, k).Err?
    ensures Averages(level, G, |G.nodes|) == Averages(level, G, k)
    decreases |G.nodes| - k
  {
    if k < |G.nodes| {
      AveragesErr(level, G, k + 1);
    }
  }
}
