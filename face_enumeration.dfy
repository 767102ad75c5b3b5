/** The face enumerator: `faces` (frc.py:39-46, repeated verbatim at
    GeneralisedFormanRicci.py:26-33) and `import_simplices`
    (GeneralisedFormanRicci.py:21-24). */
module FaceEnumeration {
  import opened Sorting
  import opened Sums
  import opened Simplices

  /** Puts x in front of every member of cs. */
  function Prepend(x: int, cs: seq<seq<int>>): (r: seq<seq<int>>)
    ensures |r| == |cs|
    ensures forall k :: 0 <= k < |cs| ==> r[k] == [x] + cs[k]
  {
    seq(|cs|, k requires 0 <= k < |cs| => [x] + cs[k])
  }

  /** `itertools.combinations(s, r)`: the r-element subsequences of s, in
      lexicographic order of the chosen positions. */
  function Combinations(s: seq<int>, r: nat): seq<seq<int>>
    decreases |s|
  {
    if r == 0 then [[]]
    else if |s| < r then []
    else Prepend(s[0], Combinations(s[1..], r - 1)) + Combinations(s[1..], r)
  }

  /** The combinations of size r are exactly the subsequences of length r. */
  lemma {:induction false} CombinationsSpec(s: seq<int>, r: nat, c: seq<int>)
    ensures c in Combinations(s, r) <==> IsSubseq(c, s) && |c| == r
    decreases |s|
  {
    if r == 0 {
    } else if |s| < r {
      if IsSubseq(c, s) { SubseqLength(c, s); }
    } else {
      var left, right := Prepend(s[0], Combinations(s[1..], r - 1)), Combinations(s[1..], r);
      assert Combinations(s, r) == left + right;
      CombinationsSpec(s[1..], r, c);
      PrependMember(s[0], Combinations(s[1..], r - 1), c);
      if c != [] {
        CombinationsSpec(s[1..], r - 1, c[1..]);
      }
    }
  }

  /** The members of Prepend(x, cs) are x followed by a member of cs. */
  lemma PrependMember(x: int, cs: seq<seq<int>>, c: seq<int>)
    ensures c in Prepend(x, cs) <==> c != [] && c[0] == x && c[1..] in cs
  {
    var left := Prepend(x, cs);
    if c in left {
      var k :| 0 <= k < |left| && left[k] == c;
      assert c[1..] == cs[k];
    }
    if c != [] && c[0] == x && c[1..] in cs {
      assert c == [x] + c[1..];
      var k :| 0 <= k < |cs| && cs[k] == c[1..];
      assert left[k] == c;
    }
  }

  /** t is a face of the generator x: the sorted form of a non-empty
      subsequence of x. */
  ghost predicate IsFaceOfSimplex(t: seq<int>, x: seq<int>)
  {
    exists c :: IsSubseq(c, x) && c != [] && t == Sort(c)
  }

  /** t is a face of one of the generators. */
  ghost predicate IsFaceOf(t: seq<int>, gens: seq<seq<int>>)
  {
    exists i :: 0 <= i < |gens| && IsFaceOfSimplex(t, gens[i])
  }

  /** The faces of x drawn from subsequences longer than lo. */
  ghost predicate IsFaceLongerThan(t: seq<int>, x: seq<int>, lo: nat)
  {
    exists c :: IsSubseq(c, x) && lo < |c| && t == Sort(c)
  }

  /** t is the sorted form of one of the first q combinations. */
  ghost predicate AmongSorted(t: seq<int>, combos: seq<seq<int>>, q: nat)
    requires q <= |combos|
  {
    exists j :: 0 <= j < q && t == Sort(combos[j])
  }

  /** No subsequence of x is longer than x. */
  lemma NoFaceLongerThanSimplex(t: seq<int>, x: seq<int>)
    ensures !IsFaceLongerThan(t, x, |x|)
  {
    forall c | IsSubseq(c, x) ensures |c| <= |x| { SubseqLength(c, x); }
  }

  /** One pass of the loop over r adds the sorted r-combinations. */
  lemma FaceLongerThanStep(t: seq<int>, x: seq<int>, r: nat)
    requires 0 < r
    ensures IsFaceLongerThan(t, x, r - 1) <==>
      IsFaceLongerThan(t, x, r) || AmongSorted(t, Combinations(x, r), |Combinations(x, r)|)
  {
    var combos := Combinations(x, r);
    if IsFaceLongerThan(t, x, r - 1) {
      var c :| IsSubseq(c, x) && r - 1 < |c| && t == Sort(c);
      if |c| == r {
        CombinationsSpec(x, r, c);
        var j :| 0 <= j < |combos| && combos[j] == c;
      }
    }
    if AmongSorted(t, combos, |combos|) {
      var j :| 0 <= j < |combos| && t == Sort(combos[j]);
      CombinationsSpec(x, r, combos[j]);
    }
  }

  lemma FaceLongerThanZero(t: seq<int>, x: seq<int>)
    ensures IsFaceLongerThan(t, x, 0) <==> IsFaceOfSimplex(t, x)
  {
    if IsFaceOfSimplex(t, x) {
      var c :| IsSubseq(c, x) && c != [] && t == Sort(c);
    }
  }

  /** The faces of a longer prefix of the generators. */
  lemma FaceOfPrefix(t: seq<int>, gens: seq<seq<int>>, k: nat)
    requires k < |gens|
    ensures IsFaceOf(t, gens[..k + 1]) <==> IsFaceOf(t, gens[..k]) || IsFaceOfSimplex(t, gens[k])
  {
    var p, q := gens[..k], gens[..k + 1];
    assert forall i :: 0 <= i < k ==> p[i] == gens[i];
    assert forall i :: 0 <= i <= k ==> q[i] == gens[i];
  }

  /** The innermost loop of `faces`: adds every combination, sorted. */
  method AddSorted(faceset: set<seq<int>>, combos: seq<seq<int>>) returns (r: set<seq<int>>)
    ensures forall t :: t in r <==> t in faceset || AmongSorted(t, combos, |combos|)
  {
    r := faceset;
    for q := 0 to |combos|
      invariant forall t :: t in r <==> t in faceset || AmongSorted(t, combos, q)
    {
      r := r + {Sort(combos[q])};
    }
  }

  /** The body of the outer loop of `faces`: adds the faces of one
      generator, longest first. */
  method AddFacesOf(faceset: set<seq<int>>, simplex: seq<int>) returns (result: set<seq<int>>)
    ensures forall t :: t in result <==> t in faceset || IsFaceOfSimplex(t, simplex)
  {
    result := faceset;
    var numnodes := |simplex|;
    var r := numnodes;
    forall t ensures !IsFaceLongerThan(t, simplex, numnodes) {
      NoFaceLongerThanSimplex(t, simplex);
    }
    while r > 0
      invariant 0 <= r <= numnodes
      invariant forall t :: t in result <==> t in faceset || IsFaceLongerThan(t, simplex, r)
    {
      var combos := Combinations(simplex, r);
      result := AddSorted(result, combos);
      forall t ensures IsFaceLongerThan(t, simplex, r - 1) <==>
        IsFaceLongerThan(t, simplex, r) || AmongSorted(t, combos, |combos|)
      {
        FaceLongerThanStep(t, simplex, r);
      }
      r := r - 1;
    }
    forall t ensures IsFaceLongerThan(t, simplex, 0) <==> IsFaceOfSimplex(t, simplex) {
      FaceLongerThanZero(t, simplex);
    }
  }

  /** `faces(simplices)`: every sub-tuple of every generator, sorted, in
      one set. The result is exactly the set of faces of the generators. */
  method Faces(simplices: seq<seq<int>>) returns (faceset: set<seq<int>>)
    ensures forall t :: t in faceset <==> IsFaceOf(t, simplices)
  {
    faceset := {};
    for k := 0 to |simplices|
      invariant forall t :: t in faceset <==> IsFaceOf(t, simplices[..k])
    {
      faceset := AddFacesOf(faceset, simplices[k]);
      forall t ensures IsFaceOf(t, simplices[..k + 1]) <==> IsFaceOf(t, simplices[..k]) || IsFaceOfSimplex(t, simplices[k]) {
        FaceOfPrefix(t, simplices, k);
      }
    }
    assert simplices[..|simplices|] == simplices;
  }

  /** Every face is a non-empty sorted tuple. */
  lemma FaceSorted(t: seq<int>, x: seq<int>)
    requires IsFaceOfSimplex(t, x)
    ensures Sorted(t) && |t| >= 1
  {
    var c :| IsSubseq(c, x) && c != [] && t == Sort(c);
    assert |multiset(t)| == |multiset(c)|;
  }

  /** A face without repeated vertices is strictly increasing, when the
      generator has none. */
  lemma FaceStrictlySorted(t: seq<int>, x: seq<int>)
    requires IsFaceOfSimplex(t, x) && Distinct(x)
    ensures StrictlySorted(t)
  {
    var c :| IsSubseq(c, x) && c != [] && t == Sort(c);
    SubseqMultiset(c, x);
    DistinctByMultiplicity(x);
    assert forall v :: multiset(c)[v] <= multiset(x)[v];
    DistinctByMultiplicity(c);
    SortDistinct(c);
  }

  /** Every non-empty sub-tuple of a face of x is a face of x. */
  lemma FaceOfFace(t: seq<int>, u: seq<int>, x: seq<int>)
    requires IsFaceOfSimplex(t, x) && IsSubseq(u, t) && u != []
    ensures IsFaceOfSimplex(u, x)
  {
    var c :| IsSubseq(c, x) && c != [] && t == Sort(c);
    SubseqMultiset(u, t);
    PickElements(c, multiset(u));
    var c' := Pick(c, multiset(u));
    SubseqTrans(c', c, x);
    SubseqSorted(u, t);
    SortedUnique(Sort(c'), u);
    assert |c'| == |multiset(u)| == |u|;
  }

  /** Closure invariant: every non-empty sub-tuple of a face is a face. */
  lemma FacesDownwardClosed(gens: seq<seq<int>>, t: seq<int>, u: seq<int>)
    requires IsFaceOf(t, gens) && IsSubseq(u, t) && u != []
    ensures IsFaceOf(u, gens)
  {
    var i :| 0 <= i < |gens| && IsFaceOfSimplex(t, gens[i]);
    FaceOfFace(t, u, gens[i]);
  }

  /** Idempotence: taking the faces of any enumeration F of the faces of
      gens gives the faces of gens again. */
  lemma FacesIdempotent(gens: seq<seq<int>>, F: seq<seq<int>>)
    requires forall t :: t in F <==> IsFaceOf(t, gens)
    ensures forall t :: IsFaceOf(t, F) <==> IsFaceOf(t, gens)
  {
    forall t ensures IsFaceOf(t, F) <==> IsFaceOf(t, gens) {
      if IsFaceOf(t, F) {
        var i :| 0 <= i < |F| && IsFaceOfSimplex(t, F[i]);
        var c :| IsSubseq(c, F[i]) && c != [] && t == Sort(c);
        assert F[i] in F;
        var g :| 0 <= g < |gens| && IsFaceOfSimplex(F[i], gens[g]);
        FaceSorted(F[i], gens[g]);
        SubseqSorted(c, F[i]);
        SortOfSorted(c);
        FaceOfFace(F[i], c, gens[g]);
      }
      if IsFaceOf(t, gens) {
        var i :| 0 <= i < |F| && F[i] == t;
        var g :| 0 <= g < |gens| && IsFaceOfSimplex(t, gens[g]);
        FaceSorted(t, gens[g]);
        SortOfSorted(t);
        SubseqSelf(t);
        assert IsFaceOfSimplex(t, F[i]);
      }
    }
  }

  /** Sorting a generator first does not change its faces. */
  lemma FacesOfSortedGenerator(t: seq<int>, x: seq<int>)
    ensures IsFaceOfSimplex(t, Sort(x)) <==> IsFaceOfSimplex(t, x)
  {
    if IsFaceOfSimplex(t, Sort(x)) {
      var c :| IsSubseq(c, Sort(x)) && c != [] && t == Sort(c);
      SubseqMultiset(c, Sort(x));
      PickElements(x, multiset(c));
      var c' := Pick(x, multiset(c));
      SortSameElements(c', c);
      assert |c'| == |multiset(c)| == |c|;
    }
    if IsFaceOfSimplex(t, x) {
      var c :| IsSubseq(c, x) && c != [] && t == Sort(c);
      SubseqMultiset(c, x);
      PickElements(Sort(x), multiset(c));
      var c' := Pick(Sort(x), multiset(c));
      SortSameElements(c', c);
      assert |c'| == |multiset(c)| == |c|;
    }
  }

  /** The generators with their vertices sorted (the `map` at
      GeneralisedFormanRicci.py:22). */
  function SortEach(gens: seq<seq<int>>): (r: seq<seq<int>>)
    ensures |r| == |gens|
    ensures forall k :: 0 <= k < |gens| ==> r[k] == Sort(gens[k])
  {
    seq(|gens|, k requires 0 <= k < |gens| => Sort(gens[k]))
  }

  /** `list(face_set)`: the members of a finite set, each once, in the
      order the set hands them out. */
  method ListOfSet(s: set<seq<int>>) returns (xs: seq<seq<int>>)
    ensures NoDup(xs)
    ensures forall t :: t in xs <==> t in s
  {
    xs := [];
    var rest := s;
    while rest != {}
      invariant rest <= s
      invariant NoDup(xs)
      invariant forall t :: t in xs <==> t in s && t !in rest
      decreases |rest|
    {
      var x :| x in rest;
      xs := xs + [x];
      rest := rest - {x};
    }
  }

  /** `import_simplices(simplices)`: sorts every generator, takes all
      faces, and lists them. The list has no repeats, holds exactly the
      faces of the (unsorted) generators, and is downward closed; when no
      generator repeats a vertex it is a closed complex. */
  method ImportSimplices(simplices: seq<seq<int>>) returns (S: Complex)
    ensures NoDup(S)
    ensures forall t :: t in S <==> IsFaceOf(t, simplices)
    ensures forall t, u :: t in S && IsSubseq(u, t) && u != [] ==> u in S
    ensures (forall k :: 0 <= k < |simplices| ==> Distinct(simplices[k])) ==> Closed(S)
  {
    var sorted := SortEach(simplices);
    var faceset := Faces(sorted);
    S := ListOfSet(faceset);
    forall t ensures IsFaceOf(t, sorted) <==> IsFaceOf(t, simplices) {
      forall i | 0 <= i < |simplices| ensures IsFaceOfSimplex(t, sorted[i]) <==> IsFaceOfSimplex(t, simplices[i]) {
        FacesOfSortedGenerator(t, simplices[i]);
      }
    }
    forall t, u | t in S && IsSubseq(u, t) && u != [] ensures u in S {
      FacesDownwardClosed(simplices, t, u);
    }
    if forall k :: 0 <= k < |simplices| ==> Distinct(simplices[k]) {
      forall k | 0 <= k < |S| ensures IsSimplex(S[k]) {
        assert S[k] in S;
        var i :| 0 <= i < |simplices| && IsFaceOfSimplex(S[k], simplices[i]);
        FaceSorted(S[k], simplices[i]);
        FaceStrictlySorted(S[k], simplices[i]);
      }
      forall k, a | 0 <= k < |S| && 0 <= a < |S[k]| && |S[k]| >= 2 ensures Delete(S[k], a) in S {
        assert S[k] in S;
        DeleteSubseq(S[k], a);
      }
    }
  }
}
