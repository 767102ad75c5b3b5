/** Sorting of vertex tuples (Python's `sorted` on integers) and
    subsequences (the tuples `itertools.combinations` draws from a tuple). */
module Sorting {

  predicate Sorted(s: seq<int>)
  {
    forall i, j :: 0 <= i < j < |s| ==> s[i] <= s[j]
  }

  predicate StrictlySorted(s: seq<int>)
  {
    forall i, j :: 0 <= i < j < |s| ==> s[i] < s[j]
  }

  /** Inserts x into the sorted sequence s. */
  function Insert(x: int, s: seq<int>): (r: seq<int>)
    requires Sorted(s)
    ensures Sorted(r) && multiset(r) == multiset(s) + multiset{x}
  {
    if s == [] then [x]
    else if x <= s[0] then
      assert s == [s[0]] + s[1..];
      [x] + s
    else
      var t := Insert(x, s[1..]);
      InsertBehindHead(x, s, t);
      [s[0]] + t
  }

  lemma InsertBehindHead(x: int, s: seq<int>, t: seq<int>)
    requires Sorted(s) && s != [] && s[0] < x
    requires Sorted(t) && multiset(t) == multiset(s[1..]) + multiset{x}
    ensures Sorted([s[0]] + t) && multiset([s[0]] + t) == multiset(s) + multiset{x}
  {
    assert s == [s[0]] + s[1..];
    forall k | 0 <= k < |t| ensures s[0] <= t[k] {
      assert t[k] in multiset(t);
      if t[k] != x {
        assert t[k] in multiset(s[1..]);
        var j :| 0 <= j < |s[1..]| && s[1..][j] == t[k];
        assert s[j + 1] == t[k];
      }
    }
  }

  /** Insertion sort: the sorted permutation of s. */
  function Sort(s: seq<int>): (r: seq<int>)
    ensures Sorted(r) && multiset(r) == multiset(s)
  {
    if s == [] then []
    else
      assert s == [s[0]] + s[1..];
      Insert(s[0], Sort(s[1..]))
  }

  /** The head of a non-empty sorted sequence is its least element. */
  lemma SortedHead(a: seq<int>, v: int)
    requires Sorted(a) && v in multiset(a)
    ensures a[0] <= v
  {
    var i :| 0 <= i < |a| && a[i] == v;
  }

  lemma HeadTail(a: seq<int>)
    requires a != []
    ensures multiset(a[1..]) == multiset(a) - multiset{a[0]}
    ensures Sorted(a) ==> Sorted(a[1..])
  {
    assert a == [a[0]] + a[1..];
  }

  lemma SameHead(a: seq<int>, b: seq<int>)
    requires Sorted(a) && Sorted(b) && multiset(a) == multiset(b) && a != [] && b != []
    ensures a[0] == b[0]
  {
    assert a[0] in multiset(a) && b[0] in multiset(b);
    SortedHead(a, b[0]);
    SortedHead(b, a[0]);
  }

  /** Two sorted sequences with the same elements are equal. */
  lemma {:induction false} SortedUnique(a: seq<int>, b: seq<int>)
    requires Sorted(a) && Sorted(b) && multiset(a) == multiset(b)
    ensures a == b
  {
    assert |a| == |multiset(a)| == |multiset(b)| == |b|;
    if a != [] {
      SameHead(a, b);
      HeadTail(a);
      HeadTail(b);
      SortedUnique(a[1..], b[1..]);
      assert a == [a[0]] + a[1..];
      assert b == [b[0]] + b[1..];
    }
  }

  /** Sorting a sorted sequence changes nothing. */
  lemma SortOfSorted(s: seq<int>)
    requires Sorted(s)
    ensures Sort(s) == s
  {
    SortedUnique(Sort(s), s);
  }

  /** Sorting depends only on the elements, not their order. */
  lemma SortSameElements(a: seq<int>, b: seq<int>)
    requires multiset(a) == multiset(b)
    ensures Sort(a) == Sort(b)
  {
    SortedUnique(Sort(a), Sort(b));
  }

  /** True when no vertex occurs twice. */
  predicate Distinct(s: seq<int>)
  {
    forall i, j :: 0 <= i < j < |s| ==> s[i] != s[j]
  }

  lemma {:induction false} DistinctByMultiplicity(s: seq<int>)
    ensures Distinct(s) <==> forall v :: multiset(s)[v] <= 1
  {
    if s != [] {
      DistinctByMultiplicity(s[1..]);
      assert s == [s[0]] + s[1..];
      if Distinct(s) {
        assert s[0] !in multiset(s[1..]) by {
          forall k | 0 <= k < |s[1..]| ensures s[1..][k] != s[0] {
            assert s[1..][k] == s[k + 1];
          }
        }
        assert Distinct(s[1..]) by {
          forall i, j | 0 <= i < j < |s[1..]| ensures s[1..][i] != s[1..][j] {
            assert s[1..][i] == s[i + 1] && s[1..][j] == s[j + 1];
          }
        }
      }
      if forall v :: multiset(s)[v] <= 1 {
        assert forall v :: multiset(s[1..])[v] <= 1 by {
          forall v ensures multiset(s[1..])[v] <= 1 {
            assert multiset(s)[v] == multiset(s[1..])[v] + (if v == s[0] then 1 else 0);
          }
        }
        assert multiset(s[1..])[s[0]] == 0 by {
          assert multiset(s)[s[0]] == multiset(s[1..])[s[0]] + 1;
        }
        forall i, j | 0 <= i < j < |s| ensures s[i] != s[j] {
          if i == 0 {
            assert s[j] == s[1..][j - 1];
            assert s[j] in multiset(s[1..]);
          } else {
            assert s[i] == s[1..][i - 1] && s[j] == s[1..][j - 1];
          }
        }
      }
    }
  }

  /** A sorted sequence without repeated elements is strictly sorted. */
  lemma SortedDistinct(s: seq<int>)
    requires Sorted(s) && Distinct(s)
    ensures StrictlySorted(s)
  {
  }

  /** Sorting keeps a tuple free of repeated vertices. */
  lemma SortDistinct(s: seq<int>)
    requires Distinct(s)
    ensures StrictlySorted(Sort(s))
  {
    DistinctByMultiplicity(s);
    DistinctByMultiplicity(Sort(s));
  }

  /** c is obtained from s by deleting some positions (order kept). */
  predicate IsSubseq(c: seq<int>, s: seq<int>)
    decreases |s|
  {
    if c == [] then true
    else if s == [] then false
    else (c[0] == s[0] && IsSubseq(c[1..], s[1..])) || IsSubseq(c, s[1..])
  }

  lemma {:induction false} SubseqLength(c: seq<int>, s: seq<int>)
    requires IsSubseq(c, s)
    ensures |c| <= |s|
    decreases |s|
  {
    if c != [] {
      if c[0] == s[0] && IsSubseq(c[1..], s[1..]) {
        SubseqLength(c[1..], s[1..]);
      } else {
        SubseqLength(c, s[1..]);
      }
    }
  }

  lemma {:induction false} SubseqSelf(s: seq<int>)
    ensures IsSubseq(s, s)
  {
    if s != [] { SubseqSelf(s[1..]); }
  }

  lemma {:induction false} SubseqTrans(a: seq<int>, b: seq<int>, c: seq<int>)
    requires IsSubseq(a, b) && IsSubseq(b, c)
    ensures IsSubseq(a, c)
    decreases |c|
  {
    if a != [] {
      SubseqLength(b, c);
      if b[0] == c[0] && IsSubseq(b[1..], c[1..]) {
        if a[0] == b[0] && IsSubseq(a[1..], b[1..]) {
          SubseqTrans(a[1..], b[1..], c[1..]);
        } else {
          SubseqTrans(a, b[1..], c[1..]);
        }
      } else {
        SubseqTrans(a, b, c[1..]);
      }
    }
  }

  lemma {:induction false} SubseqMultiset(c: seq<int>, s: seq<int>)
    requires IsSubseq(c, s)
    ensures multiset(c) <= multiset(s)
    decreases |s|
  {
    if c != [] {
      assert s == [s[0]] + s[1..];
      if c[0] == s[0] && IsSubseq(c[1..], s[1..]) {
        SubseqMultiset(c[1..], s[1..]);
        assert c == [c[0]] + c[1..];
      } else {
        SubseqMultiset(c, s[1..]);
      }
    }
  }

  /** Every element of a subsequence at position k comes from a position
      at least k of the original. */
  lemma {:induction false} SubseqElements(c: seq<int>, s: seq<int>)
    requires IsSubseq(c, s)
    ensures forall k :: 0 <= k < |c| ==> exists q :: k <= q < |s| && c[k] == s[q]
    decreases |s|
  {
    if c != [] {
      if c[0] == s[0] && IsSubseq(c[1..], s[1..]) {
        SubseqElements(c[1..], s[1..]);
        forall k | 0 <= k < |c| ensures exists q :: k <= q < |s| && c[k] == s[q] {
          if k > 0 {
            assert c[k] == c[1..][k - 1];
            var q :| k - 1 <= q < |s[1..]| && c[1..][k - 1] == s[1..][q];
            assert c[k] == s[q + 1];
          } else {
            assert c[0] == s[0];
          }
        }
      } else {
        SubseqElements(c, s[1..]);
        forall k | 0 <= k < |c| ensures exists q :: k <= q < |s| && c[k] == s[q] {
          var q :| k <= q < |s[1..]| && c[k] == s[1..][q];
          assert c[k] == s[q + 1];
        }
      }
    }
  }

  /** A subsequence of a sorted sequence is sorted. */
  lemma {:induction false} SubseqSorted(c: seq<int>, s: seq<int>)
    requires IsSubseq(c, s) && Sorted(s)
    ensures Sorted(c)
    decreases |s|
  {
    if c != [] {
      if c[0] == s[0] && IsSubseq(c[1..], s[1..]) {
        SubseqSorted(c[1..], s[1..]);
        SubseqMultiset(c[1..], s[1..]);
        forall k | 1 <= k < |c| ensures c[0] <= c[k] {
          assert c[k] == c[1..][k - 1];
          assert c[k] in multiset(s[1..]);
          var q :| 0 <= q < |s[1..]| && s[1..][q] == c[k];
          assert s[q + 1] == c[k];
        }
      } else {
        SubseqSorted(c, s[1..]);
      }
    }
  }

  /** A subsequence of a strictly sorted sequence is strictly sorted. */
  lemma {:induction false} SubseqStrictlySorted(c: seq<int>, s: seq<int>)
    requires IsSubseq(c, s) && StrictlySorted(s)
    ensures StrictlySorted(c)
    decreases |s|
  {
    if c != [] {
      if c[0] == s[0] && IsSubseq(c[1..], s[1..]) {
        SubseqStrictlySorted(c[1..], s[1..]);
        SubseqMultiset(c[1..], s[1..]);
        forall k | 1 <= k < |c| ensures c[0] < c[k] {
          assert c[k] == c[1..][k - 1];
          assert c[k] in multiset(s[1..]);
          var q :| 0 <= q < |s[1..]| && s[1..][q] == c[k];
          assert s[q + 1] == c[k];
        }
      } else {
        SubseqStrictlySorted(c, s[1..]);
      }
    }
  }

  /** Picks from s, left to right, the elements of the multiset m. */
  function Pick(s: seq<int>, m: multiset<int>): (c: seq<int>)
    ensures IsSubseq(c, s)
    decreases |s|
  {
    if s == [] then []
    else if s[0] in m then [s[0]] + Pick(s[1..], m - multiset{s[0]})
    else
      var c := Pick(s[1..], m);
      assert c == [] || !(c[0] == s[0] && IsSubseq(c[1..], s[1..])) || IsSubseq(c, s);
      c
  }

  lemma PickSkipHead(s: seq<int>, m: multiset<int>)
    requires s != [] && s[0] !in m && m <= multiset(s)
    ensures m <= multiset(s[1..])
  {
    assert s == [s[0]] + s[1..];
    forall v ensures m[v] <= multiset(s[1..])[v] {
      assert multiset(s)[v] == multiset(s[1..])[v] + (if v == s[0] then 1 else 0);
    }
  }

  /** Any sub-multiset of the elements of s is the multiset of some
      subsequence of s: Pick finds one. */
  lemma {:induction false} PickElements(s: seq<int>, m: multiset<int>)
    requires m <= multiset(s)
    ensures multiset(Pick(s, m)) == m
    decreases |s|
  {
    if s == [] {
      assert m == multiset{};
    } else {
      assert s == [s[0]] + s[1..];
      if s[0] in m {
        PickElements(s[1..], m - multiset{s[0]});
      } else {
        PickSkipHead(s, m);
        PickElements(s[1..], m);
      }
    }
  }
}
