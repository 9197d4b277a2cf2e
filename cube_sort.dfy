/**
 * Sorting a cover in place (c++-srcs/AlgMgr.cc, _sort): the value-level
 * facts about moving cubes inside one buffer, the descending order the
 * sort establishes, and the merge of two sorted halves back into the
 * buffer, which _sort runs after copying the first half to the scratch
 * buffer.
 */
module CubeSort {
  import opened CubeBits
  import opened CubeView
  import opened CubeOrder
  import CubeBuffer

  // ---------------------------------------------------------------------
  // Writing and moving cubes inside one buffer
  // ---------------------------------------------------------------------

  /** The buffer a with cube c replaced by x. */
  function Put(a: seq<Word>, nb: nat, c: nat, x: Cube): (r: seq<Word>)
    requires Base(c, nb) + nb <= |a| && |x| == nb
    ensures |r| == |a|
  {
    Splice(a, Base(c, nb), x)
  }

  /** cube_copy inside one buffer: cube d becomes a copy of cube s. */
  function Move(a: seq<Word>, nb: nat, d: nat, s: nat): (r: seq<Word>)
    requires Base(d, nb) + nb <= |a| && Base(s, nb) + nb <= |a|
    ensures |r| == |a|
  {
    Put(a, nb, d, CubeAt(a, nb, s))
  }

  /** b equals a on every word outside lo .. hi - 1. */
  ghost predicate SameOutside(a: seq<Word>, b: seq<Word>, lo: nat, hi: nat)
  {
    |a| == |b| && forall k :: 0 <= k < |a| && !(lo <= k < hi) ==> b[k] == a[k]
  }

  lemma SameOutsideTrans(a: seq<Word>, b: seq<Word>, c: seq<Word>, lo: nat, hi: nat)
    requires SameOutside(a, b, lo, hi) && SameOutside(b, c, lo, hi)
    ensures SameOutside(a, c, lo, hi)
  {
  }

  lemma SameOutsideWiden(a: seq<Word>, b: seq<Word>, lo: nat, hi: nat, lo': nat, hi': nat)
    requires SameOutside(a, b, lo, hi) && lo' <= lo && hi <= hi'
    ensures SameOutside(a, b, lo', hi')
  {
  }

  /** Buffers that agree outside the cubes lo .. hi - 1 agree on a range apart from them. */
  lemma SameOutsideCubes(a: seq<Word>, b: seq<Word>, nb: nat, lo: nat, hi: nat, lo2: nat, hi2: nat)
    requires lo <= hi && lo2 <= hi2 && Base(hi2, nb) <= |a| && (hi <= lo2 || hi2 <= lo)
    requires SameOutside(a, b, Base(lo, nb), Base(hi, nb))
    ensures Cubes(a, nb, lo2, hi2) == Cubes(b, nb, lo2, hi2)
  {
    if hi <= lo2 {
      BaseMono(hi, lo2, nb);
    } else {
      BaseMono(hi2, lo, nb);
    }
    CubesAgree(a, b, nb, lo2, hi2);
  }

  /** Writing cube c of a range updates the range at c and no word outside it. */
  lemma CubesPut(a: seq<Word>, nb: nat, lo: nat, hi: nat, c: nat, x: Cube)
    requires lo <= c < hi && Base(hi, nb) <= |a| && |x| == nb
    ensures Base(c, nb) + nb <= |a|
    ensures Cubes(Put(a, nb, c, x), nb, lo, hi) == Cubes(a, nb, lo, hi)[c - lo := x]
    ensures SameOutside(a, Put(a, nb, c, x), Base(lo, nb), Base(hi, nb))
  {
    CubeInside(c, hi, nb);
    BaseMono(lo, c, nb);
    CubesSplice(a, nb, lo, hi, c, x);
    SpliceIndex(a, Base(c, nb), x);
  }

  /** Copying cube s of a range over cube d of it. */
  lemma CubesMove(a: seq<Word>, nb: nat, lo: nat, hi: nat, d: nat, s: nat)
    requires lo <= d < hi && lo <= s < hi && Base(hi, nb) <= |a|
    ensures Base(d, nb) + nb <= |a| && Base(s, nb) + nb <= |a|
    ensures Cubes(Move(a, nb, d, s), nb, lo, hi) == Cubes(a, nb, lo, hi)[d - lo := Cubes(a, nb, lo, hi)[s - lo]]
    ensures SameOutside(a, Move(a, nb, d, s), Base(lo, nb), Base(hi, nb))
  {
    CubesAt(a, nb, lo, hi, s - lo);
    CubeInside(d, hi, nb);
    CubesPut(a, nb, lo, hi, d, CubeAt(a, nb, s));
  }

  /** The cover s with the cubes at i and j exchanged. */
  function SwapSeq(s: Cover, i: nat, j: nat): (r: Cover)
    requires i < |s| && j < |s|
    ensures |r| == |s|
  {
    s[i := s[j]][j := s[i]]
  }

  /** The cover s rotated: i gets the entry at j, j the one at k, k the old entry at i. */
  function Rotate3Seq(s: Cover, i: nat, j: nat, k: nat): (r: Cover)
    requires i < |s| && j < |s| && k < |s|
    ensures |r| == |s|
  {
    s[i := s[j]][j := s[k]][k := s[i]]
  }

  /** The cover s rotated: i gets j, j gets k, k gets l, l gets the old entry at i. */
  function Rotate4Seq(s: Cover, i: nat, j: nat, k: nat, l: nat): (r: Cover)
    requires i < |s| && j < |s| && k < |s| && l < |s|
    ensures |r| == |s|
  {
    s[i := s[j]][j := s[k]][k := s[l]][l := s[i]]
  }

  /** Exchanging two cubes keeps the cubes and keeps them different. */
  lemma SwapSeqPerm(s: Cover, i: nat, j: nat)
    requires i < |s| && j < |s|
    ensures multiset(SwapSeq(s, i, j)) == multiset(s)
    ensures Distinct(s) ==> Distinct(SwapSeq(s, i, j))
  {
    var r := SwapSeq(s, i, j);
    if i != j {
      assert multiset(s[i := s[j]]) == multiset(s) - multiset{s[i]} + multiset{s[j]};
    }
    if Distinct(s) {
      forall a, b | 0 <= a < b < |r|
        ensures r[a] != r[b]
      {
        var a' := if a == i then j else if a == j then i else a;
        var b' := if b == i then j else if b == j then i else b;
        assert r[a] == s[a'] && r[b] == s[b'];
      }
    }
  }

  /** cube_swap inside one buffer: cube p and cube q trade places. */
  function Swapped(a: seq<Word>, nb: nat, p: nat, q: nat): (r: seq<Word>)
    requires Base(p, nb) + nb <= |a| && Base(q, nb) + nb <= |a|
    ensures |r| == |a|
  {
    Put(Move(a, nb, p, q), nb, q, CubeAt(a, nb, p))
  }

  /** cube_rotate3 inside one buffer: p gets q, q gets r, r gets the old p. */
  function Rotated3(a: seq<Word>, nb: nat, p: nat, q: nat, r: nat): (b: seq<Word>)
    requires Base(p, nb) + nb <= |a| && Base(q, nb) + nb <= |a| && Base(r, nb) + nb <= |a|
    ensures |b| == |a|
  {
    Put(Move(Move(a, nb, p, q), nb, q, r), nb, r, CubeAt(a, nb, p))
  }

  /** cube_rotate4 inside one buffer: p gets q, q gets r, r gets s, s gets the old p. */
  function Rotated4(a: seq<Word>, nb: nat, p: nat, q: nat, r: nat, s: nat): (b: seq<Word>)
    requires Base(p, nb) + nb <= |a| && Base(q, nb) + nb <= |a| && Base(r, nb) + nb <= |a| && Base(s, nb) + nb <= |a|
    ensures |b| == |a|
  {
    Put(Move(Move(Move(a, nb, p, q), nb, q, r), nb, r, s), nb, s, CubeAt(a, nb, p))
  }

  /** Swapping two cubes of a range exchanges them in the range's view. */
  lemma CubesSwapped(a: seq<Word>, nb: nat, lo: nat, hi: nat, p: nat, q: nat)
    requires lo <= p < hi && lo <= q < hi && p != q && Base(hi, nb) <= |a|
    ensures Base(p, nb) + nb <= |a| && Base(q, nb) + nb <= |a|
    ensures Cubes(Swapped(a, nb, p, q), nb, lo, hi) == SwapSeq(Cubes(a, nb, lo, hi), p - lo, q - lo)
    ensures Permuted(a, Swapped(a, nb, p, q), nb, lo, hi)
  {
    var cs := Cubes(a, nb, lo, hi);
    CubesMove(a, nb, lo, hi, p, q);
    var m := Move(a, nb, p, q);
    CubesAtAbs(a, nb, lo, hi, cs, p);
    CubesPut(m, nb, lo, hi, q, cs[p - lo]);
    SameOutsideTrans(a, m, Swapped(a, nb, p, q), Base(lo, nb), Base(hi, nb));
    SwapSeqPerm(cs, p - lo, q - lo);
  }

  /** Rotating three cubes of a range updates the three in the range's view. */
  lemma CubesRotated3(a: seq<Word>, b: seq<Word>, nb: nat, lo: nat, hi: nat, p: nat, q: nat, r: nat)
    requires lo <= p < hi && lo <= q < hi && lo <= r < hi && p != q && q != r && p != r && Base(hi, nb) <= |a|
    requires Base(p, nb) + nb <= |a| && Base(q, nb) + nb <= |a| && Base(r, nb) + nb <= |a|
    requires b == Rotated3(a, nb, p, q, r)
    ensures Cubes(b, nb, lo, hi) == Rotate3Seq(Cubes(a, nb, lo, hi), p - lo, q - lo, r - lo)
    ensures |b| == |a| && SameOutside(a, b, Base(lo, nb), Base(hi, nb))
  {
    var cs := Cubes(a, nb, lo, hi);
    CubesMove(a, nb, lo, hi, p, q);
    var m1 := Move(a, nb, p, q);
    CubesMove(m1, nb, lo, hi, q, r);
    var m2 := Move(m1, nb, q, r);
    CubesAtAbs(a, nb, lo, hi, cs, p);
    CubesPut(m2, nb, lo, hi, r, cs[p - lo]);
    SameOutsideTrans(a, m1, m2, Base(lo, nb), Base(hi, nb));
    SameOutsideTrans(a, m2, b, Base(lo, nb), Base(hi, nb));
  }

  /** Rotating four cubes of a range updates the four in the range's view. */
  lemma CubesRotated4(a: seq<Word>, b: seq<Word>, nb: nat, lo: nat, hi: nat, p: nat, q: nat, r: nat, s: nat)
    requires lo <= p < hi && lo <= q < hi && lo <= r < hi && lo <= s < hi && Base(hi, nb) <= |a|
    requires p != q && p != r && p != s && q != r && q != s && r != s
    requires Base(p, nb) + nb <= |a| && Base(q, nb) + nb <= |a| && Base(r, nb) + nb <= |a| && Base(s, nb) + nb <= |a|
    requires b == Rotated4(a, nb, p, q, r, s)
    ensures Cubes(b, nb, lo, hi) == Rotate4Seq(Cubes(a, nb, lo, hi), p - lo, q - lo, r - lo, s - lo)
    ensures |b| == |a| && SameOutside(a, b, Base(lo, nb), Base(hi, nb))
  {
    var cs := Cubes(a, nb, lo, hi);
    CubesMove(a, nb, lo, hi, p, q);
    var m1 := Move(a, nb, p, q);
    CubesMove(m1, nb, lo, hi, q, r);
    var m2 := Move(m1, nb, q, r);
    CubesMove(m2, nb, lo, hi, r, s);
    var m3 := Move(m2, nb, r, s);
    CubesAtAbs(a, nb, lo, hi, cs, p);
    CubesPut(m3, nb, lo, hi, s, cs[p - lo]);
    SameOutsideTrans(a, m1, m2, Base(lo, nb), Base(hi, nb));
    SameOutsideTrans(a, m2, m3, Base(lo, nb), Base(hi, nb));
    SameOutsideTrans(a, m3, b, Base(lo, nb), Base(hi, nb));
  }

  // ---------------------------------------------------------------------
  // The order the sort establishes
  // ---------------------------------------------------------------------

  /** No cube of s occurs in t. */
  predicate Disjoint(s: Cover, t: Cover)
  {
    forall i, j :: 0 <= i < |s| && 0 <= j < |t| ==> s[i] != t[j]
  }

  /** Two different cubes are ordered one way or the other, as cube_compare says. */
  lemma Order(x: Cube, y: Cube)
    requires x != y
    ensures CubeCompare(x, y) < 0 ==> Above(y, x)
    ensures CubeCompare(x, y) >= 0 ==> Above(x, y)
  {
    CompareZeroIff(x, y);
    CompareAntisym(x, y);
  }

  lemma Desc3(a: Cube, b: Cube, c: Cube)
    requires Above(a, b) && Above(b, c)
    ensures Desc([a, b, c])
  {
    CompareTrans(a, b, c);
  }

  lemma Desc4(a: Cube, b: Cube, c: Cube, d: Cube)
    requires Above(a, b) && Above(b, c) && Above(c, d)
    ensures Desc([a, b, c, d])
  {
    CompareTrans(a, b, c);
    CompareTrans(b, c, d);
    CompareTrans(a, c, d);
  }

  /** Two descending covers, the last of the first above the head of the second, join descending. */
  lemma DescJoin(s: Cover, t: Cover)
    requires Desc(s) && Desc(t) && |s| > 0 && |t| > 0 && Above(s[|s| - 1], t[0])
    ensures Desc(s + t)
  {
    var u := s + t;
    forall i, j | 0 <= i < j < |u|
      ensures Above(u[i], u[j])
    {
      if j >= |s| && i < |s| {
        assert u[i] == s[i] && u[j] == t[j - |s|];
        if i < |s| - 1 {
          CompareTrans(s[i], s[|s| - 1], t[0]);
        }
        if j > |s| {
          CompareTrans(s[i], t[0], t[j - |s|]);
        }
      } else if i >= |s| {
        assert u[i] == t[i - |s|] && u[j] == t[j - |s|];
      } else {
        assert u[i] == s[i] && u[j] == s[j];
      }
    }
  }

  /** The halves of a cover without repeats have none and share no cube. */
  lemma DistinctSplit(s: Cover, m: nat)
    requires Distinct(s) && m <= |s|
    ensures Distinct(s[..m]) && Distinct(s[m..]) && Disjoint(s[..m], s[m..])
  {
    forall i, j | 0 <= i < m && 0 <= j < |s| - m
      ensures s[..m][i] != s[m..][j]
    {
      assert s[..m][i] == s[i] && s[m..][j] == s[m + j];
    }
    forall i, j | 0 <= i < j < |s| - m
      ensures s[m..][i] != s[m..][j]
    {
      assert s[m..][i] == s[m + i] && s[m..][j] == s[m + j];
    }
  }

  /** Permuting two disjoint covers keeps them disjoint. */
  lemma DisjointPerm(s: Cover, t: Cover, s': Cover, t': Cover)
    requires Disjoint(s, t) && multiset(s') == multiset(s) && multiset(t') == multiset(t)
    ensures Disjoint(s', t')
  {
    forall i, j | 0 <= i < |s'| && 0 <= j < |t'|
      ensures s'[i] != t'[j]
    {
      assert s'[i] in multiset(s');
      assert t'[j] in multiset(t');
      var a :| 0 <= a < |s| && s[a] == s'[i];
      var b :| 0 <= b < |t| && t[b] == t'[j];
    }
  }

  /** Merging two disjoint covers loses and adds nothing. */
  lemma {:induction false} MergeDisjoint(s: Cover, t: Cover)
    requires Disjoint(s, t)
    ensures multiset(Merge(s, t)) == multiset(s) + multiset(t)
    decreases |s| + |t|
  {
    if |s| > 0 && |t| > 0 {
      assert s == [s[0]] + s[1..] && t == [t[0]] + t[1..];
      CompareZeroIff(s[0], t[0]);
      if CubeCompare(s[0], t[0]) > 0 {
        assert Disjoint(s[1..], t) by {
          forall i, j | 0 <= i < |s| - 1 && 0 <= j < |t|
            ensures s[1..][i] != t[j]
          {
            assert s[1..][i] == s[i + 1];
          }
        }
        MergeDisjoint(s[1..], t);
      } else {
        assert Disjoint(s, t[1..]) by {
          forall i, j | 0 <= i < |s| && 0 <= j < |t| - 1
            ensures s[i] != t[1..][j]
          {
            assert t[1..][j] == t[j + 1];
          }
        }
        MergeDisjoint(s, t[1..]);
      }
    }
  }

  /**
   * b is a with the cubes lo .. hi - 1 rearranged among themselves and
   * every word outside them unchanged.
   */
  ghost predicate Permuted(a: seq<Word>, b: seq<Word>, nb: nat, lo: nat, hi: nat)
  {
    lo <= hi && Base(hi, nb) <= |a| && |b| == |a| &&
    multiset(Cubes(b, nb, lo, hi)) == multiset(Cubes(a, nb, lo, hi)) &&
    SameOutside(a, b, Base(lo, nb), Base(hi, nb))
  }

  /** What _sort leaves behind: the range rearranged, in descending order. */
  ghost predicate SortedRange(a: seq<Word>, b: seq<Word>, nb: nat, lo: nat, hi: nat)
  {
    Permuted(a, b, nb, lo, hi) && Desc(Cubes(b, nb, lo, hi))
  }

  lemma PermutedTrans(a: seq<Word>, b: seq<Word>, c: seq<Word>, nb: nat, lo: nat, hi: nat)
    requires Permuted(a, b, nb, lo, hi) && Permuted(b, c, nb, lo, hi)
    ensures Permuted(a, c, nb, lo, hi)
  {
    SameOutsideTrans(a, b, c, Base(lo, nb), Base(hi, nb));
  }

  /** Rearranging the range keeps its cubes different. */
  lemma PermutedDistinct(a: seq<Word>, b: seq<Word>, nb: nat, lo: nat, hi: nat)
    requires Permuted(a, b, nb, lo, hi) && Distinct(Cubes(a, nb, lo, hi))
    ensures Distinct(Cubes(b, nb, lo, hi))
  {
    var s, t := Cubes(a, nb, lo, hi), Cubes(b, nb, lo, hi);
    forall i, j | 0 <= i < j < |t|
      ensures t[i] != t[j]
    {
      if t[i] == t[j] {
        MultisetTwice(t, i, j);
        MultisetOnce(s, t[i]);
      }
    }
  }

  /** A cube at two positions occurs at least twice. */
  lemma MultisetTwice(t: Cover, i: nat, j: nat)
    requires i < j < |t| && t[i] == t[j]
    ensures multiset(t)[t[i]] >= 2
  {
    assert t == t[..i] + [t[i]] + t[i + 1..j] + [t[j]] + t[j + 1..];
  }

  /** In a cover without repeats every cube occurs at most once. */
  lemma {:induction false} MultisetOnce(s: Cover, x: Cube)
    requires Distinct(s)
    ensures multiset(s)[x] <= 1
  {
    if |s| > 0 {
      assert s == [s[0]] + s[1..];
      assert Distinct(s[1..]) by {
        forall i, j | 0 <= i < j < |s| - 1
          ensures s[1..][i] != s[1..][j]
        {
          assert s[1..][i] == s[i + 1] && s[1..][j] == s[j + 1];
        }
      }
      MultisetOnce(s[1..], x);
      if s[0] == x {
        assert x !in s[1..] by {
          forall k | 0 <= k < |s| - 1
            ensures s[1..][k] != x
          {
            assert s[1..][k] == s[k + 1];
          }
        }
      }
    }
  }

  /** A range of at most one cube is sorted as it stands. */
  lemma SortedShort(a: seq<Word>, nb: nat, lo: nat, hi: nat)
    requires lo <= hi <= lo + 1 && Base(hi, nb) <= |a|
    ensures SortedRange(a, a, nb, lo, hi)
  {
  }

  /** Sorting two disjoint neighbouring ranges one after the other leaves each sorted. */
  lemma SortedHalves(a: seq<Word>, b: seq<Word>, c: seq<Word>, nb: nat, lo: nat, mid: nat, hi: nat)
    requires lo <= mid <= hi && Base(hi, nb) <= |a|
    requires SortedRange(a, b, nb, lo, mid) && SortedRange(b, c, nb, mid, hi)
    ensures Base(mid, nb) <= |c| && |c| == |a|
    ensures Desc(Cubes(c, nb, lo, mid)) && Desc(Cubes(c, nb, mid, hi))
    ensures multiset(Cubes(c, nb, lo, mid)) == multiset(Cubes(a, nb, lo, mid))
    ensures multiset(Cubes(c, nb, mid, hi)) == multiset(Cubes(a, nb, mid, hi))
    ensures SameOutside(a, c, Base(lo, nb), Base(hi, nb))
    ensures Permuted(a, c, nb, lo, hi)
  {
    CubesSplit(a, nb, lo, mid, hi);
    CubesSplit(c, nb, lo, mid, hi);
    BaseMono(mid, hi, nb);
    BaseMono(lo, mid, nb);
    SameOutsideCubes(a, b, nb, lo, mid, mid, hi);
    SameOutsideCubes(b, c, nb, mid, hi, lo, mid);
    SameOutsideWiden(a, b, Base(lo, nb), Base(mid, nb), Base(lo, nb), Base(hi, nb));
    SameOutsideWiden(b, c, Base(mid, nb), Base(hi, nb), Base(lo, nb), Base(hi, nb));
    SameOutsideTrans(a, b, c, Base(lo, nb), Base(hi, nb));
  }

  // ---------------------------------------------------------------------
  // The small cases of _sort
  // ---------------------------------------------------------------------

  /** cube_compare of two cubes of one buffer. */
  function Cmp(a: seq<Word>, nb: nat, p: nat, q: nat): int
    requires Base(p, nb) + nb <= |a| && Base(q, nb) + nb <= |a|
  {
    CubeCompare(CubeAt(a, nb, p), CubeAt(a, nb, q))
  }

  /** A range whose view is a descending cover t after a rearrangement is sorted. */
  lemma SortedBy(a: seq<Word>, b: seq<Word>, nb: nat, lo: nat, hi: nat, t: Cover)
    requires Permuted(a, b, nb, lo, hi) && Cubes(b, nb, lo, hi) == t && Desc(t)
    ensures SortedRange(a, b, nb, lo, hi)
  {
  }

  /** A rearrangement followed by a sort is a sort. */
  lemma SortedAfter(a: seq<Word>, b: seq<Word>, c: seq<Word>, nb: nat, lo: nat, hi: nat)
    requires Permuted(a, b, nb, lo, hi) && SortedRange(b, c, nb, lo, hi)
    ensures SortedRange(a, c, nb, lo, hi)
  {
    PermutedTrans(a, b, c, nb, lo, hi);
  }

  /** Rotating three entries is two exchanges, so it keeps the cubes. */
  lemma Rotate3Perm(s: Cover, i: nat, j: nat, k: nat)
    requires i < |s| && j < |s| && k < |s| && i != j && j != k && i != k
    ensures Rotate3Seq(s, i, j, k) == SwapSeq(SwapSeq(s, i, j), j, k)
    ensures multiset(Rotate3Seq(s, i, j, k)) == multiset(s)
  {
    SwapSeqPerm(s, i, j);
    SwapSeqPerm(SwapSeq(s, i, j), j, k);
  }

  /** Rotating four entries is a rotation of three and an exchange, so it keeps the cubes. */
  lemma Rotate4Perm(s: Cover, i: nat, j: nat, k: nat, l: nat)
    requires i < |s| && j < |s| && k < |s| && l < |s|
    requires i != j && i != k && i != l && j != k && j != l && k != l
    ensures multiset(Rotate4Seq(s, i, j, k, l)) == multiset(s)
  {
    var u := s[i := s[j]][j := s[k]];
    var t := u[k := s[i]];
    Rotate3Perm(s, i, j, k);
    SwapSeqPerm(t, k, l);
    assert t[l] == s[l] && t[k] == s[i];
    assert t[k := s[l]] == u[k := s[l]];
  }

  /** Two pairwise different cubes as an ordered pair: the first above the second. */
  lemma Two(a: seq<Word>, nb: nat, lo: nat)
    requires Base(lo + 2, nb) <= |a|
    ensures Base(lo, nb) + nb <= |a| && Base(lo + 1, nb) + nb <= |a|
    ensures Cubes(a, nb, lo, lo + 2) == [CubeAt(a, nb, lo), CubeAt(a, nb, lo + 1)]
  {
    var cs := Cubes(a, nb, lo, lo + 2);
    CubesAtAbs(a, nb, lo, lo + 2, cs, lo);
    CubesAtAbs(a, nb, lo, lo + 2, cs, lo + 1);
  }

  /** The three cubes of a range at lo, as a cover. */
  lemma Three(a: seq<Word>, nb: nat, lo: nat)
    requires Base(lo + 3, nb) <= |a|
    ensures Base(lo, nb) + nb <= |a| && Base(lo + 1, nb) + nb <= |a| && Base(lo + 2, nb) + nb <= |a|
    ensures Cubes(a, nb, lo, lo + 3) == [CubeAt(a, nb, lo), CubeAt(a, nb, lo + 1), CubeAt(a, nb, lo + 2)]
  {
    var cs := Cubes(a, nb, lo, lo + 3);
    CubesAtAbs(a, nb, lo, lo + 3, cs, lo);
    CubesAtAbs(a, nb, lo, lo + 3, cs, lo + 1);
    CubesAtAbs(a, nb, lo, lo + 3, cs, lo + 2);
  }

  /** The four cubes of a range at lo, as a cover. */
  lemma Four(a: seq<Word>, nb: nat, lo: nat)
    requires Base(lo + 4, nb) <= |a|
    ensures Base(lo, nb) + nb <= |a| && Base(lo + 1, nb) + nb <= |a|
    ensures Base(lo + 2, nb) + nb <= |a| && Base(lo + 3, nb) + nb <= |a|
    ensures Cubes(a, nb, lo, lo + 4) == [CubeAt(a, nb, lo), CubeAt(a, nb, lo + 1), CubeAt(a, nb, lo + 2), CubeAt(a, nb, lo + 3)]
  {
    var cs := Cubes(a, nb, lo, lo + 4);
    CubesAtAbs(a, nb, lo, lo + 4, cs, lo);
    CubesAtAbs(a, nb, lo, lo + 4, cs, lo + 1);
    CubesAtAbs(a, nb, lo, lo + 4, cs, lo + 2);
    CubesAtAbs(a, nb, lo, lo + 4, cs, lo + 3);
  }

  /** The n == 2 case of _sort, on the cover: exchange exactly when the first is below. */
  lemma TwoLeaves(cs: Cover)
    requires |cs| == 2 && Distinct(cs)
    ensures CubeCompare(cs[0], cs[1]) < 0 ==> Desc(SwapSeq(cs, 0, 1))
    ensures CubeCompare(cs[0], cs[1]) >= 0 ==> Desc(cs)
  {
    Order(cs[0], cs[1]);
    assert SwapSeq(cs, 0, 1) == [cs[1], cs[0]];
  }

  /**
   * The decision tree of _sort for three cubes, on the cover: each leaf's
   * exchange or rotation leaves the cubes in descending order.
   */
  lemma ThreeLeaves(cs: Cover)
    requires |cs| == 3 && Distinct(cs)
    ensures CubeCompare(cs[0], cs[1]) < 0 && CubeCompare(cs[0], cs[2]) < 0 && CubeCompare(cs[1], cs[2]) < 0
            ==> Desc(SwapSeq(cs, 0, 2))
    ensures CubeCompare(cs[0], cs[1]) < 0 && CubeCompare(cs[0], cs[2]) < 0 && CubeCompare(cs[1], cs[2]) >= 0
            ==> Desc(Rotate3Seq(cs, 0, 1, 2))
    ensures CubeCompare(cs[0], cs[1]) < 0 && CubeCompare(cs[0], cs[2]) >= 0
            ==> Desc(SwapSeq(cs, 0, 1))
    ensures CubeCompare(cs[0], cs[1]) >= 0 && CubeCompare(cs[0], cs[2]) < 0
            ==> Desc(Rotate3Seq(cs, 0, 2, 1))
    ensures CubeCompare(cs[0], cs[1]) >= 0 && CubeCompare(cs[0], cs[2]) >= 0 && CubeCompare(cs[1], cs[2]) < 0
            ==> Desc(SwapSeq(cs, 1, 2))
    ensures CubeCompare(cs[0], cs[1]) >= 0 && CubeCompare(cs[0], cs[2]) >= 0 && CubeCompare(cs[1], cs[2]) >= 0
            ==> Desc(cs)
  {
    var x, y, z := cs[0], cs[1], cs[2];
    Order(x, y);
    Order(x, z);
    Order(y, z);
    if CubeCompare(x, y) < 0 {
      if CubeCompare(x, z) < 0 {
        if CubeCompare(y, z) < 0 {
          assert SwapSeq(cs, 0, 2) == [z, y, x];
          Desc3(z, y, x);
        } else {
          assert Rotate3Seq(cs, 0, 1, 2) == [y, z, x];
          Desc3(y, z, x);
        }
      } else {
        assert SwapSeq(cs, 0, 1) == [y, x, z];
        Desc3(y, x, z);
      }
    } else if CubeCompare(x, z) < 0 {
      assert Rotate3Seq(cs, 0, 2, 1) == [z, x, y];
      Desc3(z, x, y);
    } else if CubeCompare(y, z) < 0 {
      assert SwapSeq(cs, 1, 2) == [x, z, y];
      Desc3(x, z, y);
    } else {
      assert cs == [x, y, z];
      Desc3(x, y, z);
    }
  }

  /** The cover after the pair at i is put in order: exchanged when the first is below. */
  function PairSorted(s: Cover, i: nat): (r: Cover)
    requires i + 1 < |s|
    ensures |r| == |s|
  {
    if CubeCompare(s[i], s[i + 1]) < 0 then SwapSeq(s, i, i + 1) else s
  }

  /** Ordering a pair keeps the cubes, puts the pair in order and leaves the rest alone. */
  lemma PairSortedFacts(s: Cover, i: nat)
    requires i + 1 < |s| && Distinct(s)
    ensures multiset(PairSorted(s, i)) == multiset(s) && Distinct(PairSorted(s, i))
    ensures Above(PairSorted(s, i)[i], PairSorted(s, i)[i + 1])
    ensures forall k :: 0 <= k < |s| && k != i && k != i + 1 ==> PairSorted(s, i)[k] == s[k]
  {
    SwapSeqPerm(s, i, i + 1);
    Order(s[i], s[i + 1]);
  }

  /**
   * The first half of the n == 4 case: the pair at p of a buffer put in
   * order, by an exchange exactly when the first cube is below.
   */
  lemma PairStep(a: seq<Word>, b: seq<Word>, nb: nat, lo: nat, hi: nat, p: nat)
    requires lo <= p && p + 1 < hi && Base(hi, nb) <= |a|
    requires Base(p, nb) + nb <= |a| && Base(p + 1, nb) + nb <= |a|
    requires Cmp(a, nb, p, p + 1) < 0 ==> b == Swapped(a, nb, p, p + 1)
    requires Cmp(a, nb, p, p + 1) >= 0 ==> b == a
    ensures Permuted(a, b, nb, lo, hi)
    ensures Cubes(b, nb, lo, hi) == PairSorted(Cubes(a, nb, lo, hi), p - lo)
  {
    var cs := Cubes(a, nb, lo, hi);
    CubesAtAbs(a, nb, lo, hi, cs, p);
    CubesAtAbs(a, nb, lo, hi, cs, p + 1);
    if Cmp(a, nb, p, p + 1) < 0 {
      CubesSwapped(a, nb, lo, hi, p, p + 1);
      PairSwapped(a, b, nb, lo, hi, p);
    } else {
      PairKept(a, nb, lo, hi, p);
    }
  }

  lemma PairSwapped(a: seq<Word>, b: seq<Word>, nb: nat, lo: nat, hi: nat, p: nat)
    requires lo <= p && p + 1 < hi && Base(hi, nb) <= |a|
    requires CubeCompare(Cubes(a, nb, lo, hi)[p - lo], Cubes(a, nb, lo, hi)[p + 1 - lo]) < 0
    requires Permuted(a, b, nb, lo, hi)
    requires Cubes(b, nb, lo, hi) == SwapSeq(Cubes(a, nb, lo, hi), p - lo, p + 1 - lo)
    ensures Cubes(b, nb, lo, hi) == PairSorted(Cubes(a, nb, lo, hi), p - lo)
    ensures Permuted(a, b, nb, lo, hi)
  {
    assert p + 1 - lo == p - lo + 1;
  }

  lemma PairKept(a: seq<Word>, nb: nat, lo: nat, hi: nat, p: nat)
    requires lo <= p && p + 1 < hi && Base(hi, nb) <= |a|
    requires CubeCompare(Cubes(a, nb, lo, hi)[p - lo], Cubes(a, nb, lo, hi)[p + 1 - lo]) >= 0
    ensures Cubes(a, nb, lo, hi) == PairSorted(Cubes(a, nb, lo, hi), p - lo)
    ensures Permuted(a, a, nb, lo, hi)
  {
    assert p + 1 - lo == p - lo + 1;
  }

  /**
   * The decision tree of the n == 4 case once both pairs are in order,
   * when the first pair's head is below the second's.
   */
  lemma FourLeavesLow(cs: Cover)
    requires |cs| == 4 && Distinct(cs) && Above(cs[0], cs[1]) && Above(cs[2], cs[3])
    requires CubeCompare(cs[0], cs[2]) < 0
    ensures CubeCompare(cs[0], cs[3]) < 0 ==> Desc(SwapSeq(SwapSeq(cs, 0, 2), 1, 3))
    ensures CubeCompare(cs[0], cs[3]) >= 0 && CubeCompare(cs[1], cs[3]) < 0
            ==> Desc(Rotate4Seq(cs, 0, 2, 3, 1))
    ensures CubeCompare(cs[0], cs[3]) >= 0 && CubeCompare(cs[1], cs[3]) >= 0
            ==> Desc(Rotate3Seq(cs, 0, 2, 1))
  {
    var w, x, y, z := cs[0], cs[1], cs[2], cs[3];
    Order(w, y);
    Order(w, z);
    Order(x, z);
    if CubeCompare(w, z) < 0 {
      assert SwapSeq(SwapSeq(cs, 0, 2), 1, 3) == [y, z, w, x];
      Desc4(y, z, w, x);
    } else if CubeCompare(x, z) < 0 {
      assert Rotate4Seq(cs, 0, 2, 3, 1) == [y, w, z, x];
      Desc4(y, w, z, x);
    } else {
      assert Rotate3Seq(cs, 0, 2, 1) == [y, w, x, z];
      Desc4(y, w, x, z);
    }
  }

  /** The same tree when the first pair's head is above the second's. */
  lemma FourLeavesHigh(cs: Cover)
    requires |cs| == 4 && Distinct(cs) && Above(cs[0], cs[1]) && Above(cs[2], cs[3])
    requires CubeCompare(cs[0], cs[2]) >= 0
    ensures CubeCompare(cs[1], cs[2]) < 0 && CubeCompare(cs[1], cs[3]) < 0
            ==> Desc(Rotate3Seq(cs, 1, 2, 3))
    ensures CubeCompare(cs[1], cs[2]) < 0 && CubeCompare(cs[1], cs[3]) >= 0
            ==> Desc(SwapSeq(cs, 1, 2))
    ensures CubeCompare(cs[1], cs[2]) >= 0 ==> Desc(cs)
  {
    var w, x, y, z := cs[0], cs[1], cs[2], cs[3];
    Order(w, y);
    Order(x, y);
    Order(x, z);
    if CubeCompare(x, y) < 0 {
      if CubeCompare(x, z) < 0 {
        assert Rotate3Seq(cs, 1, 2, 3) == [w, y, z, x];
        Desc4(w, y, z, x);
      } else {
        assert SwapSeq(cs, 1, 2) == [w, y, x, z];
        Desc4(w, y, x, z);
      }
    } else {
      assert cs == [w, x, y, z];
      Desc4(w, x, y, z);
    }
  }

  /** A leaf that exchanges cubes p and q, when the exchanged view is descending. */
  lemma SwapLeaf(a: seq<Word>, b: seq<Word>, nb: nat, lo: nat, hi: nat, p: nat, q: nat)
    requires lo <= p < hi && lo <= q < hi && p != q && Base(hi, nb) <= |a|
    requires Base(p, nb) + nb <= |a| && Base(q, nb) + nb <= |a| && b == Swapped(a, nb, p, q)
    requires Desc(SwapSeq(Cubes(a, nb, lo, hi), p - lo, q - lo))
    ensures SortedRange(a, b, nb, lo, hi)
  {
    CubesSwapped(a, nb, lo, hi, p, q);
    SortedBy(a, b, nb, lo, hi, SwapSeq(Cubes(a, nb, lo, hi), p - lo, q - lo));
  }

  /** A leaf that exchanges p with q and then r with s. */
  lemma SwapSwapLeaf(a: seq<Word>, m: seq<Word>, b: seq<Word>, nb: nat, lo: nat, hi: nat, p: nat, q: nat, r: nat, s: nat)
    requires lo <= p < hi && lo <= q < hi && p != q && lo <= r < hi && lo <= s < hi && r != s && Base(hi, nb) <= |a|
    requires Base(p, nb) + nb <= |a| && Base(q, nb) + nb <= |a| && m == Swapped(a, nb, p, q)
    requires Base(r, nb) + nb <= |m| && Base(s, nb) + nb <= |m| && b == Swapped(m, nb, r, s)
    requires Desc(SwapSeq(SwapSeq(Cubes(a, nb, lo, hi), p - lo, q - lo), r - lo, s - lo))
    ensures SortedRange(a, b, nb, lo, hi)
  {
    CubesSwapped(a, nb, lo, hi, p, q);
    CubesSwapped(m, nb, lo, hi, r, s);
    PermutedTrans(a, m, b, nb, lo, hi);
    SortedBy(a, b, nb, lo, hi, SwapSeq(SwapSeq(Cubes(a, nb, lo, hi), p - lo, q - lo), r - lo, s - lo));
  }

  /** A rotation of three cubes inside the range permutes it. */
  lemma Rotate3Permuted(a: seq<Word>, b: seq<Word>, cs: Cover, nb: nat, lo: nat, hi: nat, i: nat, j: nat, k: nat)
    requires lo <= hi && Base(hi, nb) <= |a| && cs == Cubes(a, nb, lo, hi)
    requires i < hi - lo && j < hi - lo && k < hi - lo && i != j && j != k && i != k
    requires |b| == |a| && SameOutside(a, b, Base(lo, nb), Base(hi, nb))
    requires Cubes(b, nb, lo, hi) == Rotate3Seq(cs, i, j, k)
    ensures Permuted(a, b, nb, lo, hi)
  {
    Rotate3Perm(cs, i, j, k);
    assert multiset(Cubes(b, nb, lo, hi)) == multiset(cs);
  }

  /** A rotation of four cubes inside the range permutes it. */
  lemma Rotate4Permuted(a: seq<Word>, b: seq<Word>, cs: Cover, nb: nat, lo: nat, hi: nat, i: nat, j: nat, k: nat, l: nat)
    requires lo <= hi && Base(hi, nb) <= |a| && cs == Cubes(a, nb, lo, hi)
    requires i < hi - lo && j < hi - lo && k < hi - lo && l < hi - lo
    requires i != j && i != k && i != l && j != k && j != l && k != l
    requires |b| == |a| && SameOutside(a, b, Base(lo, nb), Base(hi, nb))
    requires Cubes(b, nb, lo, hi) == Rotate4Seq(cs, i, j, k, l)
    ensures Permuted(a, b, nb, lo, hi)
  {
    Rotate4Perm(cs, i, j, k, l);
    assert multiset(Cubes(b, nb, lo, hi)) == multiset(cs);
  }

  /** A leaf that changes nothing, when the view is already descending. */
  lemma KeepLeaf(a: seq<Word>, nb: nat, lo: nat, hi: nat)
    requires lo <= hi && Base(hi, nb) <= |a| && Desc(Cubes(a, nb, lo, hi))
    ensures SortedRange(a, a, nb, lo, hi)
  {
  }

  /** The n == 2 case in terms of one compare of the buffer. */
  lemma TwoCases(a: seq<Word>, cs: Cover, nb: nat, lo: nat)
    requires Base(lo + 2, nb) <= |a| && cs == Cubes(a, nb, lo, lo + 2)
    ensures Base(lo, nb) + nb <= |a| && Base(lo + 1, nb) + nb <= |a|
    ensures CubeCompare(cs[0], cs[1]) == Cmp(a, nb, lo, lo + 1)
  {
    Two(a, nb, lo);
  }

  /** The n == 3 case in terms of the compares of the buffer. */
  lemma ThreeCases(a: seq<Word>, cs: Cover, nb: nat, lo: nat)
    requires Base(lo + 3, nb) <= |a| && cs == Cubes(a, nb, lo, lo + 3) && Distinct(cs)
    ensures Base(lo, nb) + nb <= |a| && Base(lo + 1, nb) + nb <= |a| && Base(lo + 2, nb) + nb <= |a|
    ensures CubeCompare(cs[0], cs[1]) == Cmp(a, nb, lo, lo + 1)
    ensures CubeCompare(cs[0], cs[2]) == Cmp(a, nb, lo, lo + 2)
    ensures CubeCompare(cs[1], cs[2]) == Cmp(a, nb, lo + 1, lo + 2)
  {
    Three(a, nb, lo);
  }

  /** The n == 4 case in terms of the compares of the buffer. */
  lemma FourCases(a: seq<Word>, cs: Cover, nb: nat, lo: nat)
    requires Base(lo + 4, nb) <= |a| && cs == Cubes(a, nb, lo, lo + 4)
    ensures Base(lo, nb) + nb <= |a| && Base(lo + 1, nb) + nb <= |a|
    ensures Base(lo + 2, nb) + nb <= |a| && Base(lo + 3, nb) + nb <= |a|
    ensures CubeCompare(cs[0], cs[2]) == Cmp(a, nb, lo, lo + 2)
    ensures CubeCompare(cs[0], cs[3]) == Cmp(a, nb, lo, lo + 3)
    ensures CubeCompare(cs[1], cs[2]) == Cmp(a, nb, lo + 1, lo + 2)
    ensures CubeCompare(cs[1], cs[3]) == Cmp(a, nb, lo + 1, lo + 3)
  {
    Four(a, nb, lo);
  }

  /** cube_swap inside one buffer, by way of cube 0 of the scratch buffer tmp. */
  method SwapCubes(nb: nat, bv: array<Word>, tmp: array<Word>, p: nat, q: nat)
    requires bv != tmp && nb <= tmp.Length
    requires Base(p, nb) + nb <= bv.Length && Base(q, nb) + nb <= bv.Length
    modifies bv, tmp
    ensures bv[..] == Swapped(old(bv[..]), nb, p, q)
    ensures tmp[..] == Put(old(tmp[..]), nb, 0, old(CubeAt(bv[..], nb, p)))
  {
    CubeBuffer.CubeCopy(nb, tmp, 0, bv, p);
    CubeBuffer.CubeCopy(nb, bv, p, bv, q);
    CubeBuffer.CubeCopy(nb, bv, q, tmp, 0);
  }

  /** cube_rotate3 inside one buffer: p gets q, q gets r, r gets the old p. */
  method RotateCubes3(nb: nat, bv: array<Word>, tmp: array<Word>, p: nat, q: nat, r: nat)
    requires bv != tmp && nb <= tmp.Length
    requires Base(p, nb) + nb <= bv.Length && Base(q, nb) + nb <= bv.Length && Base(r, nb) + nb <= bv.Length
    modifies bv, tmp
    ensures bv[..] == Rotated3(old(bv[..]), nb, p, q, r)
    ensures tmp[..] == Put(old(tmp[..]), nb, 0, old(CubeAt(bv[..], nb, p)))
  {
    CubeBuffer.CubeCopy(nb, tmp, 0, bv, p);
    CubeBuffer.CubeCopy(nb, bv, p, bv, q);
    CubeBuffer.CubeCopy(nb, bv, q, bv, r);
    CubeBuffer.CubeCopy(nb, bv, r, tmp, 0);
  }

  /** cube_rotate4 inside one buffer: p gets q, q gets r, r gets s, s gets the old p. */
  method RotateCubes4(nb: nat, bv: array<Word>, tmp: array<Word>, p: nat, q: nat, r: nat, s: nat)
    requires bv != tmp && nb <= tmp.Length
    requires Base(p, nb) + nb <= bv.Length && Base(q, nb) + nb <= bv.Length
    requires Base(r, nb) + nb <= bv.Length && Base(s, nb) + nb <= bv.Length
    modifies bv, tmp
    ensures bv[..] == Rotated4(old(bv[..]), nb, p, q, r, s)
    ensures tmp[..] == Put(old(tmp[..]), nb, 0, old(CubeAt(bv[..], nb, p)))
  {
    CubeBuffer.CubeCopy(nb, tmp, 0, bv, p);
    CubeBuffer.CubeCopy(nb, bv, p, bv, q);
    CubeBuffer.CubeCopy(nb, bv, q, bv, r);
    CubeBuffer.CubeCopy(nb, bv, r, bv, s);
    CubeBuffer.CubeCopy(nb, bv, s, tmp, 0);
  }

  /** A leaf of the small cases: exchange cubes p and q, which puts the range in order. */
  method SwapStep(nb: nat, bv: array<Word>, tmp: array<Word>, lo: nat, hi: nat, p: nat, q: nat)
    requires bv != tmp && nb <= tmp.Length && lo <= p < hi && lo <= q < hi && p != q && Base(hi, nb) <= bv.Length
    requires Desc(SwapSeq(Cubes(bv[..], nb, lo, hi), p - lo, q - lo))
    modifies bv, tmp
    ensures SortedRange(old(bv[..]), bv[..], nb, lo, hi)
  {
    ghost var a := bv[..];
    CubeInside(p, hi, nb);
    CubeInside(q, hi, nb);
    SwapCubes(nb, bv, tmp, p, q);
    SwapLeaf(a, bv[..], nb, lo, hi, p, q);
  }

  /** The first leaf of the n == 4 case: exchange p with q, then r with s. */
  method SwapSwapStep(nb: nat, bv: array<Word>, tmp: array<Word>, lo: nat, hi: nat, p: nat, q: nat, r: nat, s: nat)
    requires bv != tmp && nb <= tmp.Length && lo <= p < hi && lo <= q < hi && p != q && Base(hi, nb) <= bv.Length
    requires lo <= r < hi && lo <= s < hi && r != s
    requires Desc(SwapSeq(SwapSeq(Cubes(bv[..], nb, lo, hi), p - lo, q - lo), r - lo, s - lo))
    modifies bv, tmp
    ensures SortedRange(old(bv[..]), bv[..], nb, lo, hi)
  {
    ghost var a := bv[..];
    CubeInside(p, hi, nb);
    CubeInside(q, hi, nb);
    CubeInside(r, hi, nb);
    CubeInside(s, hi, nb);
    SwapCubes(nb, bv, tmp, p, q);
    ghost var m := bv[..];
    SwapCubes(nb, bv, tmp, r, s);
    SwapSwapLeaf(a, m, bv[..], nb, lo, hi, p, q, r, s);
  }

  /** A leaf of the small cases: rotate cubes p, q and r, which puts the range in order. */
  method Rotate3Step(nb: nat, bv: array<Word>, tmp: array<Word>, lo: nat, hi: nat, p: nat, q: nat, r: nat)
    requires bv != tmp && nb <= tmp.Length && lo <= p < hi && lo <= q < hi && lo <= r < hi && Base(hi, nb) <= bv.Length
    requires p != q && q != r && p != r
    requires Desc(Rotate3Seq(Cubes(bv[..], nb, lo, hi), p - lo, q - lo, r - lo))
    modifies bv, tmp
    ensures SortedRange(old(bv[..]), bv[..], nb, lo, hi)
  {
    ghost var a := bv[..];
    CubeInside(p, hi, nb);
    CubeInside(q, hi, nb);
    CubeInside(r, hi, nb);
    RotateCubes3(nb, bv, tmp, p, q, r);
    ghost var cs := Cubes(a, nb, lo, hi);
    CubesRotated3(a, bv[..], nb, lo, hi, p, q, r);
    Rotate3Permuted(a, bv[..], cs, nb, lo, hi, p - lo, q - lo, r - lo);
  }

  /** A leaf of the n == 4 case: rotate cubes p, q, r and s, which puts the range in order. */
  method Rotate4Step(nb: nat, bv: array<Word>, tmp: array<Word>, lo: nat, hi: nat, p: nat, q: nat, r: nat, s: nat)
    requires bv != tmp && nb <= tmp.Length && lo <= p < hi && lo <= q < hi && lo <= r < hi && lo <= s < hi
    requires Base(hi, nb) <= bv.Length && p != q && p != r && p != s && q != r && q != s && r != s
    requires Desc(Rotate4Seq(Cubes(bv[..], nb, lo, hi), p - lo, q - lo, r - lo, s - lo))
    modifies bv, tmp
    ensures SortedRange(old(bv[..]), bv[..], nb, lo, hi)
  {
    ghost var a := bv[..];
    CubeInside(p, hi, nb);
    CubeInside(q, hi, nb);
    CubeInside(r, hi, nb);
    CubeInside(s, hi, nb);
    RotateCubes4(nb, bv, tmp, p, q, r, s);
    ghost var cs := Cubes(a, nb, lo, hi);
    CubesRotated4(a, bv[..], nb, lo, hi, p, q, r, s);
    Rotate4Permuted(a, bv[..], cs, nb, lo, hi, p - lo, q - lo, r - lo, s - lo);
  }

  /**
   * The n == 3 case of _sort on cubes lo, lo + 1 and lo + 2: three
   * compares pick one of six exchanges or rotations through tmp.
   */
  method Sort3Cubes(nb: nat, bv: array<Word>, tmp: array<Word>, lo: nat)
    requires bv != tmp && nb <= tmp.Length && Base(lo + 3, nb) <= bv.Length
    requires Distinct(Cubes(bv[..], nb, lo, lo + 3))
    modifies bv, tmp
    ensures SortedRange(old(bv[..]), bv[..], nb, lo, lo + 3)
  {
    ThreeCases(bv[..], Cubes(bv[..], nb, lo, lo + 3), nb, lo);
    var c01 := CubeBuffer.CubeCompareAt(nb, bv, lo, bv, lo + 1);
    if c01 < 0 {
      Sort3Below(nb, bv, tmp, lo);
    } else {
      Sort3Above(nb, bv, tmp, lo);
    }
  }

  /** The n == 3 case once cube 0 is below cube 1: the orders (1, 0, 2), (1, 2, 0) and (2, 1, 0). */
  method Sort3Below(nb: nat, bv: array<Word>, tmp: array<Word>, lo: nat)
    requires bv != tmp && nb <= tmp.Length && Base(lo + 3, nb) <= bv.Length
    requires Distinct(Cubes(bv[..], nb, lo, lo + 3))
    requires Base(lo + 1, nb) + nb <= bv.Length && Cmp(bv[..], nb, lo, lo + 1) < 0
    modifies bv, tmp
    ensures SortedRange(old(bv[..]), bv[..], nb, lo, lo + 3)
  {
    ghost var cs := Cubes(bv[..], nb, lo, lo + 3);
    ThreeCases(bv[..], cs, nb, lo);
    ThreeLeaves(cs);
    var c02 := CubeBuffer.CubeCompareAt(nb, bv, lo, bv, lo + 2);
    if c02 < 0 {
      var c12 := CubeBuffer.CubeCompareAt(nb, bv, lo + 1, bv, lo + 2);
      if c12 < 0 {
        SwapStep(nb, bv, tmp, lo, lo + 3, lo, lo + 2);
      } else {
        Rotate3Step(nb, bv, tmp, lo, lo + 3, lo, lo + 1, lo + 2);
      }
    } else {
      SwapStep(nb, bv, tmp, lo, lo + 3, lo, lo + 1);
    }
  }

  /** The n == 3 case once cube 0 is not below cube 1: the orders (0, 1, 2), (0, 2, 1) and (2, 0, 1). */
  method Sort3Above(nb: nat, bv: array<Word>, tmp: array<Word>, lo: nat)
    requires bv != tmp && nb <= tmp.Length && Base(lo + 3, nb) <= bv.Length
    requires Distinct(Cubes(bv[..], nb, lo, lo + 3))
    requires Base(lo + 1, nb) + nb <= bv.Length && Cmp(bv[..], nb, lo, lo + 1) >= 0
    modifies bv, tmp
    ensures SortedRange(old(bv[..]), bv[..], nb, lo, lo + 3)
  {
    ghost var cs := Cubes(bv[..], nb, lo, lo + 3);
    ThreeCases(bv[..], cs, nb, lo);
    ThreeLeaves(cs);
    var c02 := CubeBuffer.CubeCompareAt(nb, bv, lo, bv, lo + 2);
    if c02 < 0 {
      Rotate3Step(nb, bv, tmp, lo, lo + 3, lo, lo + 2, lo + 1);
    } else {
      var c12 := CubeBuffer.CubeCompareAt(nb, bv, lo + 1, bv, lo + 2);
      if c12 < 0 {
        SwapStep(nb, bv, tmp, lo, lo + 3, lo + 1, lo + 2);
      } else {
        KeepLeaf(bv[..], nb, lo, lo + 3);
      }
    }
  }

  /** Put the pair p, p + 1 in order: exchange it when the first cube is below. */
  method PairCubes(nb: nat, bv: array<Word>, tmp: array<Word>, lo: nat, hi: nat, p: nat)
    requires bv != tmp && nb <= tmp.Length && lo <= p && p + 1 < hi && Base(hi, nb) <= bv.Length
    modifies bv, tmp
    ensures Permuted(old(bv[..]), bv[..], nb, lo, hi)
    ensures Cubes(bv[..], nb, lo, hi) == PairSorted(old(Cubes(bv[..], nb, lo, hi)), p - lo)
  {
    ghost var a := bv[..];
    CubeInside(p, hi, nb);
    CubeInside(p + 1, hi, nb);
    var c := CubeBuffer.CubeCompareAt(nb, bv, p, bv, p + 1);
    if c < 0 {
      SwapCubes(nb, bv, tmp, p, p + 1);
    }
    PairStep(a, bv[..], nb, lo, hi, p);
  }

  /** Both pairs of four different cubes put in order: the cubes stay, each pair descends. */
  lemma PairsSorted(cs: Cover, t: Cover)
    requires |cs| == 4 && Distinct(cs) && t == PairSorted(PairSorted(cs, 0), 2)
    ensures multiset(t) == multiset(cs) && Distinct(t)
    ensures Above(t[0], t[1]) && Above(t[2], t[3])
  {
    PairSortedFacts(cs, 0);
    PairSortedFacts(PairSorted(cs, 0), 2);
  }

  /**
   * The n == 4 case of _sort on cubes lo .. lo + 3: both pairs are put in
   * order, then at most three more compares pick the final exchange or
   * rotation.
   */
  method Sort4Cubes(nb: nat, bv: array<Word>, tmp: array<Word>, lo: nat)
    requires bv != tmp && nb <= tmp.Length && Base(lo + 4, nb) <= bv.Length
    requires Distinct(Cubes(bv[..], nb, lo, lo + 4))
    modifies bv, tmp
    ensures SortedRange(old(bv[..]), bv[..], nb, lo, lo + 4)
  {
    ghost var a := bv[..];
    PairCubes(nb, bv, tmp, lo, lo + 4, lo);
    ghost var m1 := bv[..];
    PairCubes(nb, bv, tmp, lo, lo + 4, lo + 2);
    ghost var m := bv[..];
    PermutedTrans(a, m1, m, nb, lo, lo + 4);
    PairsSorted(Cubes(a, nb, lo, lo + 4), Cubes(m, nb, lo, lo + 4));
    Sort4Sorted(nb, bv, tmp, lo);
    SortedAfter(a, m, bv[..], nb, lo, lo + 4);
  }

  /** The n == 4 case once both pairs are in order. */
  method Sort4Sorted(nb: nat, bv: array<Word>, tmp: array<Word>, lo: nat)
    requires bv != tmp && nb <= tmp.Length && Base(lo + 4, nb) <= bv.Length
    requires Distinct(Cubes(bv[..], nb, lo, lo + 4))
    requires Above(Cubes(bv[..], nb, lo, lo + 4)[0], Cubes(bv[..], nb, lo, lo + 4)[1])
    requires Above(Cubes(bv[..], nb, lo, lo + 4)[2], Cubes(bv[..], nb, lo, lo + 4)[3])
    modifies bv, tmp
    ensures SortedRange(old(bv[..]), bv[..], nb, lo, lo + 4)
  {
    FourCases(bv[..], Cubes(bv[..], nb, lo, lo + 4), nb, lo);
    var c02 := CubeBuffer.CubeCompareAt(nb, bv, lo, bv, lo + 2);
    if c02 < 0 {
      Sort4Low(nb, bv, tmp, lo);
    } else {
      Sort4High(nb, bv, tmp, lo);
    }
  }

  /** The n == 4 case once cube 0 is below cube 2: cube 2 leads. */
  method Sort4Low(nb: nat, bv: array<Word>, tmp: array<Word>, lo: nat)
    requires bv != tmp && nb <= tmp.Length && Base(lo + 4, nb) <= bv.Length
    requires Distinct(Cubes(bv[..], nb, lo, lo + 4))
    requires Above(Cubes(bv[..], nb, lo, lo + 4)[0], Cubes(bv[..], nb, lo, lo + 4)[1])
    requires Above(Cubes(bv[..], nb, lo, lo + 4)[2], Cubes(bv[..], nb, lo, lo + 4)[3])
    requires Base(lo + 2, nb) + nb <= bv.Length && Cmp(bv[..], nb, lo, lo + 2) < 0
    modifies bv, tmp
    ensures SortedRange(old(bv[..]), bv[..], nb, lo, lo + 4)
  {
    ghost var cs := Cubes(bv[..], nb, lo, lo + 4);
    FourCases(bv[..], cs, nb, lo);
    FourLeavesLow(cs);
    var c03 := CubeBuffer.CubeCompareAt(nb, bv, lo, bv, lo + 3);
    if c03 < 0 {
      SwapSwapStep(nb, bv, tmp, lo, lo + 4, lo, lo + 2, lo + 1, lo + 3);
    } else {
      var c13 := CubeBuffer.CubeCompareAt(nb, bv, lo + 1, bv, lo + 3);
      if c13 < 0 {
        Rotate4Step(nb, bv, tmp, lo, lo + 4, lo, lo + 2, lo + 3, lo + 1);
      } else {
        Rotate3Step(nb, bv, tmp, lo, lo + 4, lo, lo + 2, lo + 1);
      }
    }
  }

  /** The n == 4 case once cube 0 is not below cube 2: cube 0 leads. */
  method Sort4High(nb: nat, bv: array<Word>, tmp: array<Word>, lo: nat)
    requires bv != tmp && nb <= tmp.Length && Base(lo + 4, nb) <= bv.Length
    requires Distinct(Cubes(bv[..], nb, lo, lo + 4))
    requires Above(Cubes(bv[..], nb, lo, lo + 4)[0], Cubes(bv[..], nb, lo, lo + 4)[1])
    requires Above(Cubes(bv[..], nb, lo, lo + 4)[2], Cubes(bv[..], nb, lo, lo + 4)[3])
    requires Base(lo + 2, nb) + nb <= bv.Length && Cmp(bv[..], nb, lo, lo + 2) >= 0
    modifies bv, tmp
    ensures SortedRange(old(bv[..]), bv[..], nb, lo, lo + 4)
  {
    ghost var cs := Cubes(bv[..], nb, lo, lo + 4);
    FourCases(bv[..], cs, nb, lo);
    FourLeavesHigh(cs);
    var c12 := CubeBuffer.CubeCompareAt(nb, bv, lo + 1, bv, lo + 2);
    if c12 < 0 {
      var c13 := CubeBuffer.CubeCompareAt(nb, bv, lo + 1, bv, lo + 3);
      if c13 < 0 {
        Rotate3Step(nb, bv, tmp, lo, lo + 4, lo + 1, lo + 2, lo + 3);
      } else {
        SwapStep(nb, bv, tmp, lo, lo + 4, lo + 1, lo + 2);
      }
    } else {
      KeepLeaf(bv[..], nb, lo, lo + 4);
    }
  }

  // ---------------------------------------------------------------------
  // Merging two sorted halves back into the buffer
  // ---------------------------------------------------------------------

  /**
   * The merge's write state: cubes lo .. w - 1 hold done, and every other
   * word still holds what the buffer held when the merge began.
   */
  ghost predicate Written(b: seq<Word>, d0: seq<Word>, nb: nat, lo: nat, w: nat, done: Cover)
  {
    |b| == |d0| && lo <= w && Base(w, nb) <= |b| && Cubes(b, nb, lo, w) == done &&
    forall k :: 0 <= k < |b| && !(Base(lo, nb) <= k < Base(w, nb)) ==> b[k] == d0[k]
  }

  /** Writing the next cube extends the written range by it. */
  lemma WrittenStep(b: seq<Word>, d0: seq<Word>, nb: nat, lo: nat, w: nat, done: Cover, x: Cube)
    requires Written(b, d0, nb, lo, w, done) && Base(w + 1, nb) <= |b| && |x| == nb
    ensures Base(w, nb) + nb <= |b|
    ensures Written(Put(b, nb, w, x), d0, nb, lo, w + 1, done + [x])
  {
    var b' := Put(b, nb, w, x);
    CubesSplit(b', nb, lo, w, w + 1);
    CubesSplice(b, nb, lo, w, w, x);
    CubesOne(b', nb, w);
    CubeAtSplice(b, nb, w, w, x);
    SpliceIndex(b, Base(w, nb), x);
    BaseMono(lo, w, nb);
  }

  /** A cube at or above the write cursor is still the original one. */
  lemma WrittenRead(b: seq<Word>, d0: seq<Word>, nb: nat, lo: nat, w: nat, done: Cover, r: nat)
    requires Written(b, d0, nb, lo, w, done) && w <= r && Base(r + 1, nb) <= |b|
    ensures Base(r, nb) + nb <= |b|
    ensures CubeAt(b, nb, r) == CubeAt(d0, nb, r)
  {
    BaseMono(w, r, nb);
    CubeAtAgree(b, d0, nb, r);
  }

  /** The cubes from the write cursor on are still the original ones. */
  lemma WrittenRest(b: seq<Word>, d0: seq<Word>, nb: nat, lo: nat, w: nat, done: Cover, hi: nat)
    requires Written(b, d0, nb, lo, w, done) && w <= hi && Base(hi, nb) <= |b|
    ensures Cubes(b, nb, w, hi) == Cubes(d0, nb, w, hi)
  {
    CubesAgree(b, d0, nb, w, hi);
  }

  /** Dropping the first j cubes of a range. */
  lemma CubesDrop(a: seq<Word>, nb: nat, lo: nat, hi: nat, j: nat)
    requires lo + j <= hi && Base(hi, nb) <= |a|
    ensures Cubes(a, nb, lo, hi)[j..] == Cubes(a, nb, lo + j, hi)
  {
  }

  /**
   * One round of the merge loop: cube r1 of tmp and cube r2 of bv are
   * compared, and the greater is copied to cube w of bv.
   */
  method CopyGreater(nb: nat, bv: array<Word>, w: nat, tmp: array<Word>, r1: nat, r2: nat) returns (c: int)
    requires tmp != bv && Base(w, nb) + nb <= bv.Length && Base(r1, nb) + nb <= tmp.Length && Base(r2, nb) + nb <= bv.Length
    modifies bv
    ensures c == CubeCompare(CubeAt(tmp[..], nb, r1), old(CubeAt(bv[..], nb, r2)))
    ensures bv[..] == Put(old(bv[..]), nb, w, if c > 0 then CubeAt(tmp[..], nb, r1) else old(CubeAt(bv[..], nb, r2)))
  {
    c := CubeBuffer.CubeCompareAt(nb, tmp, r1, bv, r2);
    if c > 0 {
      CubeBuffer.CubeCopy(nb, bv, w, tmp, r1);
    } else {
      CubeBuffer.CubeCopy(nb, bv, w, bv, r2);
    }
  }

  /** Cube c of the buffer, as an element of the range lo .. hi - 1. */
  lemma CubesAtAbs(a: seq<Word>, nb: nat, lo: nat, hi: nat, s: Cover, c: nat)
    requires Base(hi, nb) <= |a| && lo <= c < hi && s == Cubes(a, nb, lo, hi)
    ensures Base(c, nb) + nb <= |a|
    ensures CubeAt(a, nb, c) == s[c - lo]
  {
    CubeInside(c, hi, nb);
    CubesAt(a, nb, lo, hi, c - lo);
  }

  /** The head of the second half, read from the array above the write cursor. */
  lemma HeadSecond(b: seq<Word>, d0: seq<Word>, nb: nat, start: nat, hn: nat, end: nat,
                   s2: Cover, r2: nat, w: nat, done: Cover)
    requires Base(end, nb) <= |d0| && start + hn <= r2 < end && start <= w <= r2
    requires s2 == Cubes(d0, nb, start + hn, end)
    requires Written(b, d0, nb, start, w, done)
    ensures Base(r2, nb) + nb <= |b| && Base(w, nb) + nb <= |b|
    ensures CubeAt(b, nb, r2) == s2[r2 - (start + hn)]
  {
    CubeInside(w, end, nb);
    CubesAtAbs(d0, nb, start + hn, end, s2, r2);
    WrittenRead(b, d0, nb, start, w, done, r2);
  }

  /** A round in which the head of the first half is the greater. */
  lemma TakeFirst(b: seq<Word>, b': seq<Word>, d0: seq<Word>, nb: nat, start: nat, w: nat,
                  s1: Cover, s2: Cover, i: nat, j: nat, done: Cover) returns (done': Cover)
    requires Written(b, d0, nb, start, w, done) && Base(w + 1, nb) <= |b|
    requires i < |s1| && j < |s2| && done + Merge(s1[i..], s2[j..]) == Merge(s1, s2) && |s1[i]| == nb
    requires CubeCompare(s1[i], s2[j]) > 0 && b' == Put(b, nb, w, s1[i])
    ensures Written(b', d0, nb, start, w + 1, done') && done' + Merge(s1[i + 1..], s2[j..]) == Merge(s1, s2)
  {
    MergeAdvance(s1, s2, i, j, done);
    WrittenStep(b, d0, nb, start, w, done, s1[i]);
    done' := done + [s1[i]];
  }

  /** A round in which the head of the second half is the greater; the heads are never equal. */
  lemma TakeSecond(b: seq<Word>, b': seq<Word>, d0: seq<Word>, nb: nat, start: nat, w: nat,
                   s1: Cover, s2: Cover, i: nat, j: nat, done: Cover) returns (done': Cover)
    requires Written(b, d0, nb, start, w, done) && Base(w + 1, nb) <= |b|
    requires i < |s1| && j < |s2| && done + Merge(s1[i..], s2[j..]) == Merge(s1, s2) && |s2[j]| == nb
    requires CubeCompare(s1[i], s2[j]) <= 0 && s1[i] != s2[j] && b' == Put(b, nb, w, s2[j])
    ensures Written(b', d0, nb, start, w + 1, done') && done' + Merge(s1[i..], s2[j + 1..]) == Merge(s1, s2)
  {
    CompareZeroIff(s1[i], s2[j]);
    MergeAdvance(s1, s2, i, j, done);
    WrittenStep(b, d0, nb, start, w, done, s2[j]);
    done' := done + [s2[j]];
  }

  /** One round of the closing loop: the next cube of the first half is written. */
  method TailStep(nb: nat, bv: array<Word>, start: nat, hn: nat, end: nat, tmp: array<Word>,
                  ghost s1: Cover, ghost d0: seq<Word>, r1: nat, w: nat, ghost done: Cover)
    returns (ghost done': Cover)
    requires tmp != bv && Base(end, nb) <= |d0| && Base(hn, nb) <= tmp.Length
    requires s1 == Cubes(tmp[..], nb, 0, hn)
    requires r1 < hn && w < end && start <= w
    requires Written(bv[..], d0, nb, start, w, done)
    modifies bv
    ensures Written(bv[..], d0, nb, start, w + 1, done')
    ensures done' + s1[r1 + 1..] == done + s1[r1..]
  {
    CubeInside(r1, hn, nb);
    CubeInside(w, end, nb);
    CubesAt(tmp[..], nb, 0, hn, r1);
    ghost var b := bv[..];
    CubeBuffer.CubeCopy(nb, bv, w, tmp, r1);
    assert bv[..] == Put(b, nb, w, s1[r1]);
    WrittenStep(b, d0, nb, start, w, done, s1[r1]);
    done' := done + [s1[r1]];
    assert s1[r1..] == [s1[r1]] + s1[r1 + 1..];
  }

  /**
   * One round of the merge loop: the greater of the two heads is copied to
   * the write cursor, and the read cursor of its half moves on.
   */
  method MergeRound(nb: nat, bv: array<Word>, start: nat, hn: nat, end: nat, tmp: array<Word>,
                    ghost s1: Cover, ghost s2: Cover, ghost d0: seq<Word>, r1: nat, r2: nat, w: nat,
                    ghost j: nat, ghost done: Cover)
    returns (r1': nat, r2': nat, ghost j': nat, ghost done': Cover)
    requires tmp != bv && start + hn <= end && Base(end, nb) <= |d0| && Base(hn, nb) <= tmp.Length
    requires s1 == Cubes(tmp[..], nb, 0, hn) && s2 == Cubes(d0, nb, start + hn, end) && Disjoint(s1, s2)
    requires r1 < hn && r2 < end && r2 == start + hn + j && w == start + r1 + j
    requires Written(bv[..], d0, nb, start, w, done) && done + Merge(s1[r1..], s2[j..]) == Merge(s1, s2)
    modifies bv
    ensures (r1' == r1 + 1 && r2' == r2 && j' == j) || (r1' == r1 && r2' == r2 + 1 && j' == j + 1)
    ensures Written(bv[..], d0, nb, start, w + 1, done') && done' + Merge(s1[r1'..], s2[j'..]) == Merge(s1, s2)
  {
    ghost var b := bv[..];
    CubesAtAbs(tmp[..], nb, 0, hn, s1, r1);
    HeadSecond(b, d0, nb, start, hn, end, s2, r2, w, done);
    var c := CopyGreater(nb, bv, w, tmp, r1, r2);
    if c > 0 {
      done' := TakeFirst(b, bv[..], d0, nb, start, w, s1, s2, r1, j, done);
      r1', r2', j' := r1 + 1, r2, j;
    } else {
      done' := TakeSecond(b, bv[..], d0, nb, start, w, s1, s2, r1, j, done);
      r1', r2', j' := r1, r2 + 1, j + 1;
    }
  }

  /**
   * The merge loop of _sort: it runs while both halves have cubes left, and
   * cubes start .. w - 1 then hold the start of the merge.
   */
  method MergeHeads(nb: nat, bv: array<Word>, start: nat, hn: nat, end: nat, tmp: array<Word>,
                    ghost s1: Cover, ghost s2: Cover)
    returns (r1: nat, r2: nat, w: nat, ghost j: nat, ghost done: Cover)
    requires tmp != bv && start + hn <= end && Base(end, nb) <= bv.Length && Base(hn, nb) <= tmp.Length
    requires s1 == Cubes(tmp[..], nb, 0, hn) && s2 == Cubes(bv[..], nb, start + hn, end) && Disjoint(s1, s2)
    modifies bv
    ensures r1 <= hn && r2 == start + hn + j <= end && w == start + r1 + j && (r1 == hn || r2 == end)
    ensures Written(bv[..], old(bv[..]), nb, start, w, done)
    ensures done + Merge(s1[r1..], s2[j..]) == Merge(s1, s2)
  {
    ghost var d0 := bv[..];
    r1, r2, w, j, done := 0, start + hn, start, 0, [];
    BaseMono(start, end, nb);
    assert Cubes(d0, nb, start, start) == [];
    assert s1[0..] == s1 && s2[0..] == s2;
    while r1 < hn && r2 < end
      invariant r1 <= hn && start + hn <= r2 <= end && r2 == start + hn + j && w == start + r1 + j
      invariant Written(bv[..], d0, nb, start, w, done)
      invariant done + Merge(s1[r1..], s2[j..]) == Merge(s1, s2)
      decreases hn - r1 + end - r2
    {
      r1, r2, j, done := MergeRound(nb, bv, start, hn, end, tmp, s1, s2, d0, r1, r2, w, j, done);
      w := w + 1;
    }
  }

  /**
   * The merge at the end of _sort: the first half, copied to tmp, and the
   * second half, still in place at cubes start + hn .. end - 1, are merged
   * into cubes start .. end - 1. The write cursor never passes the read
   * cursor of the second half, and once the first half is used up the
   * rest of the second half is already where it belongs.
   */
  method MergeBack(nb: nat, bv: array<Word>, start: nat, hn: nat, end: nat, tmp: array<Word>,
                   ghost s1: Cover, ghost s2: Cover)
    requires tmp != bv && start + hn <= end && Base(end, nb) <= bv.Length && Base(hn, nb) <= tmp.Length
    requires s1 == Cubes(tmp[..], nb, 0, hn) && s2 == Cubes(bv[..], nb, start + hn, end) && Disjoint(s1, s2)
    modifies bv
    ensures Cubes(bv[..], nb, start, end) == Merge(s1, s2)
    ensures SameOutside(old(bv[..]), bv[..], Base(start, nb), Base(end, nb))
  {
    ghost var d0 := bv[..];
    var r1, r2, w, j, done := MergeHeads(nb, bv, start, hn, end, tmp, s1, s2);
    MergeFinish(s1, s2, r1, j, done);
    MergeTail(nb, bv, start, hn, end, tmp, s1, d0, r1, w, done);
    w := w + (hn - r1);
    done := done + s1[r1..];
    MergeBackEnd(bv[..], d0, nb, start, hn, end, w, done, s1, s2, j);
  }

  /** Once the first half is written, the rest of the second half is already in place. */
  lemma MergeBackEnd(b: seq<Word>, d0: seq<Word>, nb: nat, start: nat, hn: nat, end: nat, w: nat,
                     done: Cover, s1: Cover, s2: Cover, j: nat)
    requires start + hn + j <= end && Base(end, nb) <= |d0| && |s1| == hn && w == start + hn + j
    requires Written(b, d0, nb, start, w, done) && s2 == Cubes(d0, nb, start + hn, end)
    requires done + s2[j..] == Merge(s1, s2)
    ensures Cubes(b, nb, start, end) == Merge(s1, s2)
    ensures SameOutside(d0, b, Base(start, nb), Base(end, nb))
  {
    WrittenRest(b, d0, nb, start, w, done, end);
    CubesDrop(d0, nb, start + hn, end, j);
    CubesSplit(b, nb, start, w, end);
    BaseMono(w, end, nb);
  }

  /** The closing loop: what is left of the first half is copied, in order, behind what is written. */
  method MergeTail(nb: nat, bv: array<Word>, start: nat, hn: nat, end: nat, tmp: array<Word>,
                   ghost s1: Cover, ghost d0: seq<Word>, r0: nat, w0: nat, ghost done0: Cover)
    requires tmp != bv && Base(end, nb) <= |d0| && Base(hn, nb) <= tmp.Length
    requires s1 == Cubes(tmp[..], nb, 0, hn)
    requires r0 <= hn && w0 + (hn - r0) <= end && start <= w0
    requires Written(bv[..], d0, nb, start, w0, done0)
    modifies bv
    ensures Written(bv[..], d0, nb, start, w0 + (hn - r0), done0 + s1[r0..])
  {
    var r1, w := r0, w0;
    ghost var done := done0;
    while r1 < hn
      invariant r0 <= r1 <= hn && w == w0 + (r1 - r0)
      invariant Written(bv[..], d0, nb, start, w, done)
      invariant done + s1[r1..] == done0 + s1[r0..]
      decreases hn - r1
    {
      done := TailStep(nb, bv, start, hn, end, tmp, s1, d0, r1, w, done);
      r1 := r1 + 1;
      w := w + 1;
    }
    assert s1[hn..] == [] && done + [] == done;
  }

  // ---------------------------------------------------------------------
  // The merge branch of _sort
  // ---------------------------------------------------------------------

  /** The two halves of a range of different cubes: each without repeats, and sharing none. */
  lemma Halves(a: seq<Word>, nb: nat, lo: nat, mid: nat, hi: nat)
    requires lo <= mid <= hi && Base(hi, nb) <= |a| && Distinct(Cubes(a, nb, lo, hi))
    ensures Base(mid, nb) <= Base(hi, nb)
    ensures Distinct(Cubes(a, nb, lo, mid)) && Distinct(Cubes(a, nb, mid, hi))
    ensures Disjoint(Cubes(a, nb, lo, mid), Cubes(a, nb, mid, hi))
  {
    BaseMono(mid, hi, nb);
    CubesSplit(a, nb, lo, mid, hi);
    DistinctSplit(Cubes(a, nb, lo, hi), mid - lo);
  }

  /**
   * The early exit of the merge branch: two sorted halves whose meeting
   * cubes are in order already make a sorted range.
   */
  lemma SortedJoin(a: seq<Word>, c: seq<Word>, nb: nat, lo: nat, mid: nat, hi: nat)
    requires lo < mid < hi && Base(hi, nb) <= |a| && Permuted(a, c, nb, lo, hi)
    requires Base(mid - 1, nb) + nb <= |c| && Base(mid, nb) + nb <= |c| && Cmp(c, nb, mid - 1, mid) > 0
    requires Desc(Cubes(c, nb, lo, mid)) && Desc(Cubes(c, nb, mid, hi))
    ensures SortedRange(a, c, nb, lo, hi)
  {
    var s, t := Cubes(c, nb, lo, mid), Cubes(c, nb, mid, hi);
    CubesSplit(c, nb, lo, mid, hi);
    CubesAt(c, nb, lo, mid, mid - 1 - lo);
    CubesAt(c, nb, mid, hi, 0);
    DescJoin(s, t);
  }

  /**
   * The merge proper: the first half is parked in tmp, then the halves
   * are merged back into the range, larger cube first.
   */
  method MergeHalves(nb: nat, bv: array<Word>, tmp: array<Word>, start: nat, hn: nat, end: nat)
    requires tmp != bv && start + hn <= end && Base(end, nb) <= bv.Length && Base(hn, nb) <= tmp.Length
    requires Base(start + hn, nb) <= Base(end, nb)
    requires Desc(Cubes(bv[..], nb, start, start + hn)) && Desc(Cubes(bv[..], nb, start + hn, end))
    requires Disjoint(Cubes(bv[..], nb, start, start + hn), Cubes(bv[..], nb, start + hn, end))
    modifies bv, tmp
    ensures SortedRange(old(bv[..]), bv[..], nb, start, end)
  {
    ghost var a := bv[..];
    ghost var t0 := tmp[..];
    BaseMono(start + hn, end, nb);
    CubeBuffer.Copy(nb, hn, tmp, 0, bv, start);
    CubesCopied(t0, a, nb, 0, start, hn);
    ghost var s1 := Cubes(tmp[..], nb, 0, hn);
    ghost var s2 := Cubes(bv[..], nb, start + hn, end);
    MergeBack(nb, bv, start, hn, end, tmp, s1, s2);
    MergedSorted(a, bv[..], nb, start, start + hn, end, s1, s2);
  }

  /** A range that holds the merge of its two sorted, disjoint halves is sorted. */
  lemma MergedSorted(a: seq<Word>, b: seq<Word>, nb: nat, lo: nat, mid: nat, hi: nat, s1: Cover, s2: Cover)
    requires lo <= mid <= hi && Base(mid, nb) <= Base(hi, nb) && Base(hi, nb) <= |a| && |b| == |a|
    requires s1 == Cubes(a, nb, lo, mid) && s2 == Cubes(a, nb, mid, hi)
    requires Desc(s1) && Desc(s2) && Disjoint(s1, s2)
    requires Cubes(b, nb, lo, hi) == Merge(s1, s2) && SameOutside(a, b, Base(lo, nb), Base(hi, nb))
    ensures SortedRange(a, b, nb, lo, hi)
  {
    MergeDesc(s1, s2);
    MergeDisjoint(s1, s2);
    CubesSplit(a, nb, lo, mid, hi);
  }
}
