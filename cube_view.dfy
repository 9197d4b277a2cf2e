/**
 * Covers as flat word buffers.
 *
 * The manager keeps a cover as one array of 64-bit words: cube c of a cover
 * whose cubes take nb words each occupies words c * nb .. c * nb + nb - 1.
 * This module gives the value views of such a buffer (one cube, a range of
 * cubes) and the facts about how writing one cube changes them.
 */
module CubeView {
  import opened CubeBits

  /** A cube: its nb words. */
  type Cube = seq<Word>

  /** A cover: its cubes, in buffer order. */
  type Cover = seq<Cube>

  /** Every cube has the same number of words. */
  predicate Uniform(s: Cover, nb: nat)
  {
    forall i :: 0 <= i < |s| ==> |s[i]| == nb
  }

  /**
   * c * nb, the index of the first word of cube c. It is written as repeated
   * addition so that reasoning about buffer offsets stays linear.
   */
  function Base(c: nat, nb: nat): nat
  {
    if c == 0 then 0 else Base(c - 1, nb) + nb
  }

  lemma {:induction false} BaseIsProduct(c: nat, nb: nat)
    ensures Base(c, nb) == c * nb
  {
    if c > 0 {
      BaseIsProduct(c - 1, nb);
    }
  }

  lemma {:induction false} BaseMono(p: nat, q: nat, nb: nat)
    requires p <= q
    ensures Base(p, nb) <= Base(q, nb)
    decreases q - p
  {
    if p < q {
      BaseMono(p, q - 1, nb);
    }
  }

  /** Cube c of a buffer of hi cubes lies inside it. */
  lemma CubeInside(c: nat, hi: nat, nb: nat)
    requires c < hi
    ensures Base(c, nb) + nb == Base(c + 1, nb) <= Base(hi, nb)
  {
    BaseMono(c + 1, hi, nb);
  }

  /** Two different cube positions occupy disjoint word ranges. */
  lemma CubesApart(p: nat, q: nat, nb: nat)
    requires p != q
    ensures Base(p, nb) + nb <= Base(q, nb) || Base(q, nb) + nb <= Base(p, nb)
  {
    if p < q {
      BaseMono(p + 1, q, nb);
    } else {
      BaseMono(q + 1, p, nb);
    }
  }

  /** Cube c of a buffer. */
  function CubeAt(a: seq<Word>, nb: nat, c: nat): (r: Cube)
    requires Base(c, nb) + nb <= |a|
    ensures |r| == nb
  {
    a[Base(c, nb) .. Base(c, nb) + nb]
  }

  /** Word k of cube c is word Base(c, nb) + k of the buffer. */
  lemma CubeAtIndex(a: seq<Word>, nb: nat, c: nat, k: nat)
    requires Base(c, nb) + nb <= |a| && k < nb
    ensures CubeAt(a, nb, c)[k] == a[Base(c, nb) + k]
  {
  }

  /** Cubes lo .. hi - 1 of a buffer. */
  function Cubes(a: seq<Word>, nb: nat, lo: nat, hi: nat): (r: Cover)
    requires lo <= hi && Base(hi, nb) <= |a|
    ensures |r| == hi - lo
  {
    seq(hi - lo, i requires 0 <= i < hi - lo => BaseMono(lo + i + 1, hi, nb); CubeAt(a, nb, lo + i))
  }

  /** Element i of a range of cubes is the cube lo + i of the buffer. */
  lemma CubesAt(a: seq<Word>, nb: nat, lo: nat, hi: nat, i: nat)
    requires lo <= hi && Base(hi, nb) <= |a| && i < hi - lo
    ensures Base(lo + i, nb) + nb <= |a|
    ensures Cubes(a, nb, lo, hi)[i] == CubeAt(a, nb, lo + i)
  {
    BaseMono(lo + i + 1, hi, nb);
  }

  /** The buffer a with w written from word off on. */
  function Splice(a: seq<Word>, off: nat, w: seq<Word>): (r: seq<Word>)
    requires off + |w| <= |a|
    ensures |r| == |a|
  {
    a[..off] + w + a[off + |w|..]
  }

  /** Each word of a splice: from w inside the written range, from a outside. */
  lemma SpliceIndex(a: seq<Word>, off: nat, w: seq<Word>)
    requires off + |w| <= |a|
    ensures forall k :: 0 <= k < |a| ==> Splice(a, off, w)[k] == if off <= k < off + |w| then w[k - off] else a[k]
  {
  }

  /** A splice leaves the words from lo on alone when it ends before lo. */
  lemma SpliceAbove(a: seq<Word>, off: nat, w: seq<Word>, lo: nat)
    requires off + |w| <= lo
    requires off + |w| <= |a|
    ensures forall k :: lo <= k < |a| ==> Splice(a, off, w)[k] == a[k]
  {
  }

  /** A buffer that holds w from off on and a elsewhere is that splice. */
  lemma SpliceFrom(b: seq<Word>, a: seq<Word>, off: nat, w: seq<Word>)
    requires off + |w| <= |a| && |b| == |a|
    requires forall k :: 0 <= k < |w| ==> b[off + k] == w[k]
    requires forall k :: 0 <= k < |a| && !(off <= k < off + |w|) ==> b[k] == a[k]
    ensures b == Splice(a, off, w)
  {
    var c := Splice(a, off, w);
    SpliceIndex(a, off, w);
    forall k | 0 <= k < |a|
      ensures b[k] == c[k]
    {
      if off <= k < off + |w| {
        assert b[off + (k - off)] == w[k - off];
      }
    }
  }

  /** Writing cube c changes cube c and no other cube. */
  lemma CubeAtSplice(a: seq<Word>, nb: nat, c: nat, d: nat, cube: Cube)
    requires Base(c, nb) + nb <= |a| && Base(d, nb) + nb <= |a| && |cube| == nb
    ensures CubeAt(Splice(a, Base(c, nb), cube), nb, d) == if d == c then cube else CubeAt(a, nb, d)
  {
    var b := Splice(a, Base(c, nb), cube);
    SpliceIndex(a, Base(c, nb), cube);
    if d != c {
      CubesApart(c, d, nb);
    }
    assert CubeAt(b, nb, d) == if d == c then cube else CubeAt(a, nb, d);
  }

  /** Writing cube c updates the view of a range at c, or leaves it alone. */
  lemma CubesSplice(a: seq<Word>, nb: nat, lo: nat, hi: nat, c: nat, cube: Cube)
    requires lo <= hi && Base(hi, nb) <= |a| && Base(c, nb) + nb <= |a| && |cube| == nb
    ensures lo <= c < hi ==> Cubes(Splice(a, Base(c, nb), cube), nb, lo, hi) == Cubes(a, nb, lo, hi)[c - lo := cube]
    ensures !(lo <= c < hi) ==> Cubes(Splice(a, Base(c, nb), cube), nb, lo, hi) == Cubes(a, nb, lo, hi)
  {
    var b := Splice(a, Base(c, nb), cube);
    forall i | 0 <= i < hi - lo
      ensures Cubes(b, nb, lo, hi)[i] == if lo + i == c then cube else Cubes(a, nb, lo, hi)[i]
    {
      BaseMono(lo + i + 1, hi, nb);
      CubeAtSplice(a, nb, c, lo + i, cube);
    }
  }

  /** A range of cubes is the concatenation of two adjacent ranges. */
  lemma CubesSplit(a: seq<Word>, nb: nat, lo: nat, mid: nat, hi: nat)
    requires lo <= mid <= hi && Base(hi, nb) <= |a|
    ensures Base(mid, nb) <= |a|
    ensures Cubes(a, nb, lo, hi) == Cubes(a, nb, lo, mid) + Cubes(a, nb, mid, hi)
  {
    BaseMono(mid, hi, nb);
  }

  /** The range holding one cube. */
  lemma CubesOne(a: seq<Word>, nb: nat, c: nat)
    requires Base(c + 1, nb) <= |a|
    ensures Cubes(a, nb, c, c + 1) == [CubeAt(a, nb, c)]
  {
  }

  /** Buffers that agree on the words of a range agree on its cubes. */
  lemma CubesAgree(a: seq<Word>, b: seq<Word>, nb: nat, lo: nat, hi: nat)
    requires lo <= hi && Base(hi, nb) <= |a| && Base(hi, nb) <= |b|
    requires forall k :: Base(lo, nb) <= k < Base(hi, nb) ==> a[k] == b[k]
    ensures Cubes(a, nb, lo, hi) == Cubes(b, nb, lo, hi)
  {
    forall i | 0 <= i < hi - lo
      ensures Cubes(a, nb, lo, hi)[i] == Cubes(b, nb, lo, hi)[i]
    {
      var c := lo + i;
      BaseMono(lo, c, nb);
      BaseMono(c + 1, hi, nb);
      assert Base(c + 1, nb) == Base(c, nb) + nb;
      CubeAtAgree(a, b, nb, c);
      assert Cubes(a, nb, lo, hi)[i] == CubeAt(a, nb, c);
      assert Cubes(b, nb, lo, hi)[i] == CubeAt(b, nb, c);
    }
  }

  /** Buffers that agree on the words of a cube agree on that cube. */
  lemma CubeAtAgree(a: seq<Word>, b: seq<Word>, nb: nat, c: nat)
    requires Base(c, nb) + nb <= |a| && Base(c, nb) + nb <= |b|
    requires forall k :: Base(c, nb) <= k < Base(c, nb) + nb ==> a[k] == b[k]
    ensures CubeAt(a, nb, c) == CubeAt(b, nb, c)
  {
    assert a[Base(c, nb) .. Base(c, nb) + nb] == b[Base(c, nb) .. Base(c, nb) + nb];
  }

  /** Buffers that agree outside the words of cube c agree on every other cube. */
  lemma CubeAtOutside(a: seq<Word>, b: seq<Word>, nb: nat, c: nat, d: nat)
    requires Base(c, nb) + nb <= |a| == |b| && Base(d, nb) + nb <= |a| && d != c
    requires forall k :: 0 <= k < |b| && !(Base(c, nb) <= k < Base(c, nb) + nb) ==> b[k] == a[k]
    ensures CubeAt(b, nb, d) == CubeAt(a, nb, d)
  {
    CubesApart(c, d, nb);
    CubeAtAgree(a, b, nb, d);
  }

  /** Writing cube n just past a range of n cubes extends the range by it. */
  lemma CubesAppend(a: seq<Word>, nb: nat, n: nat, cube: Cube)
    requires Base(n, nb) + nb <= |a| && |cube| == nb
    ensures Base(n + 1, nb) <= |a|
    ensures Cubes(Splice(a, Base(n, nb), cube), nb, 0, n + 1) == Cubes(a, nb, 0, n) + [cube]
  {
    var b := Splice(a, Base(n, nb), cube);
    CubesSplit(b, nb, 0, n, n + 1);
    CubesSplice(a, nb, 0, n, n, cube);
    CubesOne(b, nb, n);
    CubeAtSplice(a, nb, n, n, cube);
  }

  /** Writing a cube at or past the end of a range leaves the range alone. */
  lemma CubesSpliceAbove(a: seq<Word>, nb: nat, n: nat, c: nat, cube: Cube)
    requires n <= c && Base(c, nb) + nb <= |a| && |cube| == nb
    ensures Base(n, nb) <= |a|
    ensures Cubes(Splice(a, Base(c, nb), cube), nb, 0, n) == Cubes(a, nb, 0, n)
  {
    BaseMono(n, c, nb);
    CubesSplice(a, nb, 0, n, c, cube);
  }

  lemma {:induction false} BaseAdd(p: nat, n: nat, nb: nat)
    ensures Base(p + n, nb) == Base(p, nb) + Base(n, nb)
  {
    if n > 0 {
      BaseAdd(p, n - 1, nb);
    }
  }

  /** The words written by a splice read back from it. */
  lemma SpliceSlice(a: seq<Word>, off: nat, w: seq<Word>, j: nat, m: nat)
    requires off + |w| <= |a| && j + m <= |w|
    ensures Splice(a, off, w)[off + j .. off + j + m] == w[j .. j + m]
  {
    SpliceIndex(a, off, w);
  }

  /**
   * Writing the words of cubes s .. s + n - 1 of b at cube d of a gives,
   * at cubes d .. d + n - 1, exactly those cubes of b.
   */
  lemma CubesCopied(a: seq<Word>, b: seq<Word>, nb: nat, d: nat, s: nat, n: nat)
    requires Base(d + n, nb) <= |a| && Base(s + n, nb) <= |b|
    ensures Base(s, nb) + Base(n, nb) == Base(s + n, nb) && Base(d, nb) + Base(n, nb) == Base(d + n, nb)
    ensures Cubes(Splice(a, Base(d, nb), b[Base(s, nb) .. Base(s + n, nb)]), nb, d, d + n) == Cubes(b, nb, s, s + n)
  {
    BaseAdd(d, n, nb);
    BaseAdd(s, n, nb);
    var w := b[Base(s, nb) .. Base(s + n, nb)];
    var c := Splice(a, Base(d, nb), w);
    var lhs, rhs := Cubes(c, nb, d, d + n), Cubes(b, nb, s, s + n);
    forall i | 0 <= i < n
      ensures lhs[i] == rhs[i]
    {
      CubeCopiedAt(a, b, nb, d, s, n, i);
    }
  }

  lemma CubeCopiedAt(a: seq<Word>, b: seq<Word>, nb: nat, d: nat, s: nat, n: nat, i: nat)
    requires Base(d + n, nb) <= |a| && Base(s + n, nb) <= |b| && i < n
    requires Base(s, nb) + Base(n, nb) == Base(s + n, nb) && Base(d, nb) + Base(n, nb) == Base(d + n, nb)
    ensures Base(d + i, nb) + nb <= |a| && Base(s + i, nb) + nb <= |b|
    ensures CubeAt(Splice(a, Base(d, nb), b[Base(s, nb) .. Base(s + n, nb)]), nb, d + i) == CubeAt(b, nb, s + i)
  {
    BaseAdd(d, i, nb);
    BaseAdd(s, i, nb);
    BaseMono(i + 1, n, nb);
    var bd, bs, bi, bn := Base(d, nb), Base(s, nb), Base(i, nb), Base(n, nb);
    assert Base(i + 1, nb) == bi + nb;
    var w := b[bs .. bs + bn];
    SpliceSlice(a, bd, w, bi, nb);
    SliceOfSlice(b, bs, bs + bn, bi, nb);
  }

  lemma SliceOfSlice(b: seq<Word>, p: nat, q: nat, j: nat, m: nat)
    requires p <= q <= |b| && j + m <= q - p
    ensures b[p .. q][j .. j + m] == b[p + j .. p + j + m]
  {
    var u, v := b[p .. q][j .. j + m], b[p + j .. p + j + m];
    forall k | 0 <= k < m
      ensures u[k] == v[k]
    {
    }
  }

  /** A range ending at hi is a suffix of the range from 0. */
  lemma CubesSuffix(a: seq<Word>, nb: nat, lo: nat, hi: nat)
    requires lo <= hi && Base(hi, nb) <= |a|
    ensures Cubes(a, nb, lo, hi) == Cubes(a, nb, 0, hi)[lo..]
  {
  }

  /** A range grows at its top end by the next cube. */
  lemma CubesExtend(a: seq<Word>, nb: nat, lo: nat, hi: nat)
    requires lo <= hi && Base(hi + 1, nb) <= |a|
    ensures Base(hi, nb) + nb <= |a|
    ensures Cubes(a, nb, lo, hi + 1) == Cubes(a, nb, lo, hi) + [CubeAt(a, nb, hi)]
  {
    CubesSplit(a, nb, lo, hi, hi + 1);
    CubesOne(a, nb, hi);
  }

  /** Every cube of a range of a buffer has nb words. */
  lemma CubesUniform(a: seq<Word>, nb: nat, lo: nat, hi: nat)
    requires lo <= hi && Base(hi, nb) <= |a|
    ensures Uniform(Cubes(a, nb, lo, hi), nb)
  {
    var cs := Cubes(a, nb, lo, hi);
    forall i | 0 <= i < |cs|
      ensures |cs[i]| == nb
    {
      BaseMono(lo + i + 1, hi, nb);
      assert cs[i] == CubeAt(a, nb, lo + i);
    }
  }

  /** Changing word j of a cube just written is writing the changed cube. */
  lemma SpliceUpdate(a: seq<Word>, off: nat, w: seq<Word>, j: nat, v: Word)
    requires off + |w| <= |a| && j < |w|
    ensures Splice(a, off, w)[off + j := v] == Splice(a, off, w[j := v])
  {
    SpliceIndex(a, off, w);
    SpliceIndex(a, off, w[j := v]);
  }

  /** Changing word j of cube c of a buffer is writing cube c changed at j. */
  lemma SetWord(a: seq<Word>, nb: nat, c: nat, j: nat, v: Word)
    requires Base(c, nb) + nb <= |a| && j < nb
    ensures a[Base(c, nb) + j := v] == Splice(a, Base(c, nb), CubeAt(a, nb, c)[j := v])
  {
    SpliceIndex(a, Base(c, nb), CubeAt(a, nb, c)[j := v]);
  }
}
