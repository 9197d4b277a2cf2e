/**
 * The word-level primitives of the manager (c++-srcs/AlgMgr.cc): copying,
 * comparing and merging cubes held in word buffers. A buffer holds cube c
 * in words Base(c, nb) .. Base(c, nb) + nb - 1, nb being _cube_size(); the
 * manager passes its own cube size to each of them.
 */
module CubeBuffer {
  import opened CubeBits
  import opened CubeView
  import opened CubeOrder

  /** copy: cubes spos .. spos + n - 1 of src go to cubes dpos .. of dst. */
  method Copy(nb: nat, n: nat, dst: array<Word>, dpos: nat, src: array<Word>, spos: nat)
    requires Base(dpos + n, nb) <= dst.Length && Base(spos + n, nb) <= src.Length
    requires dst == src ==> dpos <= spos || Base(spos + n, nb) <= Base(dpos, nb)
    modifies dst
    ensures Base(spos, nb) + Base(n, nb) == Base(spos + n, nb) && Base(dpos, nb) + Base(n, nb) == Base(dpos + n, nb)
    ensures dst[..] == Splice(old(dst[..]), Base(dpos, nb), old(src[Base(spos, nb) .. Base(spos + n, nb)]))
  {
    BaseAdd(dpos, n, nb);
    BaseAdd(spos, n, nb);
    var dbase := Base(dpos, nb);
    var sbase := Base(spos, nb);
    var len := Base(n, nb);
    ghost var w := src[sbase .. sbase + len];
    ghost var d0 := dst[..];
    if dst == src && dpos <= spos {
      BaseMono(dpos, spos, nb);
    }
    assert dst == src ==> dbase <= sbase || sbase + len <= dbase;
    for i := 0 to len
      invariant forall k :: 0 <= k < i ==> dst[dbase + k] == w[k]
      invariant forall k :: 0 <= k < dst.Length && !(dbase <= k < dbase + i) ==> dst[k] == d0[k]
      invariant forall k :: i <= k < len ==> src[sbase + k] == w[k]
    {
      dst[dbase + i] := src[sbase + i];
    }
    SpliceFrom(dst[..], d0, dbase, w);
  }

  /** cube_copy: one cube. */
  method CubeCopy(nb: nat, dst: array<Word>, dpos: nat, src: array<Word>, spos: nat)
    requires Base(dpos, nb) + nb <= dst.Length && Base(spos, nb) + nb <= src.Length
    modifies dst
    ensures dst[..] == Splice(old(dst[..]), Base(dpos, nb), old(CubeAt(src[..], nb, spos)))
  {
    if dst == src && spos < dpos {
      BaseMono(spos + 1, dpos, nb);
    }
    Copy(nb, 1, dst, dpos, src, spos);
    assert src[..][Base(spos, nb) .. Base(spos, nb) + nb] == src[Base(spos, nb) .. Base(spos + 1, nb)];
  }

  /**
   * cube_copy to the cube just past the n cubes already written: the
   * written range grows by that cube and the words above it stay.
   */
  method CubeAppend(nb: nat, dst: array<Word>, n: nat, src: array<Word>, spos: nat, ghost done: Cover)
    requires Base(n, nb) + nb <= dst.Length && Base(spos, nb) + nb <= src.Length
    requires Cubes(dst[..], nb, 0, n) == done
    modifies dst
    ensures Base(n + 1, nb) <= dst.Length
    ensures Cubes(dst[..], nb, 0, n + 1) == done + [old(CubeAt(src[..], nb, spos))]
    ensures forall k :: Base(n + 1, nb) <= k < dst.Length ==> dst[k] == old(dst[k])
  {
    ghost var d0 := dst[..];
    CubeCopy(nb, dst, n, src, spos);
    CubesAppend(d0, nb, n, old(CubeAt(src[..], nb, spos)));
    SpliceIndex(d0, Base(n, nb), old(CubeAt(src[..], nb, spos)));
  }

  /**
   * Appends cube r of src, whose words from cube r on are still those of
   * the snapshot a, as cube w of dst. When src is the destination the
   * write cursor is at or behind the read cursor, so the words from cube
   * r + 1 on are untouched.
   */
  method KeepCube(nb: nat, dst: array<Word>, w: nat, src: array<Word>, r: nat, ghost a: seq<Word>, ghost done: Cover)
    requires Base(w + 1, nb) <= dst.Length && Base(r + 1, nb) <= |a| && |a| == src.Length
    requires dst == src ==> w <= r
    requires forall k :: Base(r, nb) <= k < |a| ==> src[k] == a[k]
    requires Cubes(dst[..], nb, 0, w) == done
    modifies dst
    ensures forall k :: Base(r + 1, nb) <= k < |a| ==> src[k] == a[k]
    ensures Cubes(dst[..], nb, 0, w + 1) == done + [CubeAt(a, nb, r)]
  {
    if dst == src {
      BaseMono(w + 1, r + 1, nb);
    }
    CubeAtAgree(src[..], a, nb, r);
    CubeAppend(nb, dst, w, src, r, done);
    forall k | Base(r + 1, nb) <= k < |a|
      ensures src[k] == a[k]
    {
      if dst == src {
        assert src[k] == old(src[k]);
      }
    }
  }

  /**
   * The closing loops of sum and diff: cubes rpos .. n - 1 of src are
   * appended after the wpos cubes already written. When src is the
   * destination the write cursor must not pass the read cursor.
   */
  method CopyTail(nb: nat, dst: array<Word>, wpos: nat, src: array<Word>, rpos: nat, n: nat, ghost cap: nat) returns (w: nat)
    requires rpos <= n && Base(n, nb) <= src.Length && wpos + (n - rpos) <= cap && Base(cap, nb) <= dst.Length
    requires dst == src ==> wpos <= rpos
    modifies dst
    ensures w == wpos + (n - rpos) && Base(rpos, nb) <= Base(n, nb) && Base(wpos, nb) <= Base(w, nb) <= dst.Length
    ensures Cubes(dst[..], nb, 0, w) == old(Cubes(dst[..], nb, 0, wpos)) + old(Cubes(src[..], nb, rpos, n))
  {
    BaseMono(rpos, n, nb);
    BaseMono(wpos, wpos + (n - rpos), nb);
    BaseMono(wpos + (n - rpos), cap, nb);
    ghost var a := src[..];
    ghost var done := Cubes(dst[..], nb, 0, wpos);
    var r := rpos;
    w := wpos;
    assert Cubes(a, nb, rpos, rpos) == [];
    while r < n
      invariant rpos <= r <= n && w == wpos + (r - rpos) && Base(w, nb) <= dst.Length && Base(r, nb) <= |a|
      invariant Cubes(dst[..], nb, 0, w) == done + Cubes(a, nb, rpos, r)
      invariant forall k :: Base(r, nb) <= k < |a| ==> src[k] == a[k]
      decreases n - r
    {
      BaseMono(r + 1, n, nb);
      BaseMono(w + 1, cap, nb);
      CubesExtend(a, nb, rpos, r);
      KeepCube(nb, dst, w, src, r, a, Cubes(dst[..], nb, 0, w));
      r := r + 1;
      w := w + 1;
    }
  }

  /** cube_compare: the words compared as unsigned numbers, first to last. */
  method CubeCompareAt(nb: nat, buf1: array<Word>, pos1: nat, buf2: array<Word>, pos2: nat) returns (r: int)
    requires Base(pos1, nb) + nb <= buf1.Length && Base(pos2, nb) + nb <= buf2.Length
    ensures r == CubeCompare(CubeAt(buf1[..], nb, pos1), CubeAt(buf2[..], nb, pos2))
  {
    ghost var x := CubeAt(buf1[..], nb, pos1);
    ghost var y := CubeAt(buf2[..], nb, pos2);
    var b1 := Base(pos1, nb);
    var b2 := Base(pos2, nb);
    for i := 0 to nb
      invariant x[..i] == y[..i]
    {
      var pat1 := buf1[b1 + i];
      var pat2 := buf2[b2 + i];
      assert pat1 == x[i] && pat2 == y[i];
      if pat1 as nat < pat2 as nat {
        CompareSkip(x, y, i);
        return -1;
      } else if pat1 as nat > pat2 as nat {
        CompareSkip(x, y, i);
        return 1;
      }
      WordNatInj(pat1, pat2);
      assert x[..i + 1] == x[..i] + [x[i]];
      assert y[..i + 1] == y[..i] + [y[i]];
    }
    assert x == x[..nb] && y == y[..nb];
    CompareZeroIff(x, y);
    return 0;
  }

  /** compare: cube by cube, then the cover with cubes left over is greater. */
  method Compare(nb: nat, nc1: nat, buf1: array<Word>, nc2: nat, buf2: array<Word>) returns (r: int)
    requires Base(nc1, nb) <= buf1.Length && Base(nc2, nb) <= buf2.Length
    ensures r == CoverCompare(Cubes(buf1[..], nb, 0, nc1), Cubes(buf2[..], nb, 0, nc2))
  {
    ghost var s := Cubes(buf1[..], nb, 0, nc1);
    ghost var t := Cubes(buf2[..], nb, 0, nc2);
    var rpos := 0;
    while rpos < nc1 && rpos < nc2
      invariant rpos <= nc1 && rpos <= nc2 && s[..rpos] == t[..rpos]
    {
      BaseMono(rpos + 1, nc1, nb);
      BaseMono(rpos + 1, nc2, nb);
      var res := CubeCompareAt(nb, buf1, rpos, buf2, rpos);
      assert s[rpos] == CubeAt(buf1[..], nb, rpos) && t[rpos] == CubeAt(buf2[..], nb, rpos);
      if res != 0 {
        CoverCompareSkip(s, t, rpos);
        assert s[rpos..][0] == s[rpos] && t[rpos..][0] == t[rpos];
        return res;
      }
      CompareZeroIff(s[rpos], t[rpos]);
      assert s[..rpos + 1] == s[..rpos] + [s[rpos]];
      assert t[..rpos + 1] == t[..rpos] + [t[rpos]];
      rpos := rpos + 1;
    }
    CoverCompareSkip(s, t, rpos);
    if rpos < nc1 {
      return 1;
    }
    if rpos < nc2 {
      return -1;
    }
    return 0;
  }

  /** The loops of sum on a first operand apart from the destination. */
  method MergeCovers(nb: nat, dst: array<Word>, nc1: nat, buf1: array<Word>, nc2: nat, buf2: array<Word>) returns (wpos: nat)
    requires Base(nc1, nb) <= buf1.Length && Base(nc2, nb) <= buf2.Length && Base(nc1 + nc2, nb) <= dst.Length
    requires dst != buf1 && dst != buf2
    modifies dst
    ensures Base(wpos, nb) <= dst.Length
    ensures Cubes(dst[..], nb, 0, wpos) == Merge(Cubes(buf1[..], nb, 0, nc1), Cubes(buf2[..], nb, 0, nc2))
  {
    ghost var s := Cubes(buf1[..], nb, 0, nc1);
    ghost var t := Cubes(buf2[..], nb, 0, nc2);
    var rpos1, rpos2;
    wpos, rpos1, rpos2 := MergeLoop(nb, dst, nc1, buf1, nc2, buf2);
    MergeInvIff(Cubes(dst[..], nb, 0, wpos), s, t, rpos1, rpos2);
    MergeFinish(s, t, rpos1, rpos2, Cubes(dst[..], nb, 0, wpos));
    CubesSuffix(buf1[..], nb, rpos1, nc1);
    CubesSuffix(buf2[..], nb, rpos2, nc2);
    wpos := CopyTail(nb, dst, wpos, buf1, rpos1, nc1, nc1 + nc2);
    wpos := CopyTail(nb, dst, wpos, buf2, rpos2, nc2, nc1 + nc2);
    BaseMono(wpos, nc1 + nc2, nb);
  }

  /**
   * One round of the merge loop of sum: the greater cube is written, an
   * equal pair once, and the cursors move past what was written.
   */
  method MergeOne(nb: nat, dst: array<Word>, wpos: nat, buf1: array<Word>, rpos1: nat, nc1: nat,
                  buf2: array<Word>, rpos2: nat, nc2: nat, ghost done: Cover)
    returns (w: nat, r1: nat, r2: nat)
    requires rpos1 < nc1 && rpos2 < nc2 && Base(nc1, nb) <= buf1.Length && Base(nc2, nb) <= buf2.Length
    requires Base(wpos + 1, nb) <= dst.Length && dst != buf1 && dst != buf2
    requires Cubes(dst[..], nb, 0, wpos) == done
    requires done + Merge(Cubes(buf1[..], nb, 0, nc1)[rpos1..], Cubes(buf2[..], nb, 0, nc2)[rpos2..])
             == Merge(Cubes(buf1[..], nb, 0, nc1), Cubes(buf2[..], nb, 0, nc2))
    modifies dst
    ensures w == wpos + 1 && r1 + r2 > rpos1 + rpos2 && r1 <= nc1 && r2 <= nc2
    ensures Cubes(dst[..], nb, 0, w) + Merge(Cubes(buf1[..], nb, 0, nc1)[r1..], Cubes(buf2[..], nb, 0, nc2)[r2..])
            == Merge(Cubes(buf1[..], nb, 0, nc1), Cubes(buf2[..], nb, 0, nc2))
  {
    ghost var s := Cubes(buf1[..], nb, 0, nc1);
    ghost var t := Cubes(buf2[..], nb, 0, nc2);
    BaseMono(rpos1 + 1, nc1, nb);
    BaseMono(rpos2 + 1, nc2, nb);
    MergeAdvance(s, t, rpos1, rpos2, done);
    assert s[rpos1] == CubeAt(buf1[..], nb, rpos1) && t[rpos2] == CubeAt(buf2[..], nb, rpos2);
    r1, r2 := rpos1, rpos2;
    var res := CubeCompareAt(nb, buf1, r1, buf2, r2);
    if res > 0 {
      CubeAppend(nb, dst, wpos, buf1, r1, done);
      r1 := r1 + 1;
    } else if res < 0 {
      CubeAppend(nb, dst, wpos, buf2, r2, done);
      r2 := r2 + 1;
    } else {
      CubeAppend(nb, dst, wpos, buf1, r1, done);
      r1 := r1 + 1;
      r2 := r2 + 1;
    }
    w := wpos + 1;
  }

  /**
   * The first loop of sum: merge while both covers have cubes left. What
   * it writes followed by the merge of the rest is the whole merge.
   */
  method MergeLoop(nb: nat, dst: array<Word>, nc1: nat, buf1: array<Word>, nc2: nat, buf2: array<Word>)
    returns (wpos: nat, rpos1: nat, rpos2: nat)
    requires Base(nc1, nb) <= buf1.Length && Base(nc2, nb) <= buf2.Length && Base(nc1 + nc2, nb) <= dst.Length
    requires dst != buf1 && dst != buf2
    modifies dst
    ensures rpos1 <= nc1 && rpos2 <= nc2 && (rpos1 == nc1 || rpos2 == nc2) && wpos <= rpos1 + rpos2
    ensures Base(wpos, nb) <= Base(nc1 + nc2, nb)
    ensures MergeInv(Cubes(dst[..], nb, 0, wpos), Cubes(buf1[..], nb, 0, nc1), Cubes(buf2[..], nb, 0, nc2), rpos1, rpos2)
  {
    ghost var s := Cubes(buf1[..], nb, 0, nc1);
    ghost var t := Cubes(buf2[..], nb, 0, nc2);
    rpos1, rpos2 := 0, 0;
    wpos := 0;
    assert Cubes(dst[..], nb, 0, 0) == [];
    assert s[0..] == s && t[0..] == t;
    MergeInvIff(Cubes(dst[..], nb, 0, 0), s, t, 0, 0);
    while rpos1 < nc1 && rpos2 < nc2
      invariant rpos1 <= nc1 && rpos2 <= nc2 && wpos <= rpos1 + rpos2
      invariant Base(wpos, nb) <= Base(nc1 + nc2, nb)
      invariant MergeInv(Cubes(dst[..], nb, 0, wpos), s, t, rpos1, rpos2)
      decreases nc1 + nc2 - rpos1 - rpos2
    {
      BaseMono(wpos + 1, nc1 + nc2, nb);
      MergeInvIff(Cubes(dst[..], nb, 0, wpos), s, t, rpos1, rpos2);
      wpos, rpos1, rpos2 := MergeOne(nb, dst, wpos, buf1, rpos1, nc1, buf2, rpos2, nc2, Cubes(dst[..], nb, 0, wpos));
      MergeInvIff(Cubes(dst[..], nb, 0, wpos), s, t, rpos1, rpos2);
    }
  }

  /**
   * The first loop of diff. The cubes of the first operand from the read
   * cursor on are still those it started with.
   */
  method DiffLoop(nb: nat, dst: array<Word>, nc1: nat, buf1: array<Word>, nc2: nat, buf2: array<Word>)
    returns (wpos: nat, rpos1: nat, rpos2: nat)
    requires Base(nc1, nb) <= buf1.Length && Base(nc2, nb) <= buf2.Length && Base(nc1, nb) <= dst.Length
    requires dst != buf2
    modifies dst
    ensures rpos1 <= nc1 && rpos2 <= nc2 && (rpos1 == nc1 || rpos2 == nc2) && wpos <= rpos1
    ensures Base(wpos, nb) <= Base(nc1, nb)
    ensures forall k :: Base(rpos1, nb) <= k < buf1.Length ==> buf1[k] == old(buf1[k])
    ensures DiffInv(Cubes(dst[..], nb, 0, wpos), old(Cubes(buf1[..], nb, 0, nc1)), Cubes(buf2[..], nb, 0, nc2), rpos1, rpos2)
  {
    ghost var a := buf1[..];
    ghost var s := Cubes(buf1[..], nb, 0, nc1);
    ghost var t := Cubes(buf2[..], nb, 0, nc2);
    rpos1, rpos2 := 0, 0;
    wpos := 0;
    assert Cubes(dst[..], nb, 0, 0) == [];
    assert s[0..] == s && t[0..] == t;
    DiffInvIff(Cubes(dst[..], nb, 0, 0), s, t, 0, 0);
    while rpos1 < nc1 && rpos2 < nc2
      invariant rpos1 <= nc1 && rpos2 <= nc2 && wpos <= rpos1
      invariant Base(wpos, nb) <= Base(nc1, nb)
      invariant forall k :: Base(rpos1, nb) <= k < |a| ==> buf1[k] == a[k]
      invariant DiffInv(Cubes(dst[..], nb, 0, wpos), s, t, rpos1, rpos2)
      decreases nc1 + nc2 - rpos1 - rpos2
    {
      BaseMono(rpos1 + 1, nc1, nb);
      BaseMono(rpos2 + 1, nc2, nb);
      ghost var done := Cubes(dst[..], nb, 0, wpos);
      ghost var i, j := rpos1, rpos2;
      assert s[i] == CubeAt(a, nb, i) && t[j] == CubeAt(buf2[..], nb, j);
      wpos, rpos1, rpos2 := DiffOne(nb, dst, wpos, buf1, rpos1, nc1, buf2, rpos2, nc2, a, done);
      DiffInvStep(done, s, t, i, j, Cubes(dst[..], nb, 0, wpos), rpos1, rpos2);
    }
  }

  /**
   * One round of the loop of diff: a cube of the first cover greater
   * than the second's current cube is kept, an equal pair is dropped,
   * and a smaller one makes the second cursor move on.
   */
  method DiffOne(nb: nat, dst: array<Word>, wpos: nat, buf1: array<Word>, rpos1: nat, nc1: nat,
                 buf2: array<Word>, rpos2: nat, nc2: nat, ghost a: seq<Word>, ghost done: Cover)
    returns (w: nat, r1: nat, r2: nat)
    requires rpos1 < nc1 && rpos2 < nc2 && wpos <= rpos1 && Base(rpos2 + 1, nb) <= buf2.Length
    requires |a| == buf1.Length && Base(nc1, nb) <= |a| && Base(nc1, nb) <= dst.Length && dst != buf2
    requires Base(wpos, nb) <= Base(nc1, nb) && Base(rpos1 + 1, nb) <= Base(nc1, nb)
    requires forall k :: Base(rpos1, nb) <= k < |a| ==> buf1[k] == a[k]
    requires Cubes(dst[..], nb, 0, wpos) == done
    modifies dst
    ensures w <= r1 <= nc1 && Base(w, nb) <= Base(nc1, nb)
    ensures forall k :: Base(r1, nb) <= k < |a| ==> buf1[k] == a[k]
    ensures CubeCompare(CubeAt(a, nb, rpos1), CubeAt(buf2[..], nb, rpos2)) > 0 ==>
              Cubes(dst[..], nb, 0, w) == done + [CubeAt(a, nb, rpos1)] && r1 == rpos1 + 1 && r2 == rpos2
    ensures CubeCompare(CubeAt(a, nb, rpos1), CubeAt(buf2[..], nb, rpos2)) < 0 ==>
              Cubes(dst[..], nb, 0, w) == done && r1 == rpos1 && r2 == rpos2 + 1
    ensures CubeCompare(CubeAt(a, nb, rpos1), CubeAt(buf2[..], nb, rpos2)) == 0 ==>
              Cubes(dst[..], nb, 0, w) == done && r1 == rpos1 + 1 && r2 == rpos2 + 1
  {
    CubeAtAgree(buf1[..], a, nb, rpos1);
    w, r1, r2 := wpos, rpos1, rpos2;
    var res := CubeCompareAt(nb, buf1, r1, buf2, r2);
    if res > 0 {
      BaseMono(w + 1, r1 + 1, nb);
      BaseMono(w + 1, nc1, nb);
      KeepCube(nb, dst, w, buf1, r1, a, done);
      r1 := r1 + 1;
      w := w + 1;
    } else if res < 0 {
      r2 := r2 + 1;
    } else {
      r1 := r1 + 1;
      r2 := r2 + 1;
    }
  }
}
