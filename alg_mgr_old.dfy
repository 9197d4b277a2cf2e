/**
 * The older manager (src/AlgMgr.cc, with its header include/ym/AlgMgr.h),
 * where it differs from the newer one of AlgMgrNew.
 *
 * Its sum and diff walk both covers taking the smaller head first, so
 * they merge ascending covers, while its _sort leaves covers descending.
 * Its division counts the cleared cubes of the undividable cubes of the
 * dividend as quotients, its division(lit) shifts a 32-bit int by up to
 * 62 places, and the small cases of its _sort work on cubes 0 .. 3 of
 * the buffer whatever the range. Each is modelled as written, next to the
 * lemma that shows what goes wrong; the newer manager holds the corrected
 * operations.
 *
 * The operations take the manager itself as a parameter for its cube size
 * and scratch buffer: the older _resize_buff is the newer one.
 */
module AlgMgrOld {
  import opened CubeBits
  import opened CubeView
  import opened CubeAlgebra
  import opened CubeOrder
  import opened CubeBuffer
  import L = AlgLiterals
  import T = SopText
  import LitOps
  import CubeOps
  import D = CoverDivision
  import M = AlgMgrNew

  // ---------------------------------------------------------------------
  // Ascending covers
  // ---------------------------------------------------------------------

  /** Strictly ascending: every cube lies below each later one. */
  predicate Asc(s: Cover)
  {
    forall i, j :: 0 <= i < j < |s| ==> Above(s[j], s[i])
  }

  /** x lies below every cube of s. */
  predicate BelowAll(x: Cube, s: Cover)
  {
    forall j :: 0 <= j < |s| ==> Above(s[j], x)
  }

  lemma AscCons(x: Cube, s: Cover)
    requires Asc(s) && BelowAll(x, s)
    ensures Asc([x] + s)
  {
    var t := [x] + s;
    forall i, j | 0 <= i < j < |t|
      ensures Above(t[j], t[i])
    {
      if i > 0 {
        assert t[i] == s[i - 1] && t[j] == s[j - 1];
      } else {
        assert t[j] == s[j - 1];
      }
    }
  }

  lemma AscTail(s: Cover)
    requires Asc(s) && |s| > 0
    ensures Asc(s[1..]) && BelowAll(s[0], s[1..])
  {
    forall i, j | 0 <= i < j < |s| - 1
      ensures Above(s[1..][j], s[1..][i])
    {
      assert s[1..][i] == s[i + 1] && s[1..][j] == s[j + 1];
    }
    forall j | 0 <= j < |s| - 1
      ensures Above(s[1..][j], s[0])
    {
      assert s[1..][j] == s[j + 1];
    }
  }

  /** A cube below the head of an ascending cover is below all of it. */
  lemma BelowHead(x: Cube, s: Cover)
    requires Asc(s) && |s| > 0 && Above(s[0], x)
    ensures BelowAll(x, s)
  {
    forall j | 0 < j < |s|
      ensures Above(s[j], x)
    {
      CompareTrans(s[j], s[0], x);
    }
  }

  /** A cube below every cube of s is not one of them. */
  lemma NotInAbove(x: Cube, s: Cover)
    requires BelowAll(x, s)
    ensures x !in s
  {
    if x in s {
      var j :| 0 <= j < |s| && s[j] == x;
      CompareZeroIff(x, x);
    }
  }

  // ---------------------------------------------------------------------
  // sum: the ascending merge
  // ---------------------------------------------------------------------

  /**
   * What sum computes: walk both covers from the front, emit the smaller
   * head, and a cube present in both only once.
   */
  function MergeAsc(s: Cover, t: Cover): Cover
    decreases |s| + |t|
  {
    if |s| == 0 then t
    else if |t| == 0 then s
    else if CubeCompare(s[0], t[0]) < 0 then [s[0]] + MergeAsc(s[1..], t)
    else if CubeCompare(s[0], t[0]) > 0 then [t[0]] + MergeAsc(s, t[1..])
    else [s[0]] + MergeAsc(s[1..], t[1..])
  }

  /** The ascending merge holds exactly the cubes of both covers. */
  lemma {:induction false} MergeAscMembers(s: Cover, t: Cover, x: Cube)
    ensures x in MergeAsc(s, t) <==> x in s || x in t
    decreases |s| + |t|
  {
    if |s| > 0 && |t| > 0 {
      assert s == [s[0]] + s[1..] && t == [t[0]] + t[1..];
      if CubeCompare(s[0], t[0]) < 0 {
        MergeAscMembers(s[1..], t, x);
      } else if CubeCompare(s[0], t[0]) > 0 {
        MergeAscMembers(s, t[1..], x);
      } else {
        CompareZeroIff(s[0], t[0]);
        MergeAscMembers(s[1..], t[1..], x);
      }
    }
  }

  /** A cube below both covers is below their ascending merge. */
  lemma MergeAscBelow(x: Cube, s: Cover, t: Cover)
    requires BelowAll(x, s) && BelowAll(x, t)
    ensures BelowAll(x, MergeAsc(s, t))
  {
    var m := MergeAsc(s, t);
    forall j | 0 <= j < |m|
      ensures Above(m[j], x)
    {
      MergeAscMembers(s, t, m[j]);
    }
  }

  /** The ascending merge of two ascending covers is ascending. */
  lemma {:induction false} MergeAscSorted(s: Cover, t: Cover)
    requires Asc(s) && Asc(t)
    ensures Asc(MergeAsc(s, t))
    decreases |s| + |t|
  {
    if |s| > 0 && |t| > 0 {
      AscTail(s);
      AscTail(t);
      var c := CubeCompare(s[0], t[0]);
      CompareAntisym(s[0], t[0]);
      if c < 0 {
        MergeAscSorted(s[1..], t);
        BelowHead(s[0], t);
        MergeAscBelow(s[0], s[1..], t);
        AscCons(s[0], MergeAsc(s[1..], t));
      } else if c > 0 {
        MergeAscSorted(s, t[1..]);
        BelowHead(t[0], s);
        MergeAscBelow(t[0], s, t[1..]);
        AscCons(t[0], MergeAsc(s, t[1..]));
      } else {
        CompareZeroIff(s[0], t[0]);
        MergeAscSorted(s[1..], t[1..]);
        MergeAscBelow(s[0], s[1..], t[1..]);
        AscCons(s[0], MergeAsc(s[1..], t[1..]));
      }
    }
  }

  /** The ascending merge is never longer than both covers together. */
  lemma {:induction false} MergeAscLength(s: Cover, t: Cover)
    ensures |s| <= |MergeAsc(s, t)| <= |s| + |t| && |t| <= |MergeAsc(s, t)|
    decreases |s| + |t|
  {
    if |s| > 0 && |t| > 0 {
      if CubeCompare(s[0], t[0]) < 0 {
        MergeAscLength(s[1..], t);
      } else if CubeCompare(s[0], t[0]) > 0 {
        MergeAscLength(s, t[1..]);
      } else {
        MergeAscLength(s[1..], t[1..]);
      }
    }
  }

  /**
   * a + b: on the descending covers a and b, which _sort produces, the
   * ascending merge puts b first, so the sum is not descending and differs
   * from the cover a + b that sorting gives.
   */
  lemma SumOutOfOrder()
    ensures Desc([D.CubeA]) && Desc([D.CubeB]) && Desc([D.CubeA, D.CubeB])
    ensures MergeAsc([D.CubeA], [D.CubeB]) == [D.CubeB, D.CubeA]
    ensures !Desc(MergeAsc([D.CubeA], [D.CubeB]))
    ensures Merge([D.CubeA], [D.CubeB]) == [D.CubeA, D.CubeB]
  {
    var a, b := D.CubeA, D.CubeB;
    assert CubeCompare(a, b) == 1;
    assert [a][1..] == [] && [b][1..] == [];
    assert MergeAsc([a], [b]) == [b] + MergeAsc([a], []);
    assert !Above([b, a][0], [b, a][1]);
  }

  /** One step of the ascending merge, read at positions i and j. */
  lemma MergeAscStep(s: Cover, t: Cover, i: nat, j: nat)
    requires i < |s| && j < |t|
    ensures MergeAsc(s[i..], t[j..]) ==
      if CubeCompare(s[i], t[j]) < 0 then [s[i]] + MergeAsc(s[i + 1..], t[j..])
      else if CubeCompare(s[i], t[j]) > 0 then [t[j]] + MergeAsc(s[i..], t[j + 1..])
      else [s[i]] + MergeAsc(s[i + 1..], t[j + 1..])
  {
    assert s[i..][0] == s[i] && s[i..][1..] == s[i + 1..];
    assert t[j..][0] == t[j] && t[j..][1..] == t[j + 1..];
  }

  /** The merge loop's invariant, kept by one step. */
  lemma MergeAscAdvance(s: Cover, t: Cover, i: nat, j: nat, done: Cover)
    requires i < |s| && j < |t| && done + MergeAsc(s[i..], t[j..]) == MergeAsc(s, t)
    ensures CubeCompare(s[i], t[j]) < 0 ==> (done + [s[i]]) + MergeAsc(s[i + 1..], t[j..]) == MergeAsc(s, t)
    ensures CubeCompare(s[i], t[j]) > 0 ==> (done + [t[j]]) + MergeAsc(s[i..], t[j + 1..]) == MergeAsc(s, t)
    ensures CubeCompare(s[i], t[j]) == 0 ==> (done + [s[i]]) + MergeAsc(s[i + 1..], t[j + 1..]) == MergeAsc(s, t)
  {
    MergeAscStep(s, t, i, j);
    var c := CubeCompare(s[i], t[j]);
    if c < 0 {
      Regroup(done, s[i], MergeAsc(s[i + 1..], t[j..]), MergeAsc(s, t));
    } else if c > 0 {
      Regroup(done, t[j], MergeAsc(s[i..], t[j + 1..]), MergeAsc(s, t));
    } else {
      Regroup(done, s[i], MergeAsc(s[i + 1..], t[j + 1..]), MergeAsc(s, t));
    }
  }

  /** The ascending merge loop's invariant, kept behind a quantifier like MergeInv. */
  ghost predicate MergeAscInv(done: Cover, s: Cover, t: Cover, i: nat, j: nat)
    requires i <= |s| && j <= |t|
  {
    forall rest :: rest == MergeAsc(s[i..], t[j..]) ==> done + rest == MergeAsc(s, t)
  }

  lemma MergeAscInvIff(done: Cover, s: Cover, t: Cover, i: nat, j: nat)
    requires i <= |s| && j <= |t|
    ensures MergeAscInv(done, s, t, i, j) <==> done + MergeAsc(s[i..], t[j..]) == MergeAsc(s, t)
  {
  }

  /** What is left to merge once one side is used up. */
  lemma MergeAscFinish(s: Cover, t: Cover, i: nat, j: nat, done: Cover)
    requires i <= |s| && j <= |t| && (i == |s| || j == |t|) && done + MergeAsc(s[i..], t[j..]) == MergeAsc(s, t)
    ensures (done + s[i..]) + t[j..] == MergeAsc(s, t)
  {
    if i == |s| {
      assert s[i..] + t[j..] == t[j..];
    } else {
      assert s[i..] + t[j..] == s[i..];
    }
    assert done + (s[i..] + t[j..]) == (done + s[i..]) + t[j..];
  }

  /**
   * One round of the loop of sum: the smaller cube is written, an equal
   * pair once, and the cursors move past what was written.
   */
  method AscMergeOne(nb: nat, dst: array<Word>, wpos: nat, buf1: array<Word>, rpos1: nat, nc1: nat,
                     buf2: array<Word>, rpos2: nat, nc2: nat, ghost done: Cover)
    returns (w: nat, r1: nat, r2: nat)
    requires rpos1 < nc1 && rpos2 < nc2 && Base(nc1, nb) <= buf1.Length && Base(nc2, nb) <= buf2.Length
    requires Base(wpos + 1, nb) <= dst.Length && dst != buf1 && dst != buf2
    requires Cubes(dst[..], nb, 0, wpos) == done
    requires done + MergeAsc(Cubes(buf1[..], nb, 0, nc1)[rpos1..], Cubes(buf2[..], nb, 0, nc2)[rpos2..])
             == MergeAsc(Cubes(buf1[..], nb, 0, nc1), Cubes(buf2[..], nb, 0, nc2))
    modifies dst
    ensures w == wpos + 1 && r1 + r2 > rpos1 + rpos2 && r1 <= nc1 && r2 <= nc2
    ensures Cubes(dst[..], nb, 0, w) + MergeAsc(Cubes(buf1[..], nb, 0, nc1)[r1..], Cubes(buf2[..], nb, 0, nc2)[r2..])
            == MergeAsc(Cubes(buf1[..], nb, 0, nc1), Cubes(buf2[..], nb, 0, nc2))
  {
    ghost var s := Cubes(buf1[..], nb, 0, nc1);
    ghost var t := Cubes(buf2[..], nb, 0, nc2);
    BaseMono(rpos1 + 1, nc1, nb);
    BaseMono(rpos2 + 1, nc2, nb);
    MergeAscAdvance(s, t, rpos1, rpos2, done);
    assert s[rpos1] == CubeAt(buf1[..], nb, rpos1) && t[rpos2] == CubeAt(buf2[..], nb, rpos2);
    r1, r2 := rpos1, rpos2;
    var res := CubeCompareAt(nb, buf1, r1, buf2, r2);
    if res < 0 {
      CubeAppend(nb, dst, wpos, buf1, r1, done);
      r1 := r1 + 1;
    } else if res > 0 {
      CubeAppend(nb, dst, wpos, buf2, r2, done);
      r2 := r2 + 1;
    } else {
      CubeAppend(nb, dst, wpos, buf1, r1, done);
      r1 := r1 + 1;
      r2 := r2 + 1;
    }
    w := wpos + 1;
  }

  /** The first loop of sum: merge while both covers have cubes left. */
  method AscMergeLoop(nb: nat, dst: array<Word>, nc1: nat, buf1: array<Word>, nc2: nat, buf2: array<Word>)
    returns (wpos: nat, rpos1: nat, rpos2: nat)
    requires Base(nc1, nb) <= buf1.Length && Base(nc2, nb) <= buf2.Length && Base(nc1 + nc2, nb) <= dst.Length
    requires dst != buf1 && dst != buf2
    modifies dst
    ensures rpos1 <= nc1 && rpos2 <= nc2 && (rpos1 == nc1 || rpos2 == nc2) && wpos <= rpos1 + rpos2
    ensures Base(wpos, nb) <= Base(nc1 + nc2, nb)
    ensures MergeAscInv(Cubes(dst[..], nb, 0, wpos), Cubes(buf1[..], nb, 0, nc1), Cubes(buf2[..], nb, 0, nc2), rpos1, rpos2)
  {
    ghost var s := Cubes(buf1[..], nb, 0, nc1);
    ghost var t := Cubes(buf2[..], nb, 0, nc2);
    rpos1, rpos2 := 0, 0;
    wpos := 0;
    assert Cubes(dst[..], nb, 0, 0) == [];
    assert s[0..] == s && t[0..] == t;
    MergeAscInvIff(Cubes(dst[..], nb, 0, 0), s, t, 0, 0);
    while rpos1 < nc1 && rpos2 < nc2
      invariant rpos1 <= nc1 && rpos2 <= nc2 && wpos <= rpos1 + rpos2
      invariant Base(wpos, nb) <= Base(nc1 + nc2, nb)
      invariant MergeAscInv(Cubes(dst[..], nb, 0, wpos), s, t, rpos1, rpos2)
      decreases nc1 + nc2 - rpos1 - rpos2
    {
      BaseMono(wpos + 1, nc1 + nc2, nb);
      MergeAscInvIff(Cubes(dst[..], nb, 0, wpos), s, t, rpos1, rpos2);
      wpos, rpos1, rpos2 := AscMergeOne(nb, dst, wpos, buf1, rpos1, nc1, buf2, rpos2, nc2, Cubes(dst[..], nb, 0, wpos));
      MergeAscInvIff(Cubes(dst[..], nb, 0, wpos), s, t, rpos1, rpos2);
    }
  }

  /** The loops of sum on a first operand apart from the destination. */
  method AscMergeCovers(nb: nat, dst: array<Word>, nc1: nat, buf1: array<Word>, nc2: nat, buf2: array<Word>) returns (wpos: nat)
    requires Base(nc1, nb) <= buf1.Length && Base(nc2, nb) <= buf2.Length && Base(nc1 + nc2, nb) <= dst.Length
    requires dst != buf1 && dst != buf2
    modifies dst
    ensures Base(wpos, nb) <= dst.Length
    ensures Cubes(dst[..], nb, 0, wpos) == MergeAsc(Cubes(buf1[..], nb, 0, nc1), Cubes(buf2[..], nb, 0, nc2))
  {
    ghost var s := Cubes(buf1[..], nb, 0, nc1);
    ghost var t := Cubes(buf2[..], nb, 0, nc2);
    var rpos1, rpos2;
    wpos, rpos1, rpos2 := AscMergeLoop(nb, dst, nc1, buf1, nc2, buf2);
    MergeAscInvIff(Cubes(dst[..], nb, 0, wpos), s, t, rpos1, rpos2);
    MergeAscFinish(s, t, rpos1, rpos2, Cubes(dst[..], nb, 0, wpos));
    CubesSuffix(buf1[..], nb, rpos1, nc1);
    CubesSuffix(buf2[..], nb, rpos2, nc2);
    wpos := CopyTail(nb, dst, wpos, buf1, rpos1, nc1, nc1 + nc2);
    wpos := CopyTail(nb, dst, wpos, buf2, rpos2, nc2, nc1 + nc2);
    BaseMono(wpos, nc1 + nc2, nb);
  }

  /**
   * sum: the ascending merge of two covers. The first operand is copied
   * to the scratch buffer first, so the destination may be that operand.
   */
  method Sum(m: M.AlgMgr, dst: array<Word>, nc1: nat, buf1: array<Word>, nc2: nat, buf2: array<Word>) returns (wpos: nat)
    requires m.Valid()
    requires Base(nc1, m.nb) <= buf1.Length && Base(nc2, m.nb) <= buf2.Length && Base(nc1 + nc2, m.nb) <= dst.Length
    requires dst != buf2 && dst != m.tmpBuff && buf1 != m.tmpBuff && buf2 != m.tmpBuff
    modifies m, dst
    ensures m.Valid() && fresh(m.tmpBuff)
    ensures Base(wpos, m.nb) <= dst.Length
    ensures Cubes(dst[..], m.nb, 0, wpos) == MergeAsc(old(Cubes(buf1[..], m.nb, 0, nc1)), old(Cubes(buf2[..], m.nb, 0, nc2)))
  {
    var nb := m.nb;
    ghost var s := Cubes(buf1[..], nb, 0, nc1);
    ghost var t := Cubes(buf2[..], nb, 0, nc2);
    m.ResizeBuff(nc1);
    BaseMono(nc1, m.tmpBuffSize, nb);
    var tmp := m.tmpBuff;
    ghost var tb := tmp[..];
    Copy(nb, nc1, tmp, 0, buf1, 0);
    CubesCopied(tb, buf1[..], nb, 0, 0, nc1);
    assert Cubes(tmp[..], nb, 0, nc1) == s;
    wpos := AscMergeCovers(nb, dst, nc1, tmp, nc2, buf2);
  }

  // ---------------------------------------------------------------------
  // diff: the ascending difference
  // ---------------------------------------------------------------------

  /**
   * What diff computes: a cube of s below the current cube of t is kept,
   * an equal pair is dropped, and a greater one makes t move on.
   */
  function DiffAsc(s: Cover, t: Cover): Cover
    decreases |s| + |t|
  {
    if |s| == 0 then []
    else if |t| == 0 then s
    else if CubeCompare(s[0], t[0]) < 0 then [s[0]] + DiffAsc(s[1..], t)
    else if CubeCompare(s[0], t[0]) > 0 then DiffAsc(s, t[1..])
    else DiffAsc(s[1..], t[1..])
  }

  /** Only cubes of s reach the difference. */
  lemma {:induction false} DiffAscSubset(s: Cover, t: Cover, x: Cube)
    requires x in DiffAsc(s, t)
    ensures x in s
    decreases |s| + |t|
  {
    if |s| > 0 && |t| > 0 {
      var c := CubeCompare(s[0], t[0]);
      if c < 0 {
        if x != s[0] {
          DiffAscSubset(s[1..], t, x);
        }
      } else if c > 0 {
        DiffAscSubset(s, t[1..], x);
      } else {
        DiffAscSubset(s[1..], t[1..], x);
      }
    }
  }

  /**
   * On ascending covers the difference holds exactly the cubes of s that
   * t does not hold.
   */
  lemma {:induction false} DiffAscMembers(s: Cover, t: Cover, x: Cube)
    requires Asc(s) && Asc(t)
    ensures x in DiffAsc(s, t) <==> x in s && x !in t
    decreases |s| + |t|
  {
    if |s| > 0 && |t| > 0 {
      AscTail(s);
      AscTail(t);
      assert s == [s[0]] + s[1..] && t == [t[0]] + t[1..];
      var c := CubeCompare(s[0], t[0]);
      CompareAntisym(s[0], t[0]);
      if c < 0 {
        DiffAscMembers(s[1..], t, x);
        if x == s[0] {
          BelowHead(s[0], t);
          NotInAbove(s[0], t);
        }
      } else if c > 0 {
        DiffAscMembers(s, t[1..], x);
        if x == t[0] {
          BelowHead(t[0], s);
          NotInAbove(t[0], s);
        }
      } else {
        CompareZeroIff(s[0], t[0]);
        DiffAscMembers(s[1..], t[1..], x);
        if x == s[0] {
          NotInAbove(s[0], s[1..]);
          NotInAbove(s[0], t[1..]);
        }
      }
    }
  }

  /** The ascending difference keeps the order of s. */
  lemma {:induction false} DiffAscSorted(s: Cover, t: Cover)
    requires Asc(s)
    ensures Asc(DiffAsc(s, t))
    decreases |s| + |t|
  {
    if |s| > 0 && |t| > 0 {
      AscTail(s);
      var c := CubeCompare(s[0], t[0]);
      if c < 0 {
        DiffAscSorted(s[1..], t);
        var d := DiffAsc(s[1..], t);
        forall j | 0 <= j < |d|
          ensures Above(d[j], s[0])
        {
          DiffAscSubset(s[1..], t, d[j]);
        }
        AscCons(s[0], d);
      } else if c > 0 {
        DiffAscSorted(s, t[1..]);
      } else {
        DiffAscSorted(s[1..], t[1..]);
      }
    }
  }

  const CubeBD: Cube := [0x2200_0000_0000_0000]

  /**
   * (a b + a c + b d) - a c: on these descending covers the ascending
   * walk passes a c of the second cover at once, so nothing is removed,
   * where the difference of the covers is a b + b d.
   */
  lemma DiffKeepsCommon()
    ensures Desc([D.CubeAB, D.CubeAC, CubeBD]) && Desc([D.CubeAC])
    ensures DiffAsc([D.CubeAB, D.CubeAC, CubeBD], [D.CubeAC]) == [D.CubeAB, D.CubeAC, CubeBD]
    ensures CubeOrder.Diff([D.CubeAB, D.CubeAC, CubeBD], [D.CubeAC]) == [D.CubeAB, CubeBD]
  {
    var s := [D.CubeAB, D.CubeAC, CubeBD];
    var t := [D.CubeAC];
    assert CubeCompare(D.CubeAB, D.CubeAC) == 1 && CubeCompare(D.CubeAC, CubeBD) == 1 && CubeCompare(D.CubeAB, CubeBD) == 1;
    assert CubeCompare(D.CubeAC, D.CubeAC) == 0 && CubeCompare(CubeBD, D.CubeAC) == -1;
    assert DiffAsc(s, t) == DiffAsc(s, []);
    assert s[1..] == [D.CubeAC, CubeBD] && s[1..][1..] == [CubeBD] && t[1..] == [];
    assert CubeOrder.Diff(s, t) == [D.CubeAB] + CubeOrder.Diff(s[1..], t);
    assert CubeOrder.Diff(s[1..], t) == CubeOrder.Diff([CubeBD], []);
  }

  /** One step of the ascending difference, read at positions i and j. */
  lemma DiffAscStep(s: Cover, t: Cover, i: nat, j: nat)
    requires i < |s| && j < |t|
    ensures DiffAsc(s[i..], t[j..]) ==
      if CubeCompare(s[i], t[j]) < 0 then [s[i]] + DiffAsc(s[i + 1..], t[j..])
      else if CubeCompare(s[i], t[j]) > 0 then DiffAsc(s[i..], t[j + 1..])
      else DiffAsc(s[i + 1..], t[j + 1..])
  {
    assert s[i..][0] == s[i] && s[i..][1..] == s[i + 1..];
    assert t[j..][0] == t[j] && t[j..][1..] == t[j + 1..];
  }

  /** The loop invariant of diff, kept behind a quantifier like DiffInv. */
  ghost predicate DiffAscInv(done: Cover, s: Cover, t: Cover, i: nat, j: nat)
    requires i <= |s| && j <= |t|
  {
    forall rest :: rest == DiffAsc(s[i..], t[j..]) ==> done + rest == DiffAsc(s, t)
  }

  lemma DiffAscInvIff(done: Cover, s: Cover, t: Cover, i: nat, j: nat)
    requires i <= |s| && j <= |t|
    ensures DiffAscInv(done, s, t, i, j) <==> done + DiffAsc(s[i..], t[j..]) == DiffAsc(s, t)
  {
  }

  /**
   * One round of the loop of diff keeps its invariant: a smaller cube of s
   * is written and passed, a greater one of t is passed, an equal pair is
   * passed together.
   */
  lemma DiffAscInvStep(done: Cover, s: Cover, t: Cover, i: nat, j: nat, done': Cover, i': nat, j': nat)
    requires i < |s| && j < |t| && DiffAscInv(done, s, t, i, j)
    requires CubeCompare(s[i], t[j]) < 0 ==> done' == done + [s[i]] && i' == i + 1 && j' == j
    requires CubeCompare(s[i], t[j]) > 0 ==> done' == done && i' == i && j' == j + 1
    requires CubeCompare(s[i], t[j]) == 0 ==> done' == done && i' == i + 1 && j' == j + 1
    ensures i' <= |s| && j' <= |t| && DiffAscInv(done', s, t, i', j')
  {
    DiffAscInvIff(done, s, t, i, j);
    DiffAscStep(s, t, i, j);
    if CubeCompare(s[i], t[j]) < 0 {
      Regroup(done, s[i], DiffAsc(s[i + 1..], t[j..]), DiffAsc(s, t));
    }
    DiffAscInvIff(done', s, t, i', j');
  }

  /**
   * One round of the loop of diff: a cube of the first cover below the
   * second's current cube is kept, an equal pair is dropped, and a greater
   * one makes the second cursor move on.
   */
  method AscDiffOne(nb: nat, dst: array<Word>, wpos: nat, buf1: array<Word>, rpos1: nat, nc1: nat,
                    buf2: array<Word>, rpos2: nat, nc2: nat, ghost a: seq<Word>, ghost done: Cover)
    returns (w: nat, r1: nat, r2: nat)
    requires rpos1 < nc1 && rpos2 < nc2 && wpos <= rpos1 && Base(rpos2 + 1, nb) <= buf2.Length
    requires |a| == buf1.Length && Base(nc1, nb) <= |a| && Base(nc1, nb) <= dst.Length && dst != buf2
    requires Base(wpos, nb) <= Base(nc1, nb) && Base(rpos1 + 1, nb) <= Base(nc1, nb)
    requires forall k :: Base(rpos1, nb) <= k < |a| ==> buf1[k] == a[k]
    requires Cubes(dst[..], nb, 0, wpos) == done
    modifies dst
    ensures w <= r1 <= nc1 && Base(w, nb) <= Base(nc1, nb)
    ensures forall k :: Base(r1, nb) <= k < |a| ==> buf1[k] == a[k]
    ensures CubeCompare(CubeAt(a, nb, rpos1), CubeAt(buf2[..], nb, rpos2)) < 0 ==>
              Cubes(dst[..], nb, 0, w) == done + [CubeAt(a, nb, rpos1)] && r1 == rpos1 + 1 && r2 == rpos2
    ensures CubeCompare(CubeAt(a, nb, rpos1), CubeAt(buf2[..], nb, rpos2)) > 0 ==>
              Cubes(dst[..], nb, 0, w) == done && r1 == rpos1 && r2 == rpos2 + 1
    ensures CubeCompare(CubeAt(a, nb, rpos1), CubeAt(buf2[..], nb, rpos2)) == 0 ==>
              Cubes(dst[..], nb, 0, w) == done && r1 == rpos1 + 1 && r2 == rpos2 + 1
  {
    CubeAtAgree(buf1[..], a, nb, rpos1);
    w, r1, r2 := wpos, rpos1, rpos2;
    var res := CubeCompareAt(nb, buf1, r1, buf2, r2);
    if res < 0 {
      BaseMono(w + 1, r1 + 1, nb);
      BaseMono(w + 1, nc1, nb);
      KeepCube(nb, dst, w, buf1, r1, a, done);
      r1 := r1 + 1;
      w := w + 1;
    } else if res > 0 {
      r2 := r2 + 1;
    } else {
      r1 := r1 + 1;
      r2 := r2 + 1;
    }
  }

  /**
   * The first loop of diff. The cubes of the first operand from the read
   * cursor on are still those it started with.
   */
  method AscDiffLoop(nb: nat, dst: array<Word>, nc1: nat, buf1: array<Word>, nc2: nat, buf2: array<Word>)
    returns (wpos: nat, rpos1: nat, rpos2: nat)
    requires Base(nc1, nb) <= buf1.Length && Base(nc2, nb) <= buf2.Length && Base(nc1, nb) <= dst.Length
    requires dst != buf2
    modifies dst
    ensures rpos1 <= nc1 && rpos2 <= nc2 && (rpos1 == nc1 || rpos2 == nc2) && wpos <= rpos1
    ensures Base(wpos, nb) <= Base(nc1, nb)
    ensures forall k :: Base(rpos1, nb) <= k < buf1.Length ==> buf1[k] == old(buf1[k])
    ensures DiffAscInv(Cubes(dst[..], nb, 0, wpos), old(Cubes(buf1[..], nb, 0, nc1)), Cubes(buf2[..], nb, 0, nc2), rpos1, rpos2)
  {
    ghost var a := buf1[..];
    ghost var s := Cubes(buf1[..], nb, 0, nc1);
    ghost var t := Cubes(buf2[..], nb, 0, nc2);
    rpos1, rpos2 := 0, 0;
    wpos := 0;
    assert Cubes(dst[..], nb, 0, 0) == [];
    assert s[0..] == s && t[0..] == t;
    DiffAscInvIff(Cubes(dst[..], nb, 0, 0), s, t, 0, 0);
    while rpos1 < nc1 && rpos2 < nc2
      invariant rpos1 <= nc1 && rpos2 <= nc2 && wpos <= rpos1
      invariant Base(wpos, nb) <= Base(nc1, nb)
      invariant forall k :: Base(rpos1, nb) <= k < |a| ==> buf1[k] == a[k]
      invariant DiffAscInv(Cubes(dst[..], nb, 0, wpos), s, t, rpos1, rpos2)
      decreases nc1 + nc2 - rpos1 - rpos2
    {
      BaseMono(rpos1 + 1, nc1, nb);
      BaseMono(rpos2 + 1, nc2, nb);
      ghost var done := Cubes(dst[..], nb, 0, wpos);
      ghost var i, j := rpos1, rpos2;
      assert s[i] == CubeAt(a, nb, i) && t[j] == CubeAt(buf2[..], nb, j);
      wpos, rpos1, rpos2 := AscDiffOne(nb, dst, wpos, buf1, rpos1, nc1, buf2, rpos2, nc2, a, done);
      DiffAscInvStep(done, s, t, i, j, Cubes(dst[..], nb, 0, wpos), rpos1, rpos2);
    }
  }

  /**
   * diff: the ascending difference of two covers. The write cursor never
   * passes the first read cursor, so the destination may be the first
   * operand.
   */
  method Diff(m: M.AlgMgr, dst: array<Word>, nc1: nat, buf1: array<Word>, nc2: nat, buf2: array<Word>) returns (wpos: nat)
    requires Base(nc1, m.nb) <= buf1.Length && Base(nc2, m.nb) <= buf2.Length && Base(nc1, m.nb) <= dst.Length
    requires dst != buf2
    modifies dst
    ensures wpos <= nc1 && Base(wpos, m.nb) <= dst.Length
    ensures Cubes(dst[..], m.nb, 0, wpos) == DiffAsc(old(Cubes(buf1[..], m.nb, 0, nc1)), old(Cubes(buf2[..], m.nb, 0, nc2)))
  {
    var nb := m.nb;
    ghost var a := buf1[..];
    ghost var s := Cubes(buf1[..], nb, 0, nc1);
    ghost var t := Cubes(buf2[..], nb, 0, nc2);
    var rpos1, rpos2;
    wpos, rpos1, rpos2 := AscDiffLoop(nb, dst, nc1, buf1, nc2, buf2);
    DiffAscInvIff(Cubes(dst[..], nb, 0, wpos), s, t, rpos1, rpos2);
    assert DiffAsc(s[rpos1..], t[rpos2..]) == s[rpos1..];
    CubesSuffix(a, nb, rpos1, nc1);
    CubesAgree(buf1[..], a, nb, rpos1, nc1);
    wpos := CopyTail(nb, dst, wpos, buf1, rpos1, nc1, nc1);
    BaseMono(wpos, nc1, nb);
  }

  // ---------------------------------------------------------------------
  // division(cover, cover)
  // ---------------------------------------------------------------------

  /**
   * The quotients of pass one as written: a cube of the dividend with no
   * dividing cube gets the empty cube (cube_clear) instead of none.
   */
  function Cleared(qs: seq<D.Quot>, nb: nat): (r: seq<D.Quot>)
    ensures |r| == |qs|
    ensures forall k :: 0 <= k < |qs| ==> r[k] == T.Some(if qs[k].Some? then qs[k].value else ZeroCube(nb))
  {
    seq(|qs|, k requires 0 <= k < |qs| => T.Some(if qs[k].Some? then qs[k].value else ZeroCube(nb)))
  }

  /**
   * What division computes: a position emits its cube when exactly |t|
   * positions from there on hold it, the cleared ones included.
   */
  function ClearedDivision(s: Cover, t: Cover, nb: nat): (r: Cover)
    requires Uniform(s, nb) && Uniform(t, nb)
  {
    D.Emitted(Cleared(D.Quots(s, t, nb), nb), |t|, |s|)
  }

  /** When every cube of s has a dividing cube in t, nothing is cleared and the results agree. */
  lemma ClearedDivisionAgrees(s: Cover, t: Cover, nb: nat)
    requires Uniform(s, nb) && Uniform(t, nb)
    requires forall k :: 0 <= k < |s| ==> exists j :: 0 <= j < |t| && Covers(s[k], t[j])
    ensures ClearedDivision(s, t, nb) == D.Division(s, t, nb)
  {
    var qs := D.Quots(s, t, nb);
    forall k | 0 <= k < |s|
      ensures qs[k].Some?
    {
      D.QuotsAt(s, t, nb, k);
      D.FirstQuotIff(s[k], t);
    }
    assert Cleared(qs, nb) == qs;
  }

  /** The result has room in nc1 / nc2 cubes, as with the newer division. */
  lemma ClearedDivisionLength(s: Cover, t: Cover, nb: nat)
    requires Uniform(s, nb) && Uniform(t, nb) && |t| >= 1
    ensures |ClearedDivision(s, t, nb)| <= |s| / |t|
  {
    D.EmittedLength(Cleared(D.Quots(s, t, nb), nb), |t|);
    D.DivBound(|ClearedDivision(s, t, nb)|, |t|, |s|);
  }

  /**
   * (a + b) / (c + c'): neither cube of the dividend contains either cube
   * of the divisor, so both are cleared and the two empty cubes make up
   * |d| = 2 occurrences: the result is the cover 1, where no quotient
   * exists.
   */
  lemma ClearedQuotientFinding()
    ensures ClearedDivision([D.CubeA, D.CubeB], [D.CubeC, D.CubeNotC], 1) == [ZeroCube(1)]
    ensures D.Division([D.CubeA, D.CubeB], [D.CubeC, D.CubeNotC], 1) == []
  {
    var qs := D.Quots([D.CubeA, D.CubeB], [D.CubeC, D.CubeNotC], 1);
    NoQuotients();
    var z := ZeroCube(1);
    assert Cleared(qs, 1) == [T.Some(z), T.Some(z)];
    TwoEmptyCubes(z);
    NoneEmitted();
  }

  /** Positions without a quotient emit nothing. */
  lemma NoneEmitted()
    ensures D.Emitted([T.None, T.None], 2, 2) == []
  {
    assert D.Emitted([T.None, T.None], 2, 1) == [];
  }

  /** Neither a nor b contains c or c'. */
  lemma NoQuotients()
    ensures D.Quots([D.CubeA, D.CubeB], [D.CubeC, D.CubeNotC], 1) == [T.None, T.None]
  {
    var s, t := [D.CubeA, D.CubeB], [D.CubeC, D.CubeNotC];
    D.QuotsAt(s, t, 1, 0);
    D.QuotsAt(s, t, 1, 1);
    D.FirstQuotTwo(D.CubeA, D.CubeC, D.CubeNotC);
    D.FirstQuotTwo(D.CubeB, D.CubeC, D.CubeNotC);
  }

  /** Two recorded copies of one cube, counted against a divisor of two cubes, emit it once. */
  lemma TwoEmptyCubes(z: Cube)
    ensures D.Emitted([T.Some(z), T.Some(z)], 2, 2) == [z]
  {
    var cs := [T.Some(z), T.Some(z)];
    D.CountSuffix(cs, 0, z);
    D.CountSuffix(cs, 1, z);
    assert cs[0..] == cs && cs[2..] == [];
    assert D.Emitted(cs, 2, 1) == [z];
  }

  /**
   * Position i of pass one as written: cube i's quotient by the first
   * dividing cube, or the empty cube when there is none; the position is
   * recorded either way.
   */
  method ClearNext(nb: nat, tmp: array<Word>, nc1: nat, buf1: array<Word>, nc2: nat, buf2: array<Word>,
                   mark: seq<bool>, i: nat, ghost s: Cover, ghost t: Cover) returns (mark': seq<bool>)
    requires i < nc1 && Base(nc1, nb) <= tmp.Length && Base(nc1, nb) <= buf1.Length && Base(nc2, nb) <= buf2.Length
    requires tmp != buf1 && tmp != buf2
    requires s == Cubes(buf1[..], nb, 0, nc1) && t == Cubes(buf2[..], nb, 0, nc2)
    requires Uniform(s, nb) && Uniform(t, nb)
    requires D.Recorded(tmp[..], nb, mark, Cleared(D.Quots(s, t, nb), nb), i)
    modifies tmp
    ensures D.Recorded(tmp[..], nb, mark', Cleared(D.Quots(s, t, nb), nb), i + 1)
  {
    ghost var qs := D.Quots(s, t, nb);
    BaseMono(i + 1, nc1, nb);
    CubesAt(buf1[..], nb, 0, nc1, i);
    ghost var a := tmp[..];
    var ok := D.QuotOne(nb, tmp, i, buf1, nc2, buf2, s[i], t);
    if !ok {
      ghost var b := tmp[..];
      CubeOps.CubeClear(nb, tmp, i);
      SpliceIndex(b, Base(i, nb), ZeroCube(nb));
      CubeAtSplice(b, nb, i, i, ZeroCube(nb));
    }
    mark' := mark[i := true];
    D.RecordedNext(a, tmp[..], nb, mark, Cleared(qs, nb), i, true);
  }

  /** Pass one of division as written: a quotient or the empty cube for every cube of buf1. */
  method ClearPass(nb: nat, tmp: array<Word>, nc1: nat, buf1: array<Word>, nc2: nat, buf2: array<Word>,
                   ghost s: Cover, ghost t: Cover) returns (mark: seq<bool>)
    requires Base(nc1, nb) <= tmp.Length && Base(nc1, nb) <= buf1.Length && Base(nc2, nb) <= buf2.Length
    requires tmp != buf1 && tmp != buf2
    requires s == Cubes(buf1[..], nb, 0, nc1) && t == Cubes(buf2[..], nb, 0, nc2)
    requires Uniform(s, nb) && Uniform(t, nb)
    modifies tmp
    ensures D.Recorded(tmp[..], nb, mark, Cleared(D.Quots(s, t, nb), nb), nc1)
  {
    mark := seq(nc1, _ => false);
    for i := 0 to nc1
      invariant D.Recorded(tmp[..], nb, mark, Cleared(D.Quots(s, t, nb), nb), i)
    {
      mark := ClearNext(nb, tmp, nc1, buf1, nc2, buf2, mark, i, s, t);
    }
  }

  /**
   * Position i of pass two as written. pending is the complement of the
   * source's mark vector: a position is skipped once an equal quotient has
   * been emitted before it. The scan from i compares every later position,
   * as every one holds a quotient.
   */
  method ClearedEmitNext(nb: nat, tmp: array<Word>, nc1: nat, n: nat, pending: seq<bool>, pos: seq<nat>, i: nat,
                         ghost qs: seq<D.Quot>, all: seq<bool>) returns (pending': seq<bool>, pos': seq<nat>)
    requires i < nc1 == |qs| && Base(nc1, nb) <= tmp.Length && D.Recorded(tmp[..], nb, all, qs, nc1)
    requires D.Pending(qs, n, pending, i) && D.Listed(qs, n, pos, i)
    ensures D.Pending(qs, n, pending', i + 1) && D.Listed(qs, n, pos', i + 1)
  {
    pending', pos' := pending, pos;
    if !pending[i] {
      D.SkipStep(qs, n, pending, i);
      D.ListedKeep(qs, n, pos, i);
      return;
    }
    ghost var v := qs[i].value;
    D.ScanReady(tmp[..], nb, all, pending, qs, n, i);
    var c, tmpList := D.ScanSame(nb, tmp, nc1, all, i, qs, v);
    D.LaterIn(qs, v, i, nc1);
    if c == n {
      pos' := pos + [i];
      pending' := D.Unmark(pending, tmpList);
      D.EmitStep(qs, n, pending, pending', i);
      D.ListedEmit(qs, n, pos, i);
    } else {
      D.KeepStep(qs, n, pending, i);
      D.ListedKeep(qs, n, pos, i);
    }
  }

  /** Pass two of division as written: the positions of the emitted cubes. */
  method ClearedEmitPass(nb: nat, tmp: array<Word>, nc1: nat, n: nat, all: seq<bool>, ghost qs: seq<D.Quot>)
    returns (pos: seq<nat>)
    requires nc1 == |qs| && Base(nc1, nb) <= tmp.Length && D.Recorded(tmp[..], nb, all, qs, nc1)
    ensures |pos| == |D.Emitted(qs, n, nc1)|
    ensures forall j :: 0 <= j < |pos| ==>
              Base(pos[j], nb) + nb <= tmp.Length && CubeAt(tmp[..], nb, pos[j]) == D.Emitted(qs, n, nc1)[j]
  {
    // every position holds a quotient: none is skipped yet
    var pending := all;
    pos := [];
    for i := 0 to nc1
      invariant D.Pending(qs, n, pending, i) && D.Listed(qs, n, pos, i)
    {
      pending, pos := ClearedEmitNext(nb, tmp, nc1, n, pending, pos, i, qs, all);
    }
  }

  /**
   * division(f, d): the cubes emitted from the cleared quotients, with
   * the work buffer tmp; the destination may be either operand.
   */
  method ClearedDivisionLoops(nb: nat, dst: array<Word>, tmp: array<Word>, nc1: nat, buf1: array<Word>, nc2: nat, buf2: array<Word>)
    returns (nc: nat)
    requires Base(nc1, nb) <= tmp.Length && Base(nc1, nb) <= buf1.Length && Base(nc2, nb) <= buf2.Length
    requires tmp != buf1 && tmp != buf2 && dst != tmp
    requires nc2 > 0 ==> Base(nc1 / nc2, nb) <= dst.Length
    modifies tmp, dst
    ensures Uniform(old(Cubes(buf1[..], nb, 0, nc1)), nb) && Uniform(old(Cubes(buf2[..], nb, 0, nc2)), nb)
    ensures Base(nc, nb) <= dst.Length
    ensures Cubes(dst[..], nb, 0, nc) == ClearedDivision(old(Cubes(buf1[..], nb, 0, nc1)), old(Cubes(buf2[..], nb, 0, nc2)), nb)
  {
    ghost var s := Cubes(buf1[..], nb, 0, nc1);
    ghost var t := Cubes(buf2[..], nb, 0, nc2);
    CubesUniform(buf1[..], nb, 0, nc1);
    CubesUniform(buf2[..], nb, 0, nc2);
    ghost var qs := Cleared(D.Quots(s, t, nb), nb);
    var mark := ClearPass(nb, tmp, nc1, buf1, nc2, buf2, s, t);
    var pos := ClearedEmitPass(nb, tmp, nc1, nc2, mark, qs);
    ghost var e := D.Emitted(qs, nc2, nc1);
    if nc2 > 0 {
      ClearedDivisionLength(s, t, nb);
      BaseMono(|pos|, nc1 / nc2, nb);
    } else {
      D.NothingByZero(qs, nc1);
    }
    D.CopyPass(nb, dst, tmp, pos, e);
    nc := |pos|;
  }

  /**
   * division(cover, cover) as written: the work buffer is resized to nc1
   * cubes and the emitted cubes are copied to the destination.
   */
  method Division(m: M.AlgMgr, dst: array<Word>, nc1: nat, buf1: array<Word>, nc2: nat, buf2: array<Word>) returns (nc: nat)
    requires m.Valid()
    requires Base(nc1, m.nb) <= buf1.Length && Base(nc2, m.nb) <= buf2.Length
    requires nc2 > 0 ==> Base(nc1 / nc2, m.nb) <= dst.Length
    requires buf1 != m.tmpBuff && buf2 != m.tmpBuff
    modifies m, dst
    ensures m.Valid() && fresh(m.tmpBuff)
    ensures Uniform(old(Cubes(buf1[..], m.nb, 0, nc1)), m.nb) && Uniform(old(Cubes(buf2[..], m.nb, 0, nc2)), m.nb)
    ensures Base(nc, m.nb) <= dst.Length
    ensures Cubes(dst[..], m.nb, 0, nc) ==
            ClearedDivision(old(Cubes(buf1[..], m.nb, 0, nc1)), old(Cubes(buf2[..], m.nb, 0, nc2)), m.nb)
  {
    m.ResizeBuff(nc1);
    BaseMono(nc1, m.tmpBuffSize, m.nb);
    var tmp := m.tmpBuff;
    nc := ClearedDivisionLoops(m.nb, dst, tmp, nc1, buf1, nc2, buf2);
  }

  // ---------------------------------------------------------------------
  // division(cover, lit)
  // ---------------------------------------------------------------------

  /**
   * pat1 = pat << sft as written: pat is an AlgPol, which the shift
   * promotes to a 32-bit int, so the shift is defined only for sft < 32
   * and a result that fits a signed int. None stands for the undefined
   * cases; where it is defined it is the 64-bit pattern of the newer code.
   */
  function IntPattern(l: L.AlgLiteral): (r: T.Option<Word>)
    ensures r.Some? ==> r.value == LitOps.LitWord(l)
  {
    var k := LitOps.Idx(l);
    if k < 16 && (LitOps.Code(l) << (2 * k)) < 0x8000_0000 then T.Some(LitOps.Code(l) << (2 * k)) else T.None
  }

  /** A code of 1 or 2 shifted by 2 k < 32 places stays below 2^31 exactly up to field 15 with code 1. */
  lemma ShiftFits(c: Word, k: bv7)
    requires (c == 1 || c == 2) && k < 16
    ensures (c << (2 * k)) < 0x8000_0000 <==> k < 15 || (k == 15 && c == 1)
  {
  }

  /**
   * The shift is defined only for the variables in positions 16 .. 31 of
   * their word, and for a positive literal only from position 17 on: for
   * every other variable, the first of each word among them, division(lit)
   * is undefined.
   */
  lemma IntPatternDefined(l: L.AlgLiteral)
    ensures IntPattern(l).Some? <==> L.VarId(l) % 32 >= 17 || (L.VarId(l) % 32 == 16 && L.IsNegative(l))
  {
    var v := L.VarId(l);
    IdxFromValue(v % 32);
    var k := LitOps.Idx(l);
    assert k as int == 31 - v % 32;
    if k < 16 {
      ShiftFits(LitOps.Code(l), k);
    }
  }

  /** Variable 0: the field sits 62 places up, beyond any int shift. */
  lemma IntPatternFirstVariable(l: L.AlgLiteral)
    requires L.VarId(l) == 0
    ensures IntPattern(l).None? && LitOps.LitWord(l) != 0
  {
    IntPatternDefined(l);
    IdxFromValue(0);
    LitOps.LitOneBit(l);
  }

  /**
   * division(cover, lit), with the 64-bit pattern of the newer code: the
   * cubes holding the literal, with it removed; the destination may be the
   * operand. Where IntPattern is defined it is this pattern.
   */
  method DivisionLit(m: M.AlgMgr, dst: array<Word>, nc1: nat, buf1: array<Word>, lit: L.AlgLiteral) returns (wpos: nat)
    requires m.Valid() && L.VarId(lit) < m.varNum
    requires Base(nc1, m.nb) <= buf1.Length && Base(nc1, m.nb) <= dst.Length
    modifies dst
    ensures wpos <= nc1 && Base(wpos, m.nb) <= dst.Length
    ensures Uniform(old(Cubes(buf1[..], m.nb, 0, nc1)), m.nb)
    ensures Cubes(dst[..], m.nb, 0, wpos) == D.LitQuotients(old(Cubes(buf1[..], m.nb, 0, nc1)), m.nb, lit)
  {
    BlockInCube(m.varNum, L.VarId(lit));
    wpos := D.DivisionLit(m.nb, dst, nc1, buf1, lit);
  }

  // ---------------------------------------------------------------------
  // _sort as written
  // ---------------------------------------------------------------------

  /** cube_swap(i, j) on a sequence of cubes. */
  function SwapAt(a: seq<Cube>, i: nat, j: nat): (r: seq<Cube>)
    requires i < |a| && j < |a|
    ensures |r| == |a| && r[i] == a[j] && r[j] == a[i]
  {
    a[i := a[j]][j := a[i]]
  }

  /** cube_rotate3(p1, p2, p3): p1 gets the cube of p2, p2 that of p3, p3 that of p1. */
  function Rotate3(a: seq<Cube>, p1: nat, p2: nat, p3: nat): (r: seq<Cube>)
    requires p1 < |a| && p2 < |a| && p3 < |a|
    ensures |r| == |a|
  {
    a[p1 := a[p2]][p2 := a[p3]][p3 := a[p1]]
  }

  /** cube_rotate4(p1, p2, p3, p4): each position gets the cube of the next, p4 that of p1. */
  function Rotate4(a: seq<Cube>, p1: nat, p2: nat, p3: nat, p4: nat): (r: seq<Cube>)
    requires p1 < |a| && p2 < |a| && p3 < |a| && p4 < |a|
    ensures |r| == |a|
  {
    a[p1 := a[p2]][p2 := a[p3]][p3 := a[p4]][p4 := a[p1]]
  }

  /** cube_compare(bv, i, bv, j) < 0. */
  predicate Lt(a: seq<Cube>, i: nat, j: nat)
    requires i < |a| && j < |a|
  {
    CubeCompare(a[i], a[j]) < 0
  }

  /** The n == 2 case as written: it looks at cubes 0 and 1. */
  function FixedSort2(a: seq<Cube>): (r: seq<Cube>)
    requires |a| >= 2
    ensures |r| == |a|
  {
    if Lt(a, 0, 1) then SwapAt(a, 0, 1) else a
  }

  /** The n == 3 case as written: it looks at cubes 0, 1 and 2. */
  function FixedSort3(a: seq<Cube>): (r: seq<Cube>)
    requires |a| >= 3
    ensures |r| == |a|
  {
    if Lt(a, 0, 1) then
      if Lt(a, 0, 2) then (if Lt(a, 1, 2) then SwapAt(a, 0, 2) else Rotate3(a, 0, 1, 2))
      else SwapAt(a, 0, 1)
    else if Lt(a, 0, 2) then Rotate3(a, 0, 2, 1)
    else if Lt(a, 1, 2) then SwapAt(a, 1, 2)
    else a
  }

  /** The n == 4 case as written: it looks at cubes 0 .. 3. */
  function FixedSort4(a: seq<Cube>): (r: seq<Cube>)
    requires |a| >= 4
    ensures |r| == |a|
  {
    var b := if Lt(a, 0, 1) then SwapAt(a, 0, 1) else a;
    var c := if Lt(b, 2, 3) then SwapAt(b, 2, 3) else b;
    if Lt(c, 0, 2) then
      if Lt(c, 0, 3) then SwapAt(SwapAt(c, 0, 2), 1, 3)
      else if Lt(c, 1, 3) then Rotate4(c, 0, 2, 3, 1)
      else Rotate3(c, 0, 2, 1)
    else if Lt(c, 1, 2) then (if Lt(c, 1, 3) then Rotate3(c, 1, 2, 3) else SwapAt(c, 1, 2))
    else c
  }

  /**
   * The merge loop of _sort: the greater head first. On an equal pair,
   * where the source stops at an assertion, the second half's cube is
   * taken; the halves of a range of distinct cubes never meet one.
   */
  function SortMergeSeq(s: seq<Cube>, t: seq<Cube>): (r: seq<Cube>)
    ensures |r| == |s| + |t|
    decreases |s| + |t|
  {
    if |s| == 0 then t
    else if |t| == 0 then s
    else if CubeCompare(s[0], t[0]) > 0 then [s[0]] + SortMergeSeq(s[1..], t)
    else [t[0]] + SortMergeSeq(s, t[1..])
  }

  /**
   * _sort(bv, start, end) as written, on the cubes of the buffer: the
   * small cases sort cubes 0 .. n - 1, not start .. end - 1; larger ranges
   * sort both halves, stop when the last cube of the first lies above the
   * head of the second, and otherwise merge them.
   */
  function SortAsWritten(a: seq<Cube>, start: nat, end: nat): (r: seq<Cube>)
    requires start <= end <= |a|
    ensures |r| == |a|
    decreases end - start
  {
    var n := end - start;
    if n <= 1 then a
    else if n == 2 then FixedSort2(a)
    else if n == 3 then FixedSort3(a)
    else if n == 4 then FixedSort4(a)
    else
      var mid := start + (n + 1) / 2;
      var b := SortAsWritten(SortAsWritten(a, start, mid), mid, end);
      if CubeCompare(b[mid - 1], b[mid]) > 0 then b
      else b[..start] + SortMergeSeq(b[start..mid], b[mid..end]) + b[end..]
  }

  const CubeD: Cube := [0x0200_0000_0000_0000]
  const CubeE: Cube := [0x0080_0000_0000_0000]

  /**
   * e + d + c + b + a: the second half, cubes 3 and 4, is "sorted" by
   * comparing cubes 0 and 1, so b stays before a and the merge leaves
   * b + a + c + d + e, which is not descending; sorting gives a + b + c +
   * d + e.
   */
  lemma SortFinding()
    ensures SortAsWritten([CubeE, CubeD, D.CubeC, D.CubeB, D.CubeA], 0, 5) == [D.CubeB, D.CubeA, D.CubeC, CubeD, CubeE]
    ensures !Desc([D.CubeB, D.CubeA, D.CubeC, CubeD, CubeE])
    ensures Desc([D.CubeA, D.CubeB, D.CubeC, CubeD, CubeE])
  {
    var a, b, c, d, e := D.CubeA, D.CubeB, D.CubeC, CubeD, CubeE;
    SortFindingHalves();
    var z := [c, d, e, b, a];
    assert z[0..3] == [c, d, e] && z[3..5] == [b, a] && z[..0] == [] && z[5..] == [];
    SortFindingMerge();
    var v := [b, a, c, d, e];
    assert v[0] == b && v[1] == a && !Above(v[0], v[1]);
    SortFindingOrder();
  }

  /** The two halves of e + d + c + b + a as the small cases leave them. */
  lemma SortFindingHalves()
    ensures SortAsWritten(SortAsWritten([CubeE, CubeD, D.CubeC, D.CubeB, D.CubeA], 0, 3), 3, 5) == [D.CubeC, CubeD, CubeE, D.CubeB, D.CubeA]
    ensures CubeCompare(CubeE, D.CubeB) == -1
  {
    var a, b, c, d, e := D.CubeA, D.CubeB, D.CubeC, CubeD, CubeE;
    assert CubeCompare(e, d) == -1 && CubeCompare(e, c) == -1 && CubeCompare(d, c) == -1;
    assert CubeCompare(c, d) == 1 && CubeCompare(e, b) == -1;
    var x := [e, d, c, b, a];
    var y := SortAsWritten(x, 0, 3);
    assert y == FixedSort3(x) == SwapAt(x, 0, 2) == [c, d, e, b, a];
    assert SortAsWritten(y, 3, 5) == FixedSort2(y) == y;
  }

  /** Merging c + d + e with b + a puts b and a first. */
  lemma SortFindingMerge()
    ensures SortMergeSeq([D.CubeC, CubeD, CubeE], [D.CubeB, D.CubeA]) == [D.CubeB, D.CubeA, D.CubeC, CubeD, CubeE]
  {
    var a, b, c, d, e := D.CubeA, D.CubeB, D.CubeC, CubeD, CubeE;
    assert CubeCompare(c, b) == -1 && CubeCompare(c, a) == -1;
    assert SortMergeSeq([c, d, e], [b, a]) == [b] + SortMergeSeq([c, d, e], [a]);
    assert SortMergeSeq([c, d, e], [a]) == [a] + SortMergeSeq([c, d, e], []);
  }

  /** a + b + c + d + e is in descending cube order. */
  lemma SortFindingOrder()
    ensures CubeCompare(D.CubeB, D.CubeA) == -1
    ensures Desc([D.CubeA, D.CubeB, D.CubeC, CubeD, CubeE])
  {
    var a, b, c, d, e := D.CubeA, D.CubeB, D.CubeC, CubeD, CubeE;
    assert CubeCompare(b, a) == -1;
    assert CubeCompare(a, b) == 1 && CubeCompare(a, c) == 1 && CubeCompare(a, d) == 1 && CubeCompare(a, e) == 1;
    assert CubeCompare(b, c) == 1 && CubeCompare(b, d) == 1 && CubeCompare(b, e) == 1;
    assert CubeCompare(c, d) == 1 && CubeCompare(c, e) == 1 && CubeCompare(d, e) == 1;
  }
}
