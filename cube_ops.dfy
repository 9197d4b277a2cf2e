/**
 * The per-cube operations of the manager (c++-srcs/AlgMgr.cc:879-1053):
 * the product, containment and intersection tests, cube_clear, the cube
 * product and quotient, and the literal tests of literal sets. Each takes
 * the cube size nb and cube positions in word buffers; each is proved to
 * compute the word-wise function of CubeAlgebra on the cubes it reads.
 */
module CubeOps {
  import opened CubeBits
  import opened CubeView
  import opened CubeAlgebra

  /** cube_check_product: the union of the two cubes has no conflict. */
  method CubeCheckProduct(nb: nat, buf1: array<Word>, pos1: nat, buf2: array<Word>, pos2: nat) returns (r: bool)
    requires Base(pos1, nb) + nb <= buf1.Length && Base(pos2, nb) + nb <= buf2.Length
    ensures r == ProductOk(CubeAt(buf1[..], nb, pos1), CubeAt(buf2[..], nb, pos2))
  {
    ghost var x, y := CubeAt(buf1[..], nb, pos1), CubeAt(buf2[..], nb, pos2);
    var b1, b2 := Base(pos1, nb), Base(pos2, nb);
    for i := 0 to nb
      invariant forall k :: 0 <= k < i ==> ProductFree(x[k], y[k])
    {
      if !ProductFree(buf1[b1 + i], buf2[b2 + i]) {
        assert x[i] == buf1[b1 + i] && y[i] == buf2[b2 + i];
        return false;
      }
    }
    return true;
  }

  /** cube_check_containment: every bit of the second cube is set in the first. */
  method CubeCheckContainment(nb: nat, buf1: array<Word>, pos1: nat, buf2: array<Word>, pos2: nat) returns (r: bool)
    requires Base(pos1, nb) + nb <= buf1.Length && Base(pos2, nb) + nb <= buf2.Length
    ensures r == Covers(CubeAt(buf1[..], nb, pos1), CubeAt(buf2[..], nb, pos2))
  {
    ghost var x, y := CubeAt(buf1[..], nb, pos1), CubeAt(buf2[..], nb, pos2);
    var b1, b2 := Base(pos1, nb), Base(pos2, nb);
    for i := 0 to nb
      invariant forall k :: 0 <= k < i ==> WordCovers(x[k], y[k])
    {
      if !buf1[b1 + i] & buf2[b2 + i] != 0 {
        assert x[i] == buf1[b1 + i] && y[i] == buf2[b2 + i];
        return false;
      }
    }
    return true;
  }

  /** cube_check_intersect: some word has a bit set in both cubes. */
  method CubeCheckIntersect(nb: nat, buf1: array<Word>, pos1: nat, buf2: array<Word>, pos2: nat) returns (r: bool)
    requires Base(pos1, nb) + nb <= buf1.Length && Base(pos2, nb) + nb <= buf2.Length
    ensures r == Intersects(CubeAt(buf1[..], nb, pos1), CubeAt(buf2[..], nb, pos2))
  {
    ghost var x, y := CubeAt(buf1[..], nb, pos1), CubeAt(buf2[..], nb, pos2);
    var b1, b2 := Base(pos1, nb), Base(pos2, nb);
    for i := 0 to nb
      invariant forall k :: 0 <= k < i ==> !WordMeets(x[k], y[k])
    {
      if WordMeets(buf1[b1 + i], buf2[b2 + i]) {
        assert x[i] == buf1[b1 + i] && y[i] == buf2[b2 + i];
        return true;
      }
    }
    return false;
  }

  /** cube_clear: the cube becomes the empty cube (no literal). */
  method CubeClear(nb: nat, dst: array<Word>, pos: nat)
    requires Base(pos, nb) + nb <= dst.Length
    modifies dst
    ensures dst[..] == Splice(old(dst[..]), Base(pos, nb), ZeroCube(nb))
  {
    ghost var d0 := dst[..];
    var b := Base(pos, nb);
    for i := 0 to nb
      invariant forall k :: b <= k < b + i ==> dst[k] == 0
      invariant forall k :: 0 <= k < dst.Length && !(b <= k < b + i) ==> dst[k] == d0[k]
    {
      dst[b + i] := 0;
    }
    ghost var z := ZeroCube(nb);
    assert forall k :: 0 <= k < nb ==> dst[..][b + k] == z[k];
    SpliceFrom(dst[..], d0, b, z);
  }

  /**
   * cube_product: when the union has no conflict, the destination cube is
   * the word-wise OR. The words are written one by one, so on failure the
   * destination cube holds the OR words before the first clashing word and
   * its old words from there on; nothing outside it changes. The
   * destination is either apart from both operands or the very cube it
   * reads.
   */
  method CubeProduct(nb: nat, dst: array<Word>, dpos: nat, buf1: array<Word>, pos1: nat, buf2: array<Word>, pos2: nat)
    returns (ok: bool)
    requires Base(dpos, nb) + nb <= dst.Length
    requires Base(pos1, nb) + nb <= buf1.Length && Base(pos2, nb) + nb <= buf2.Length
    requires dst == buf1 ==> dpos == pos1
    requires dst == buf2 ==> dpos == pos2
    modifies dst
    ensures ok == ProductOk(old(CubeAt(buf1[..], nb, pos1)), old(CubeAt(buf2[..], nb, pos2)))
    ensures ok ==> dst[..] == Splice(old(dst[..]), Base(dpos, nb),
                                     OrCube(old(CubeAt(buf1[..], nb, pos1)), old(CubeAt(buf2[..], nb, pos2))))
    ensures dst[..] == Splice(old(dst[..]), Base(dpos, nb),
                              StoredProduct(old(CubeAt(buf1[..], nb, pos1)), old(CubeAt(buf2[..], nb, pos2)),
                                            old(CubeAt(dst[..], nb, dpos))))
    ensures forall k :: 0 <= k < dst.Length && !(Base(dpos, nb) <= k < Base(dpos, nb) + nb) ==> dst[k] == old(dst[k])
  {
    ghost var x, y := CubeAt(buf1[..], nb, pos1), CubeAt(buf2[..], nb, pos2);
    ghost var z := CubeAt(dst[..], nb, dpos);
    assert forall k :: 0 <= k < nb ==> buf1[Base(pos1, nb) + k] == x[k] && buf2[Base(pos2, nb) + k] == y[k];
    ok := ProductWords(nb, dst, Base(dpos, nb), buf1, Base(pos1, nb), buf2, Base(pos2, nb), x, y);
    assert old(dst[Base(dpos, nb)..Base(dpos, nb) + nb]) == z;
  }

  /** The loop of cube_product on word offsets; x and y are the operand cubes. */
  method ProductWords(nb: nat, dst: array<Word>, db: nat, buf1: array<Word>, b1: nat, buf2: array<Word>, b2: nat,
                      ghost x: Cube, ghost y: Cube)
    returns (ok: bool)
    requires db + nb <= dst.Length && b1 + nb <= buf1.Length && b2 + nb <= buf2.Length
    requires dst == buf1 ==> db == b1
    requires dst == buf2 ==> db == b2
    requires |x| == nb && |y| == nb
    requires forall k :: 0 <= k < nb ==> buf1[b1 + k] == x[k] && buf2[b2 + k] == y[k]
    modifies dst
    ensures ok == ProductOk(x, y)
    ensures ok ==> dst[..] == Splice(old(dst[..]), db, OrCube(x, y))
    ensures dst[..] == Splice(old(dst[..]), db, StoredProduct(x, y, old(dst[db..db + nb])))
    ensures forall k :: 0 <= k < dst.Length && !(db <= k < db + nb) ==> dst[k] == old(dst[k])
  {
    ghost var d0 := dst[..];
    ghost var z := dst[db..db + nb];
    for i := 0 to nb
      invariant forall k :: 0 <= k < i ==> ProductFree(x[k], y[k])
      invariant forall k :: 0 <= k < i ==> dst[db + k] == OrWord(x[k], y[k])
      invariant forall k :: 0 <= k < dst.Length && !(db <= k < db + i) ==> dst[k] == d0[k]
      invariant forall k :: i <= k < nb ==> buf1[b1 + k] == x[k] && buf2[b2 + k] == y[k]
    {
      var w1, w2 := buf1[b1 + i], buf2[b2 + i];
      assert w1 == x[i] && w2 == y[i];
      if !ProductFree(w1, w2) {
        StoredPrefix(x, y, z, i);
        SpliceFrom(dst[..], d0, db, StoredProduct(x, y, z));
        return false;
      }
      dst[db + i] := OrWord(w1, w2);
    }
    SpliceFrom(dst[..], d0, db, OrCube(x, y));
    StoredProductOk(x, y, z);
    return true;
  }

  /**
   * cube_division: when the divisor's bits are all set in the dividend the
   * destination cube is the dividend without them; on failure the
   * destination cube is left partly written.
   */
  method CubeDivision(nb: nat, dst: array<Word>, dpos: nat, buf1: array<Word>, pos1: nat, buf2: array<Word>, pos2: nat)
    returns (ok: bool)
    requires Base(dpos, nb) + nb <= dst.Length
    requires Base(pos1, nb) + nb <= buf1.Length && Base(pos2, nb) + nb <= buf2.Length
    requires dst == buf1 ==> dpos == pos1
    requires dst == buf2 ==> dpos == pos2
    modifies dst
    ensures ok == Covers(old(CubeAt(buf1[..], nb, pos1)), old(CubeAt(buf2[..], nb, pos2)))
    ensures ok ==> dst[..] == Splice(old(dst[..]), Base(dpos, nb),
                                     QuotCube(old(CubeAt(buf1[..], nb, pos1)), old(CubeAt(buf2[..], nb, pos2))))
    ensures forall k :: 0 <= k < dst.Length && !(Base(dpos, nb) <= k < Base(dpos, nb) + nb) ==> dst[k] == old(dst[k])
  {
    ok := DivisionWords(nb, dst, Base(dpos, nb), buf1, Base(pos1, nb), buf2, Base(pos2, nb),
                        CubeAt(buf1[..], nb, pos1), CubeAt(buf2[..], nb, pos2));
  }

  /** The loop of cube_division on word offsets; x and y are the operand cubes. */
  method DivisionWords(nb: nat, dst: array<Word>, db: nat, buf1: array<Word>, b1: nat, buf2: array<Word>, b2: nat,
                       ghost x: Cube, ghost y: Cube)
    returns (ok: bool)
    requires db + nb <= dst.Length && b1 + nb <= buf1.Length && b2 + nb <= buf2.Length
    requires dst == buf1 ==> db == b1
    requires dst == buf2 ==> db == b2
    requires |x| == nb && |y| == nb
    requires forall k :: 0 <= k < nb ==> buf1[b1 + k] == x[k] && buf2[b2 + k] == y[k]
    modifies dst
    ensures ok == Covers(x, y)
    ensures ok ==> dst[..] == Splice(old(dst[..]), db, QuotCube(x, y))
    ensures forall k :: 0 <= k < dst.Length && !(db <= k < db + nb) ==> dst[k] == old(dst[k])
  {
    ghost var d0 := dst[..];
    for i := 0 to nb
      invariant forall k :: 0 <= k < i ==> WordCovers(x[k], y[k])
      invariant forall k :: 0 <= k < i ==> dst[db + k] == QuotWord(x[k], y[k])
      invariant forall k :: 0 <= k < dst.Length && !(db <= k < db + i) ==> dst[k] == d0[k]
      invariant forall k :: i <= k < nb ==> buf1[b1 + k] == x[k] && buf2[b2 + k] == y[k]
    {
      var w1, w2 := buf1[b1 + i], buf2[b2 + i];
      assert w1 == x[i] && w2 == y[i];
      if !WordCovers(w1, w2) {
        return false;
      }
      dst[db + i] := QuotWord(w1, w2);
    }
    SpliceFrom(dst[..], d0, db, QuotCube(x, y));
    return true;
  }
}
