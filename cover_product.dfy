/**
 * The two product operations of the manager (c++-srcs/AlgMgr.cc:418-483).
 *
 * product of two covers multiplies every cube of the first with every cube
 * of the second, row by row, and keeps the products that have no variable
 * in both polarities. product of a cover and a literal adds the literal to
 * every cube that does not hold its opposite.
 */
module CoverProduct {
  import opened CubeBits
  import opened CubeView
  import opened CubeAlgebra
  import opened LitOps
  import L = AlgLiterals
  import CubeOps
  import CubeBuffer

  // ---------------------------------------------------------------------
  // The product of two covers
  // ---------------------------------------------------------------------

  /** x and y have a product: same size and no opposite literals. */
  predicate Multiplies(x: Cube, y: Cube)
  {
    |x| == |y| && ProductOk(x, y)
  }

  /** The products of x with the cubes of t that it multiplies, in t's order. */
  function RowProducts(x: Cube, t: Cover): (r: Cover)
    ensures |r| <= |t|
  {
    if |t| == 0 then []
    else
      var r0 := RowProducts(x, t[..|t| - 1]);
      var y := t[|t| - 1];
      if Multiplies(x, y) then r0 + [OrCube(x, y)] else r0
  }

  /** The rows of the products of the cubes of s with t, in the order of s. */
  function Products(s: Cover, t: Cover): (r: Cover)
  {
    if |s| == 0 then [] else Products(s[..|s| - 1], t) + RowProducts(s[|s| - 1], t)
  }

  lemma RowProductsSnoc(x: Cube, t: Cover, y: Cube)
    ensures RowProducts(x, t + [y]) == RowProducts(x, t) + if Multiplies(x, y) then [OrCube(x, y)] else []
  {
    assert (t + [y])[..|t|] == t;
  }

  lemma ProductsSnoc(s: Cover, x: Cube, t: Cover)
    ensures Products(s + [x], t) == Products(s, t) + RowProducts(x, t)
  {
    assert (s + [x])[..|s|] == s;
  }

  /** At most |s| * |t| cubes: one per pair. */
  lemma {:induction false} ProductsLength(s: Cover, t: Cover)
    ensures |Products(s, t)| <= |s| * |t|
  {
    if |s| > 0 {
      ProductsLength(s[..|s| - 1], t);
      assert (|s| - 1) * |t| + |t| == |s| * |t|;
    }
  }

  /** The cubes of a row are the products of x with the cubes of t it multiplies. */
  lemma {:induction false} RowMembers(x: Cube, t: Cover, z: Cube)
    ensures z in RowProducts(x, t) <==> exists j :: 0 <= j < |t| && Multiplies(x, t[j]) && z == OrCube(x, t[j])
  {
    if |t| > 0 {
      var u, y := t[..|t| - 1], t[|t| - 1];
      RowMembers(x, u, z);
      assert forall j :: 0 <= j < |u| ==> u[j] == t[j];
      if z in RowProducts(x, t) && z !in RowProducts(x, u) {
        assert Multiplies(x, t[|t| - 1]) && z == OrCube(x, t[|t| - 1]);
      }
    }
  }

  /** The cubes of the product are the products of the pairs that multiply. */
  lemma {:induction false} ProductsMembers(s: Cover, t: Cover, z: Cube)
    ensures z in Products(s, t) <==>
            exists i, j :: 0 <= i < |s| && 0 <= j < |t| && Multiplies(s[i], t[j]) && z == OrCube(s[i], t[j])
  {
    if |s| > 0 {
      var u, x := s[..|s| - 1], s[|s| - 1];
      ProductsMembers(u, t, z);
      RowMembers(x, t, z);
      assert forall i :: 0 <= i < |u| ==> u[i] == s[i];
      if z in Products(s, t) && z !in Products(u, t) {
        var j :| 0 <= j < |t| && Multiplies(x, t[j]) && z == OrCube(x, t[j]);
        assert s[|s| - 1] == x;
      }
      if z !in Products(s, t) {
        forall i, j | 0 <= i < |s| && 0 <= j < |t| && Multiplies(s[i], t[j])
          ensures z != OrCube(s[i], t[j])
        {
          if i == |s| - 1 {
            assert s[i] == x;
          }
        }
      }
    }
  }

  /** Every cube of the product has the operands' size and no conflict field. */
  lemma ProductsWellFormed(s: Cover, t: Cover, nb: nat)
    requires Uniform(s, nb)
    ensures Uniform(Products(s, t), nb)
    ensures forall k :: 0 <= k < |Products(s, t)| ==> WellFormed(Products(s, t)[k])
  {
    var r := Products(s, t);
    forall k | 0 <= k < |r|
      ensures |r[k]| == nb && WellFormed(r[k])
    {
      ProductsMembers(s, t, r[k]);
      var i, j :| 0 <= i < |s| && 0 <= j < |t| && Multiplies(s[i], t[j]) && r[k] == OrCube(s[i], t[j]);
      ProductWellFormed(s[i], t[j]);
    }
  }

  /** The cover made of the empty cube alone is the unit of the product. */
  lemma {:induction false} ProductsUnit(s: Cover, nb: nat)
    requires Uniform(s, nb) && forall i :: 0 <= i < |s| ==> WellFormed(s[i])
    ensures Products(s, [ZeroCube(nb)]) == s
  {
    if |s| > 0 {
      var u, x := s[..|s| - 1], s[|s| - 1];
      ProductsUnit(u, nb);
      UnitRow(x, nb);
      assert u + [x] == s;
    }
  }

  lemma UnitRow(x: Cube, nb: nat)
    requires |x| == nb && WellFormed(x)
    ensures RowProducts(x, [ZeroCube(nb)]) == [x]
  {
    var z := ZeroCube(nb);
    forall i | 0 <= i < nb
      ensures ProductFree(x[i], z[i]) && OrWord(x[i], z[i]) == x[i]
    {
      OrZeroWord(x[i]);
      ConflictFreeIff(x[i]);
    }
    assert OrCube(x, z) == x;
    assert [z][..0] == [];
  }

  lemma OrZeroWord(a: Word)
    ensures OrWord(a, 0) == a
  {
  }

  // ---------------------------------------------------------------------
  // The loops of product
  // ---------------------------------------------------------------------

  /**
   * One pass of the inner loop of product: cube r1 of buf1 times cube r2
   * of buf2 is written at the write cursor, which advances when the
   * product exists. A failed product leaves a partly written cube past
   * the written range.
   */
  method ProductStep(nb: nat, dst: array<Word>, w: nat, buf1: array<Word>, r1: nat, buf2: array<Word>, r2: nat,
                     ghost done: Cover)
    returns (w': nat)
    requires Base(w, nb) + nb <= dst.Length && Base(r1, nb) + nb <= buf1.Length && Base(r2, nb) + nb <= buf2.Length
    requires dst != buf1 && dst != buf2
    requires Cubes(dst[..], nb, 0, w) == done
    modifies dst
    ensures Base(w', nb) <= dst.Length
    ensures Cubes(dst[..], nb, 0, w') == done + if Multiplies(CubeAt(buf1[..], nb, r1), CubeAt(buf2[..], nb, r2))
                                                then [OrCube(CubeAt(buf1[..], nb, r1), CubeAt(buf2[..], nb, r2))]
                                                else []
  {
    ghost var d0 := dst[..];
    ghost var x, y := CubeAt(buf1[..], nb, r1), CubeAt(buf2[..], nb, r2);
    var ok := CubeOps.CubeProduct(nb, dst, w, buf1, r1, buf2, r2);
    if ok {
      CubesAppend(d0, nb, w, OrCube(x, y));
      w' := w + 1;
    } else {
      CubesAgree(dst[..], d0, nb, 0, w);
      w' := w;
    }
  }

  /** Concatenation regroups. */
  lemma ConcatAssoc(a: Cover, b: Cover, c: Cover)
    ensures (a + b) + c == a + (b + c)
  {
  }

  /**
   * One pass of the inner loop of product, stated on the loop's own
   * terms: the cubes written so far grow by the row products of one more
   * cube of buf2.
   */
  method RowNext(nb: nat, dst: array<Word>, w0: nat, w: nat, buf1: array<Word>, r1: nat, nc2: nat, buf2: array<Word>,
                 r2: nat, ghost cap: nat, ghost done: Cover)
    returns (w': nat)
    requires Base(r1, nb) + nb <= buf1.Length && Base(nc2, nb) <= buf2.Length && r2 < nc2
    requires w0 <= w <= w0 + r2 && w0 + nc2 <= cap && Base(cap, nb) <= dst.Length
    requires Base(w, nb) <= dst.Length && Base(r2, nb) <= buf2.Length
    requires dst != buf1 && dst != buf2
    requires Cubes(dst[..], nb, 0, w) == done + RowProducts(CubeAt(buf1[..], nb, r1), Cubes(buf2[..], nb, 0, r2))
    modifies dst
    ensures w0 <= w' <= w0 + r2 + 1 && Base(w', nb) <= dst.Length && Base(r2 + 1, nb) <= buf2.Length
    ensures Cubes(dst[..], nb, 0, w') == done + RowProducts(CubeAt(buf1[..], nb, r1), Cubes(buf2[..], nb, 0, r2 + 1))
  {
    ghost var x := CubeAt(buf1[..], nb, r1);
    ghost var b := buf2[..];
    ghost var t := Cubes(b, nb, 0, r2);
    BaseMono(w + 1, cap, nb);
    BaseMono(r2 + 1, nc2, nb);
    CubesExtend(b, nb, 0, r2);
    RowProductsSnoc(x, t, CubeAt(b, nb, r2));
    ghost var p := if Multiplies(x, CubeAt(b, nb, r2)) then [OrCube(x, CubeAt(b, nb, r2))] else [];
    w' := ProductStep(nb, dst, w, buf1, r1, buf2, r2, done + RowProducts(x, t));
    ConcatAssoc(done, RowProducts(x, t), p);
  }

  /** The inner loop of product: cube r1 of buf1 times each cube of buf2. */
  method ProductRow(nb: nat, dst: array<Word>, w0: nat, buf1: array<Word>, r1: nat, nc2: nat, buf2: array<Word>,
                    ghost cap: nat, ghost done: Cover)
    returns (w: nat)
    requires Base(r1, nb) + nb <= buf1.Length && Base(nc2, nb) <= buf2.Length
    requires w0 + nc2 <= cap && Base(w0, nb) <= Base(cap, nb) <= dst.Length
    requires dst != buf1 && dst != buf2
    requires Cubes(dst[..], nb, 0, w0) == done
    modifies dst
    ensures w0 <= w <= w0 + nc2 && Base(w, nb) <= dst.Length
    ensures Cubes(dst[..], nb, 0, w) == done + RowProducts(CubeAt(buf1[..], nb, r1), Cubes(buf2[..], nb, 0, nc2))
  {
    w := w0;
    assert Cubes(buf2[..], nb, 0, 0) == [];
    for r2 := 0 to nc2
      invariant w0 <= w <= w0 + r2 && Base(w, nb) <= dst.Length && Base(r2, nb) <= buf2.Length
      invariant Cubes(dst[..], nb, 0, w) == done + RowProducts(CubeAt(buf1[..], nb, r1), Cubes(buf2[..], nb, 0, r2))
    {
      w := RowNext(nb, dst, w0, w, buf1, r1, nc2, buf2, r2, cap, done);
    }
  }

  /** One pass of the outer loop of product: the products of one more cube of buf1. */
  method LoopsNext(nb: nat, dst: array<Word>, w: nat, nc1: nat, buf1: array<Word>, r1: nat, nc2: nat, buf2: array<Word>)
    returns (w': nat)
    requires Base(nc1, nb) <= buf1.Length && Base(nc2, nb) <= buf2.Length && Base(Base(nc1, nc2), nb) <= dst.Length
    requires r1 < nc1 && w <= Base(r1, nc2) && Base(w, nb) <= dst.Length && Base(r1, nb) <= buf1.Length
    requires dst != buf1 && dst != buf2
    requires Cubes(dst[..], nb, 0, w) == Products(Cubes(buf1[..], nb, 0, r1), Cubes(buf2[..], nb, 0, nc2))
    modifies dst
    ensures w' <= Base(r1 + 1, nc2) && Base(w', nb) <= dst.Length && Base(r1 + 1, nb) <= buf1.Length
    ensures Cubes(dst[..], nb, 0, w') == Products(Cubes(buf1[..], nb, 0, r1 + 1), Cubes(buf2[..], nb, 0, nc2))
  {
    ghost var a := buf1[..];
    ghost var t := Cubes(buf2[..], nb, 0, nc2);
    BaseMono(r1 + 1, nc1, nb);
    BaseMono(r1 + 1, nc1, nc2);
    BaseMono(Base(r1 + 1, nc2), Base(nc1, nc2), nb);
    CubesExtend(a, nb, 0, r1);
    ProductsSnoc(Cubes(a, nb, 0, r1), CubeAt(a, nb, r1), t);
    BaseMono(w, Base(r1 + 1, nc2), nb);
    w' := ProductRow(nb, dst, w, buf1, r1, nc2, buf2, Base(r1 + 1, nc2), Cubes(dst[..], nb, 0, w));
  }

  /**
   * The loops of product, on a first operand apart from the destination:
   * the destination has room for nc1 * nc2 cubes, Base(nc1, nc2) here.
   */
  method ProductLoops(nb: nat, dst: array<Word>, nc1: nat, buf1: array<Word>, nc2: nat, buf2: array<Word>)
    returns (w: nat)
    requires Base(nc1, nb) <= buf1.Length && Base(nc2, nb) <= buf2.Length && Base(Base(nc1, nc2), nb) <= dst.Length
    requires dst != buf1 && dst != buf2
    modifies dst
    ensures w <= Base(nc1, nc2) && Base(w, nb) <= dst.Length
    ensures Cubes(dst[..], nb, 0, w) == Products(Cubes(buf1[..], nb, 0, nc1), Cubes(buf2[..], nb, 0, nc2))
  {
    w := 0;
    assert Cubes(dst[..], nb, 0, 0) == [] && Cubes(buf1[..], nb, 0, 0) == [];
    for r1 := 0 to nc1
      invariant w <= Base(r1, nc2) && Base(w, nb) <= dst.Length && Base(r1, nb) <= buf1.Length
      invariant Cubes(dst[..], nb, 0, w) == Products(Cubes(buf1[..], nb, 0, r1), Cubes(buf2[..], nb, 0, nc2))
    {
      w := LoopsNext(nb, dst, w, nc1, buf1, r1, nc2, buf2);
    }
    BaseMono(w, Base(nc1, nc2), nb);
  }

  // ---------------------------------------------------------------------
  // The product of a cover and a literal
  // ---------------------------------------------------------------------

  /** mask: both bits of the field of the literal's variable. */
  function FieldMask(l: L.AlgLiteral): Word
  {
    VarMask(L.VarId(l))
  }

  /**
   * The test of product(lit): with the literal's bit set, both bits of
   * its field are set, so the cube held the opposite literal.
   */
  predicate Clashes(x: Cube, l: L.AlgLiteral)
    requires Blk(l) < |x|
  {
    MaskIn(OrWord(x[Blk(l)], LitWord(l)), FieldMask(l))
  }

  /** The cube of the literal alone. */
  function LitCube(nb: nat, l: L.AlgLiteral): (r: Cube)
    requires Blk(l) < nb
    ensures |r| == nb
  {
    AddToCube(ZeroCube(nb), l)
  }

  /** What product(lit) is meant to leave: each cube without the opposite literal, with the literal added. */
  function LitProducts(s: Cover, nb: nat, l: L.AlgLiteral): (r: Cover)
    requires Uniform(s, nb) && Blk(l) < nb
    ensures |r| <= |s|
  {
    if |s| == 0 then []
    else
      var r0 := LitProducts(s[..|s| - 1], nb, l);
      var x := s[|s| - 1];
      if Clashes(x, l) then r0 else r0 + [AddToCube(x, l)]
  }

  lemma LitProductsSnoc(s: Cover, nb: nat, l: L.AlgLiteral, x: Cube)
    requires Uniform(s, nb) && Blk(l) < nb && |x| == nb
    ensures Uniform(s + [x], nb)
    ensures LitProducts(s + [x], nb, l) == LitProducts(s, nb, l) + if Clashes(x, l) then [] else [AddToCube(x, l)]
  {
    assert (s + [x])[..|s|] == s;
  }

  /** Fields other than the literal's keep their value when its bit is set. */
  lemma OtherFieldKept(w: Word, l: L.AlgLiteral, k: bv7)
    requires k < 32 && k != Idx(l)
    ensures Field(OrWord(w, LitWord(l)), k) == Field(w, k)
  {
    assert LitWord(l) == PolMask(LitPol(L.IsNegative(l)), L.VarId(l));
    MaskOtherFields(LitPol(L.IsNegative(l)), L.VarId(l), k);
    FieldOr(w, LitWord(l), k);
  }

  /** The clash test reads 11 in the literal's field. */
  lemma OwnField(c: Word, l: L.AlgLiteral)
    ensures MaskIn(c, FieldMask(l)) <==> Field(c, Idx(l)) == 3
  {
    ExactField(c, 3, Idx(l));
  }

  /** In a word without conflict, the clash test is the product test with the literal. */
  lemma ClashIff(w: Word, l: L.AlgLiteral)
    requires NoConflict(w)
    ensures ConflictFree(OrWord(w, LitWord(l))) <==> !MaskIn(OrWord(w, LitWord(l)), FieldMask(l))
  {
    var c := OrWord(w, LitWord(l));
    ConflictFreeIff(c);
    OwnField(c, l);
    forall k: bv7 | k < 32 && k != Idx(l)
      ensures Field(c, k) != 3
    {
      OtherFieldKept(w, l, k);
    }
  }

  lemma OrZeroMask(a: Word, m: Word)
    ensures OrWord(a, OrWord(0, m)) == OrWord(a, m)
  {
  }

  /**
   * On a well-formed cube the clash test is the product test with the
   * cube of the literal, and adding the literal is that product.
   */
  lemma LitCubeProduct(x: Cube, nb: nat, l: L.AlgLiteral)
    requires |x| == nb && Blk(l) < nb && WellFormed(x)
    ensures Multiplies(x, LitCube(nb, l)) <==> !Clashes(x, l)
    ensures OrCube(x, LitCube(nb, l)) == AddToCube(x, l)
  {
    var y, j := LitCube(nb, l), Blk(l);
    forall i | 0 <= i < nb && i != j
      ensures ProductFree(x[i], y[i]) && OrWord(x[i], y[i]) == x[i]
    {
      OrZeroWord(x[i]);
      ConflictFreeIff(x[i]);
    }
    OrZeroMask(x[j], LitWord(l));
    ClashIff(x[j], l);
    assert OrCube(x, y)[j] == AddToCube(x, l)[j];
  }

  lemma LitRow(x: Cube, nb: nat, l: L.AlgLiteral)
    requires |x| == nb && Blk(l) < nb && WellFormed(x)
    ensures RowProducts(x, [LitCube(nb, l)]) == if Clashes(x, l) then [] else [AddToCube(x, l)]
  {
    LitCubeProduct(x, nb, l);
    assert [LitCube(nb, l)][..0] == [];
  }

  /**
   * product(cover, lit) is the product with the one-cube cover of the
   * literal, as the cube operator builds it.
   */
  lemma {:induction false} LitProductsIsProduct(s: Cover, nb: nat, l: L.AlgLiteral)
    requires Uniform(s, nb) && Blk(l) < nb && forall i :: 0 <= i < |s| ==> WellFormed(s[i])
    ensures LitProducts(s, nb, l) == Products(s, [LitCube(nb, l)])
  {
    if |s| > 0 {
      LitProductsIsProduct(s[..|s| - 1], nb, l);
      LitRow(s[|s| - 1], nb, l);
    }
  }

  /**
   * One pass of product(lit): cube r of buf1, whose words from cube r on
   * are still those of the snapshot a, is appended with the literal unless
   * it clashes. The destination may be buf1 with its cursor behind.
   */
  method ProductLitStep(nb: nat, dst: array<Word>, w: nat, buf1: array<Word>, r: nat, lit: L.AlgLiteral,
                        ghost a: seq<Word>, ghost done: Cover)
    returns (w': nat)
    requires Blk(lit) < nb && Base(w + 1, nb) <= dst.Length && Base(r + 1, nb) <= |a| && |a| == buf1.Length
    requires dst == buf1 ==> w <= r
    requires forall k :: Base(r, nb) <= k < |a| ==> buf1[k] == a[k]
    requires Cubes(dst[..], nb, 0, w) == done
    modifies dst
    ensures forall k :: Base(r + 1, nb) <= k < |a| ==> buf1[k] == a[k]
    ensures Base(w', nb) <= dst.Length
    ensures Cubes(dst[..], nb, 0, w') == done + if Clashes(CubeAt(a, nb, r), lit) then [] else [AddToCube(CubeAt(a, nb, r), lit)]
  {
    ghost var x := CubeAt(a, nb, r);
    var rb, blk := Base(r, nb), BlockPos(L.VarId(lit));
    CubeAtIndex(a, nb, r, blk);
    var tmp := OrWord(buf1[rb + blk], LitWord(lit));
    if MaskIn(tmp, VarMask(L.VarId(lit))) {
      return w;
    }
    KeepLitCube(nb, dst, w, buf1, r, lit, tmp, a, done);
    w' := w + 1;
  }

  /** Cube r of buf1 with the literal's word replaced by tmp is appended as cube w. */
  method KeepLitCube(nb: nat, dst: array<Word>, w: nat, buf1: array<Word>, r: nat, lit: L.AlgLiteral, tmp: Word,
                     ghost a: seq<Word>, ghost done: Cover)
    requires Blk(lit) < nb && Base(w + 1, nb) <= dst.Length && Base(r + 1, nb) <= |a| && |a| == buf1.Length
    requires dst == buf1 ==> w <= r
    requires forall k :: Base(r, nb) <= k < |a| ==> buf1[k] == a[k]
    requires Cubes(dst[..], nb, 0, w) == done
    requires tmp == OrWord(CubeAt(a, nb, r)[Blk(lit)], LitWord(lit))
    modifies dst
    ensures forall k :: Base(r + 1, nb) <= k < |a| ==> buf1[k] == a[k]
    ensures Cubes(dst[..], nb, 0, w + 1) == done + [AddToCube(CubeAt(a, nb, r), lit)]
  {
    ghost var x := CubeAt(a, nb, r);
    if dst == buf1 {
      BaseMono(w + 1, r + 1, nb);
    }
    CubeAtAgree(buf1[..], a, nb, r);
    ghost var d0 := dst[..];
    PutCube(nb, dst, w, buf1, r, Blk(lit), tmp);
    assert x[Blk(lit) := tmp] == AddToCube(x, lit);
    CubesAppend(d0, nb, w, AddToCube(x, lit));
    SpliceIndex(d0, Base(w, nb), AddToCube(x, lit));
  }

  /** The copy of the corrected product(lit): every word of cube r, then word j replaced. */
  method PutCube(nb: nat, dst: array<Word>, w: nat, src: array<Word>, r: nat, j: nat, v: Word)
    requires Base(w, nb) + nb <= dst.Length && Base(r, nb) + nb <= src.Length && j < nb
    modifies dst
    ensures dst[..] == Splice(old(dst[..]), Base(w, nb), old(CubeAt(src[..], nb, r))[j := v])
  {
    ghost var d0 := dst[..];
    ghost var x := CubeAt(src[..], nb, r);
    CubeBuffer.CubeCopy(nb, dst, w, src, r);
    dst[Base(w, nb) + j] := v;
    SpliceUpdate(d0, Base(w, nb), x, j, v);
  }

  /** One pass of the loop of product(cover, lit), on the loop's own terms. */
  method LitNext(nb: nat, dst: array<Word>, w: nat, nc1: nat, buf1: array<Word>, r: nat, lit: L.AlgLiteral,
                 ghost a: seq<Word>)
    returns (w': nat)
    requires Blk(lit) < nb && Base(nc1, nb) <= |a| == buf1.Length && Base(nc1, nb) <= dst.Length
    requires w <= r < nc1 && Base(w, nb) <= dst.Length && Base(r, nb) <= |a|
    requires forall k :: Base(r, nb) <= k < |a| ==> buf1[k] == a[k]
    requires Uniform(Cubes(a, nb, 0, r), nb)
    requires Cubes(dst[..], nb, 0, w) == LitProducts(Cubes(a, nb, 0, r), nb, lit)
    modifies dst
    ensures w' <= r + 1 && Base(w', nb) <= dst.Length && Base(r + 1, nb) <= |a|
    ensures forall k :: Base(r + 1, nb) <= k < |a| ==> buf1[k] == a[k]
    ensures Uniform(Cubes(a, nb, 0, r + 1), nb)
    ensures Cubes(dst[..], nb, 0, w') == LitProducts(Cubes(a, nb, 0, r + 1), nb, lit)
  {
    BaseMono(r + 1, nc1, nb);
    BaseMono(w + 1, nc1, nb);
    CubesExtend(a, nb, 0, r);
    LitProductsSnoc(Cubes(a, nb, 0, r), nb, lit, CubeAt(a, nb, r));
    w' := ProductLitStep(nb, dst, w, buf1, r, lit, a, Cubes(dst[..], nb, 0, w));
  }

  /**
   * product(cover, lit) with the copy of each cube done word by word. The
   * destination may be the operand itself (the *= operator): the write
   * cursor never passes the read cursor.
   */
  method ProductLit(nb: nat, dst: array<Word>, nc1: nat, buf1: array<Word>, lit: L.AlgLiteral) returns (w: nat)
    requires Blk(lit) < nb && Base(nc1, nb) <= buf1.Length && Base(nc1, nb) <= dst.Length
    modifies dst
    ensures Uniform(old(Cubes(buf1[..], nb, 0, nc1)), nb)
    ensures w <= nc1 && Base(w, nb) <= dst.Length
    ensures Cubes(dst[..], nb, 0, w) == LitProducts(old(Cubes(buf1[..], nb, 0, nc1)), nb, lit)
  {
    ghost var a := buf1[..];
    CubesUniform(a, nb, 0, nc1);
    w := 0;
    assert Cubes(dst[..], nb, 0, 0) == [] && Cubes(a, nb, 0, 0) == [];
    for r := 0 to nc1
      invariant w <= r && Base(w, nb) <= dst.Length && Base(r, nb) <= |a|
      invariant forall k :: Base(r, nb) <= k < |a| ==> buf1[k] == a[k]
      invariant Uniform(Cubes(a, nb, 0, r), nb)
      invariant Cubes(dst[..], nb, 0, w) == LitProducts(Cubes(a, nb, 0, r), nb, lit)
    {
      w := LitNext(nb, dst, w, nc1, buf1, r, lit, a);
    }
  }

  // ---------------------------------------------------------------------
  // product(cover, lit) as written
  // ---------------------------------------------------------------------

  /**
   * The cube product(lit) writes over the destination cube q for the cube
   * x: the copy loop stores word 0 of x into word 0 nb times, then the
   * literal's word is stored; the other words of q stay.
   */
  function WrittenCube(q: Cube, x: Cube, l: L.AlgLiteral): (r: Cube)
    requires Blk(l) < |x| == |q|
    ensures |r| == |q|
  {
    q[0 := x[0]][Blk(l) := OrWord(x[Blk(l)], LitWord(l))]
  }

  /**
   * What product(lit) as written leaves in a destination apart from its
   * operand, whose cubes were d: the k-th kept cube overwrites d[k].
   */
  function WrittenProducts(d: Cover, s: Cover, nb: nat, l: L.AlgLiteral): (r: Cover)
    requires Uniform(d, nb) && Uniform(s, nb) && |s| <= |d| && Blk(l) < nb
    ensures |r| <= |s|
  {
    if |s| == 0 then []
    else
      var r0 := WrittenProducts(d, s[..|s| - 1], nb, l);
      var x := s[|s| - 1];
      if Clashes(x, l) then r0 else r0 + [WrittenCube(d[|r0|], x, l)]
  }

  lemma WrittenProductsSnoc(d: Cover, s: Cover, nb: nat, l: L.AlgLiteral, x: Cube)
    requires Uniform(d, nb) && Uniform(s, nb) && |s| < |d| && Blk(l) < nb && |x| == nb
    ensures Uniform(s + [x], nb)
    ensures WrittenProducts(d, s + [x], nb, l) ==
            WrittenProducts(d, s, nb, l) + if Clashes(x, l) then [] else [WrittenCube(d[|WrittenProducts(d, s, nb, l)|], x, l)]
  {
    assert (s + [x])[..|s|] == s;
  }

  /**
   * The copy of product(lit) as written: word 0 of cube r of buf1 is stored
   * nb times into word 0 of cube w, then tmp into the literal's word. The
   * destination may be buf1 itself.
   */
  method WrittenCopy(nb: nat, dst: array<Word>, w: nat, buf1: array<Word>, r: nat, lit: L.AlgLiteral, tmp: Word)
    requires Blk(lit) < nb && Base(w, nb) + nb <= dst.Length && Base(r, nb) + nb <= buf1.Length
    requires tmp == OrWord(CubeAt(buf1[..], nb, r)[Blk(lit)], LitWord(lit))
    modifies dst
    ensures dst[..] == Splice(old(dst[..]), Base(w, nb), WrittenCube(old(CubeAt(dst[..], nb, w)), old(CubeAt(buf1[..], nb, r)), lit))
  {
    ghost var x := CubeAt(buf1[..], nb, r);
    ghost var d0 := dst[..];
    ghost var q := CubeAt(d0, nb, w);
    var rb, wb, blk := Base(r, nb), Base(w, nb), BlockPos(L.VarId(lit));
    CubeAtIndex(buf1[..], nb, r, 0);
    ghost var x0 := buf1[rb];
    for i := 0 to nb
      invariant dst[..] == if i == 0 then d0 else d0[wb := x0]
      invariant buf1[rb] == x0
    {
      dst[wb] := buf1[rb];
    }
    dst[wb + blk] := tmp;
    SetWord(d0, nb, w, 0, x0);
    SpliceUpdate(d0, wb, q[0 := x[0]], blk, tmp);
  }

  /** One pass of product(lit) as written; the destination may be buf1 itself. */
  method WrittenLitStep(nb: nat, dst: array<Word>, w: nat, buf1: array<Word>, r: nat, lit: L.AlgLiteral)
    returns (w': nat)
    requires Blk(lit) < nb && Base(w, nb) + nb <= dst.Length && Base(r, nb) + nb <= buf1.Length
    modifies dst
    ensures if Clashes(old(CubeAt(buf1[..], nb, r)), lit) then w' == w && dst[..] == old(dst[..])
            else w' == w + 1 &&
                 dst[..] == Splice(old(dst[..]), Base(w, nb), WrittenCube(old(CubeAt(dst[..], nb, w)), old(CubeAt(buf1[..], nb, r)), lit))
  {
    var rb, blk := Base(r, nb), BlockPos(L.VarId(lit));
    CubeAtIndex(buf1[..], nb, r, blk);
    var tmp := OrWord(buf1[rb + blk], LitWord(lit));
    if MaskIn(tmp, VarMask(L.VarId(lit))) {
      return w;
    }
    WrittenCopy(nb, dst, w, buf1, r, lit, tmp);
    w' := w + 1;
  }

  /**
   * One pass of the loop of product(cover, lit) as written, on the loop's
   * own terms: b0 is what buf1 held when the loop began, and buf1 still
   * holds its cube r.
   */
  method WrittenNext(nb: nat, dst: array<Word>, w: nat, nc1: nat, buf1: array<Word>, r: nat, lit: L.AlgLiteral,
                     ghost d0: seq<Word>, ghost d: Cover, ghost b0: seq<Word>)
    returns (w': nat)
    requires Blk(lit) < nb && Base(nc1, nb) <= buf1.Length == |b0| && Base(nc1, nb) <= dst.Length == |d0|
    requires w <= r < nc1 && Base(w, nb) <= dst.Length && Base(r, nb) <= buf1.Length
    requires d == Cubes(d0, nb, 0, nc1) && Uniform(d, nb) && dst[Base(w, nb)..] == d0[Base(w, nb)..]
    requires Base(r, nb) + nb <= buf1.Length && CubeAt(buf1[..], nb, r) == CubeAt(b0, nb, r)
    requires Uniform(Cubes(b0, nb, 0, r), nb)
    requires Cubes(dst[..], nb, 0, w) == WrittenProducts(d, Cubes(b0, nb, 0, r), nb, lit)
    modifies dst
    ensures w' <= r + 1 && Base(w', nb) <= dst.Length && Base(r + 1, nb) <= buf1.Length
    ensures dst[Base(w', nb)..] == d0[Base(w', nb)..]
    ensures Uniform(Cubes(b0, nb, 0, r + 1), nb)
    ensures Cubes(dst[..], nb, 0, w') == WrittenProducts(d, Cubes(b0, nb, 0, r + 1), nb, lit)
  {
    BaseMono(r + 1, nc1, nb);
    BaseMono(w + 1, nc1, nb);
    ghost var e := dst[..];
    w' := WrittenLitStep(nb, dst, w, buf1, r, lit);
    WrittenAdvance(e, dst[..], b0, d0, d, nb, w, w', nc1, r, lit);
  }

  /** Sequences that agree from p on agree from any later q on. */
  lemma SuffixFrom(a: seq<Word>, b: seq<Word>, p: nat, q: nat)
    requires p <= q <= |a| == |b| && a[p..] == b[p..]
    ensures a[q..] == b[q..]
  {
    assert a[q..] == a[p..][q - p..] && b[q..] == b[p..][q - p..];
  }

  /**
   * After one pass buf1 still holds its original words from cube r + 1 on:
   * either it is the destination, written only below cube r + 1, or it is
   * a separate buffer the pass did not touch.
   */
  lemma BufferAfterPass(h: seq<Word>, f: seq<Word>, g: seq<Word>, d0: seq<Word>, b0: seq<Word>,
                        nb: nat, w: nat, r: nat, alias: bool)
    requires Base(w, nb) <= Base(r + 1, nb) <= |f| == |d0| && Base(r + 1, nb) <= |g| == |b0|
    requires f[Base(w, nb)..] == d0[Base(w, nb)..] && g[Base(r + 1, nb)..] == b0[Base(r + 1, nb)..]
    requires alias ==> h == f && d0 == b0
    requires !alias ==> h == g
    ensures Base(r + 1, nb) <= |h| && h[Base(r + 1, nb)..] == b0[Base(r + 1, nb)..]
  {
    if alias {
      SuffixFrom(f, d0, Base(w, nb), Base(r + 1, nb));
    }
  }

  /** The loop invariant of product(lit) as written carries over one pass, on buffer values. */
  lemma WrittenAdvance(e: seq<Word>, f: seq<Word>, a: seq<Word>, d0: seq<Word>, d: Cover,
                       nb: nat, w: nat, w': nat, nc1: nat, r: nat, lit: L.AlgLiteral)
    requires Blk(lit) < nb && Base(nc1, nb) <= |a| && Base(nc1, nb) <= |e| == |d0|
    requires w <= r < nc1 && Base(w, nb) + nb <= |e| && Base(r, nb) + nb <= |a|
    requires d == Cubes(d0, nb, 0, nc1) && Uniform(d, nb)
    requires e[Base(w, nb)..] == d0[Base(w, nb)..]
    requires Uniform(Cubes(a, nb, 0, r), nb)
    requires Cubes(e, nb, 0, w) == WrittenProducts(d, Cubes(a, nb, 0, r), nb, lit)
    requires if Clashes(CubeAt(a, nb, r), lit) then w' == w && f == e
             else w' == w + 1 && f == Splice(e, Base(w, nb), WrittenCube(CubeAt(e, nb, w), CubeAt(a, nb, r), lit))
    ensures Base(w', nb) <= |f| && Base(r + 1, nb) <= |a|
    ensures f[Base(w', nb)..] == d0[Base(w', nb)..]
    ensures Uniform(Cubes(a, nb, 0, r + 1), nb)
    ensures Cubes(f, nb, 0, w') == WrittenProducts(d, Cubes(a, nb, 0, r + 1), nb, lit)
  {
    CubesExtend(a, nb, 0, r);
    WrittenProductsSnoc(d, Cubes(a, nb, 0, r), nb, lit, CubeAt(a, nb, r));
    CubesAt(d0, nb, 0, nc1, w);
    CubeAtSuffix(e, d0, nb, w);
    if w' == w + 1 {
      WrittenKept(e, d0, nb, w, WrittenCube(CubeAt(e, nb, w), CubeAt(a, nb, r), lit));
    }
  }

  /** A cube written as cube w keeps the original words past it and extends the written range. */
  lemma WrittenKept(e: seq<Word>, d0: seq<Word>, nb: nat, w: nat, c: Cube)
    requires Base(w, nb) + nb <= |e| == |d0| && |c| == nb
    requires e[Base(w, nb)..] == d0[Base(w, nb)..]
    ensures Splice(e, Base(w, nb), c)[Base(w + 1, nb)..] == d0[Base(w + 1, nb)..]
    ensures Cubes(Splice(e, Base(w, nb), c), nb, 0, w + 1) == Cubes(e, nb, 0, w) + [c]
  {
    CubesAppend(e, nb, w, c);
    var b := Base(w, nb);
    assert e[b + nb..] == e[b..][nb..] == d0[b..][nb..] == d0[b + nb..];
  }

  /** Buffers that agree from cube c on hold the same cube c. */
  lemma CubeAtSuffix(a: seq<Word>, b: seq<Word>, nb: nat, c: nat)
    requires Base(c, nb) + nb <= |a| == |b| && a[Base(c, nb)..] == b[Base(c, nb)..]
    ensures CubeAt(a, nb, c) == CubeAt(b, nb, c)
  {
    var p := Base(c, nb);
    assert CubeAt(a, nb, c) == a[p..][..nb] && CubeAt(b, nb, c) == b[p..][..nb];
  }

  /**
   * product(cover, lit) exactly as written. The destination may be the
   * operand, as in operator*=(AlgLiteral): cube w is written only once
   * cube r >= w has been read.
   */
  method ProductLitAsWritten(nb: nat, dst: array<Word>, nc1: nat, buf1: array<Word>, lit: L.AlgLiteral)
    returns (w: nat)
    requires Blk(lit) < nb && Base(nc1, nb) <= buf1.Length && Base(nc1, nb) <= dst.Length
    modifies dst
    ensures Uniform(old(Cubes(dst[..], nb, 0, nc1)), nb) && Uniform(old(Cubes(buf1[..], nb, 0, nc1)), nb)
    ensures w <= nc1 && Base(w, nb) <= dst.Length
    ensures Cubes(dst[..], nb, 0, w) ==
            WrittenProducts(old(Cubes(dst[..], nb, 0, nc1)), old(Cubes(buf1[..], nb, 0, nc1)), nb, lit)
  {
    ghost var d0 := dst[..];
    ghost var b0 := buf1[..];
    ghost var d := Cubes(d0, nb, 0, nc1);
    CubesUniform(b0, nb, 0, nc1);
    CubesUniform(d0, nb, 0, nc1);
    w := 0;
    assert Cubes(dst[..], nb, 0, 0) == [] && Cubes(b0, nb, 0, 0) == [];
    for r := 0 to nc1
      invariant w <= r && Base(w, nb) <= dst.Length && Base(r, nb) <= buf1.Length
      invariant dst[Base(w, nb)..] == d0[Base(w, nb)..] && buf1[Base(r, nb)..] == b0[Base(r, nb)..]
      invariant Uniform(Cubes(b0, nb, 0, r), nb)
      invariant Cubes(dst[..], nb, 0, w) == WrittenProducts(d, Cubes(b0, nb, 0, r), nb, lit)
    {
      w := WrittenRound(nb, dst, w, nc1, buf1, r, lit, d0, d, b0);
    }
  }

  /**
   * One pass of the loop of product(lit) as written, with the invariant
   * that the unwritten part of dst and the unread part of buf1 are as they
   * started, also when they are one array.
   */
  method WrittenRound(nb: nat, dst: array<Word>, w: nat, nc1: nat, buf1: array<Word>, r: nat, lit: L.AlgLiteral,
                      ghost d0: seq<Word>, ghost d: Cover, ghost b0: seq<Word>)
    returns (w': nat)
    requires Blk(lit) < nb && Base(nc1, nb) <= buf1.Length == |b0| && Base(nc1, nb) <= dst.Length == |d0|
    requires w <= r < nc1 && Base(w, nb) <= dst.Length && Base(r, nb) <= buf1.Length
    requires dst[Base(w, nb)..] == d0[Base(w, nb)..] && buf1[Base(r, nb)..] == b0[Base(r, nb)..]
    requires dst == buf1 ==> d0 == b0
    requires d == Cubes(d0, nb, 0, nc1) && Uniform(d, nb) && Uniform(Cubes(b0, nb, 0, r), nb)
    requires Cubes(dst[..], nb, 0, w) == WrittenProducts(d, Cubes(b0, nb, 0, r), nb, lit)
    modifies dst
    ensures w' <= r + 1 && Base(w', nb) <= dst.Length && Base(r + 1, nb) <= buf1.Length
    ensures dst[Base(w', nb)..] == d0[Base(w', nb)..] && buf1[Base(r + 1, nb)..] == b0[Base(r + 1, nb)..]
    ensures Uniform(Cubes(b0, nb, 0, r + 1), nb)
    ensures Cubes(dst[..], nb, 0, w') == WrittenProducts(d, Cubes(b0, nb, 0, r + 1), nb, lit)
  {
    CubeInside(r, nc1, nb);
    CubeAtSuffix(buf1[..], b0, nb, r);
    ghost var g := buf1[..];
    SuffixFrom(g, b0, Base(r, nb), Base(r + 1, nb));
    w' := WrittenNext(nb, dst, w, nc1, buf1, r, lit, d0, d, b0);
    BaseMono(w', r + 1, nb);
    BufferAfterPass(buf1[..], dst[..], g, d0, b0, nb, w', r, dst == buf1);
  }

  /** With one word per cube the copy as written is what is meant. */
  lemma {:induction false} WrittenProductsOneWord(d: Cover, s: Cover, l: L.AlgLiteral)
    requires Uniform(d, 1) && Uniform(s, 1) && |s| <= |d| && Blk(l) < 1
    ensures WrittenProducts(d, s, 1, l) == LitProducts(s, 1, l)
  {
    if |s| > 0 {
      WrittenProductsOneWord(d, s[..|s| - 1], l);
      var x := s[|s| - 1];
      var r0 := WrittenProducts(d, s[..|s| - 1], 1, l);
      if !Clashes(x, l) {
        assert WrittenCube(d[|r0|], x, l) == AddToCube(x, l);
      }
    }
  }

  /**
   * With two words per cube the copy as written loses word 1: the product
   * of the cube [0, 1] (the negative literal of variable 63) with the
   * positive literal of variable 0, written over a zero destination cube,
   * has word 1 zero, where the product holds the literal of variable 63.
   */
  lemma ProductLitLosesWords()
    ensures var l := L.Make(0, false);
            var s: Cover := [[0, 1]];
            Blk(l) == 0 &&
            WrittenProducts([[0, 0]], s, 2, l) == [[LitWord(l), 0]] &&
            LitProducts(s, 2, l) == [[LitWord(l), 1]]
  {
    var l := L.Make(0, false);
    var s: Cover := [[0, 1]];
    assert Blk(l) == 0;
    assert L.VarId(l) == 0 && FieldIdx(0) == 31;
    assert LitWord(l) == 0x8000_0000_0000_0000;
    assert VarMask(0) == 0xC000_0000_0000_0000;
    assert OrWord(0, LitWord(l)) == LitWord(l);
    assert !Clashes([0, 1], l);
    assert s[..0] == [] && s[0] == [0, 1];
    assert WrittenProducts([[0, 0]], [], 2, l) == [] && LitProducts([], 2, l) == [];
    assert WrittenCube([0, 0], [0, 1], l) == [LitWord(l), 0];
    assert AddToCube([0, 1], l) == [LitWord(l), 1];
  }
}
