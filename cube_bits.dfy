/**
 * The positional-cube encoding shared by the algebraic manager and its
 * wrappers (include/ym/AlgMgr.h, include/ym/bfo_nsdef.h).
 *
 * A variable takes two bits of a 64-bit word: 00 absent (X), 01 negative
 * literal (N), 10 positive literal (P); 11 is a conflict and never part of a
 * well-formed cube. Variable v sits in word v / 32 of its cube, in field
 * 31 - v % 32 counted from the least significant end, so that variable 0
 * occupies the two most significant bits of word 0.
 */
module CubeBits {

  type Word = bv64

  /** AlgPol: the value of one field. */
  datatype AlgPol = PolX | PolN | PolP

  function PolCode(p: AlgPol): (r: Word)
    ensures r < 3
    ensures (r == 0) == (p == PolX)
  {
    match p
    case PolX => 0
    case PolN => 1
    case PolP => 2
  }

  /** Field k (counted from the least significant end) of a word. */
  function Field(w: Word, k: bv7): (r: Word)
    requires k < 32
    ensures r <= 3
  {
    (w >> (2 * k)) & 3
  }

  // ---------------------------------------------------------------------
  // Variable positions
  // ---------------------------------------------------------------------

  /** _block_pos: the word of a cube that holds variable v. */
  function BlockPos(v: nat): nat
  {
    v / 32
  }

  /** _shift_num: how far the field of variable v is shifted in its word. */
  function ShiftNum(v: nat): (r: nat)
    ensures r % 2 == 0 && r <= 62
    ensures v % 32 == 0 <==> r == 62
  {
    (31 - v % 32) * 2
  }

  /** The field index of variable v inside its word. */
  function FieldIdx(v: nat): (k: bv7)
    ensures k < 32
  {
    IdxFromValue(v % 32);
    IdxFrom(v % 32)
  }

  /** 31 - r as a field index, counted down without a conversion. */
  function IdxFrom(r: nat): bv7
    requires r < 32
  {
    if r == 0 then 31 else IdxFrom(r - 1) - 1
  }

  lemma {:induction false} IdxFromValue(r: nat)
    requires r < 32
    ensures IdxFrom(r) as int == 31 - r
  {
    if r > 0 {
      IdxFromValue(r - 1);
    }
  }

  /** The shift amount of variable v as it is applied to a word. */
  function Shift(v: nat): (s: bv7)
    ensures s <= 62
  {
    2 * FieldIdx(v)
  }

  /** The shift applied to a word is the one _shift_num computes. */
  lemma ShiftIsShiftNum(v: nat)
    ensures Shift(v) as nat == ShiftNum(v)
  {
    IdxFromValue(v % 32);
  }

  /**
   * _cube_size: the number of words per cube, the least number of 32-field
   * words that holds every variable.
   */
  function CubeSize(varNum: nat): (nb: nat)
    ensures nb * 32 >= varNum
    ensures nb == 0 || (nb - 1) * 32 < varNum
  {
    (varNum + 31) / 32
  }

  /** Every variable of the manager has its word inside the cube. */
  lemma BlockInCube(varNum: nat, v: nat)
    requires v < varNum
    ensures BlockPos(v) < CubeSize(varNum)
  {
  }

  /** The cube of v + 1 variables still fits in the cube of varNum variables, and holds v's word. */
  lemma CubeSizeStep(varNum: nat, v: nat)
    requires v < varNum
    ensures BlockPos(v) < CubeSize(v + 1) <= CubeSize(varNum)
  {
  }

  /** The field of variable v in word w; this is what literal() extracts. */
  function VarField(w: Word, v: nat): (r: Word)
    ensures r <= 3
  {
    (w >> Shift(v)) & 3
  }

  lemma VarFieldIsField(w: Word, v: nat)
    ensures VarField(w, v) == Field(w, FieldIdx(v))
  {
  }

  /** The pattern of polarity p placed in the field of variable v. */
  function PolMask(p: AlgPol, v: nat): Word
  {
    PolCode(p) << Shift(v)
  }

  /** The mask with both bits of the field of variable v set. */
  function VarMask(v: nat): Word
  {
    3 << Shift(v)
  }

  /** A polarity placed in the field of v reads back from that field. */
  lemma PolMaskField(p: AlgPol, v: nat)
    ensures VarField(PolMask(p, v), v) == PolCode(p)
    ensures PolMask(p, v) & VarMask(v) == PolMask(p, v)
  {
  }

  /** Fields that hold different indexes are untouched by a mask of v. */
  lemma MaskOtherFields(p: AlgPol, v: nat, k: bv7)
    requires k < 32 && k != FieldIdx(v)
    ensures Field(PolMask(p, v), k) == 0 && Field(VarMask(v), k) == 0
  {
  }

  // ---------------------------------------------------------------------
  // Words as 32 fields
  // ---------------------------------------------------------------------

  /** A word is zero exactly when all of its fields are 00. */
  lemma ZeroIffFieldsZero(w: Word)
    ensures w == 0 <==> forall k: bv7 :: k < 32 ==> Field(w, k) == 0
  {
    if forall k: bv7 :: k < 32 ==> Field(w, k) == 0 {
      assert Field(w, 0) == 0;
      assert Field(w, 1) == 0;
      assert Field(w, 2) == 0;
      assert Field(w, 3) == 0;
      assert Field(w, 4) == 0;
      assert Field(w, 5) == 0;
      assert Field(w, 6) == 0;
      assert Field(w, 7) == 0;
      assert Field(w, 8) == 0;
      assert Field(w, 9) == 0;
      assert Field(w, 10) == 0;
      assert Field(w, 11) == 0;
      assert Field(w, 12) == 0;
      assert Field(w, 13) == 0;
      assert Field(w, 14) == 0;
      assert Field(w, 15) == 0;
      assert Field(w, 16) == 0;
      assert Field(w, 17) == 0;
      assert Field(w, 18) == 0;
      assert Field(w, 19) == 0;
      assert Field(w, 20) == 0;
      assert Field(w, 21) == 0;
      assert Field(w, 22) == 0;
      assert Field(w, 23) == 0;
      assert Field(w, 24) == 0;
      assert Field(w, 25) == 0;
      assert Field(w, 26) == 0;
      assert Field(w, 27) == 0;
      assert Field(w, 28) == 0;
      assert Field(w, 29) == 0;
      assert Field(w, 30) == 0;
      assert Field(w, 31) == 0;
    }
  }

  /** Two words are equal exactly when they agree field by field. */
  lemma EqualIffFieldsEqual(a: Word, b: Word)
    ensures a == b <==> forall k: bv7 :: k < 32 ==> Field(a, k) == Field(b, k)
  {
    ZeroIffFieldsZero(a ^ b);
    forall k: bv7 | k < 32
      ensures Field(a ^ b, k) == 0 <==> Field(a, k) == Field(b, k)
    {
      FieldXor(a, b, k);
    }
  }

  lemma FieldXor(a: Word, b: Word, k: bv7)
    requires k < 32
    ensures Field(a ^ b, k) == Field(a, k) ^ Field(b, k)
  {
  }

  lemma FieldOr(a: Word, b: Word, k: bv7)
    requires k < 32
    ensures Field(a | b, k) == Field(a, k) | Field(b, k)
  {
  }

  lemma FieldAnd(a: Word, b: Word, k: bv7)
    requires k < 32
    ensures Field(a & b, k) == Field(a, k) & Field(b, k)
  {
  }

  /** The fields of b with the fields of a taken away. */
  lemma FieldAndNot(a: Word, b: Word, k: bv7)
    requires k < 32
    ensures Field(!a & b, k) == (3 ^ Field(a, k)) & Field(b, k)
  {
  }

  /** The bits the product test raises: one per field that reads 11. */
  function ConflictBits(w: Word): Word
  {
    (w & 0x5555_5555_5555_5555) & ((w & 0xAAAA_AAAA_AAAA_AAAA) >> 1)
  }

  /** A word whose conflict bits are clear. */
  predicate ConflictFree(w: Word)
  {
    ConflictBits(w) == 0
  }

  lemma ConflictBitsField(w: Word, k: bv7)
    requires k < 32
    ensures Field(ConflictBits(w), k) == if Field(w, k) == 3 then 1 else 0
  {
  }

  /**
   * A word without 11 fields, stated field by field; the mask test of
   * cube_check_product decides it (ConflictFreeIff).
   */
  ghost predicate NoConflict(w: Word)
  {
    forall k: bv7 :: k < 32 ==> Field(w, k) != 3
  }

  /** The mask test of cube_check_product finds exactly the 11 fields. */
  lemma ConflictFreeIff(w: Word)
    ensures ConflictFree(w) <==> NoConflict(w)
  {
    ZeroIffFieldsZero(ConflictBits(w));
    forall k: bv7 | k < 32
      ensures Field(ConflictBits(w), k) == 0 <==> Field(w, k) != 3
    {
      ConflictBitsField(w, k);
    }
  }

  /**
   * The containment test ~b & a == 0: every set bit of a is set in b, which
   * on conflict-free words means every literal of a is a literal of b.
   */
  predicate WordCovers(b: Word, a: Word)
  {
    !b & a == 0
  }

  /** Every literal field of a is the same field of b. */
  ghost predicate FieldsWithin(a: Word, b: Word)
  {
    forall k: bv7 :: k < 32 ==> Field(a, k) == 0 || Field(a, k) == Field(b, k)
  }

  lemma WordCoversIff(b: Word, a: Word)
    requires NoConflict(b)
    ensures WordCovers(b, a) <==> FieldsWithin(a, b)
  {
    var c := !b & a;
    ZeroIffFieldsZero(c);
    forall k: bv7 | k < 32
      ensures Field(c, k) == 0 <==> Field(a, k) == 0 || Field(a, k) == Field(b, k)
    {
      CoverField(b, a, k);
    }
  }

  lemma CoverField(b: Word, a: Word, k: bv7)
    requires k < 32 && Field(b, k) != 3
    ensures Field(!b & a, k) == 0 <==> Field(a, k) == 0 || Field(a, k) == Field(b, k)
  {
    FieldAndNot(b, a, k);
    FieldSubset(Field(b, k), Field(a, k));
  }

  /** Containment of one field value in another that is not 11. */
  lemma FieldSubset(fb: Word, fa: Word)
    requires fa <= 3 && fb < 3
    ensures (3 ^ fb) & fa == 0 <==> fa == 0 || fa == fb
  {
  }

  /** The intersection test: some field carries a common bit. */
  lemma WordIntersectIff(a: Word, b: Word)
    ensures a & b != 0 <==> exists k: bv7 :: k < 32 && Field(a, k) & Field(b, k) != 0
  {
    ZeroIffFieldsZero(a & b);
    forall k: bv7 | k < 32
      ensures Field(a & b, k) == Field(a, k) & Field(b, k)
    {
      FieldAnd(a, b, k);
    }
  }
}
