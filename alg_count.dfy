/**
 * The literal-count table _count (c++-srcs/AlgMgr.cc:84-108 and the same
 * table in src/AlgMgr.cc), which literal_num indexes with each byte of a
 * word: the proof that it holds the values count of utils/gen_table.py
 * computes, and that the eight lookups of a word add up to the number of
 * literal fields of the word when it has no conflict field.
 */
module AlgCount {
  import opened GenTable
  import B = CubeBits

  /** The sixteen rows of the table as written in the source. */
  const CountRows: seq<seq<nat>> := [
    [0, 1, 1, 0, 1, 2, 2, 0, 1, 2, 2, 0, 0, 0, 0, 0],
    [1, 2, 2, 0, 2, 3, 3, 0, 2, 3, 3, 0, 0, 0, 0, 0],
    [1, 2, 2, 0, 2, 3, 3, 0, 2, 3, 3, 0, 0, 0, 0, 0],
    [0, 0, 0, 0, 0, 0, 0, 0, 0, 0, 0, 0, 0, 0, 0, 0],
    [1, 2, 2, 0, 2, 3, 3, 0, 2, 3, 3, 0, 0, 0, 0, 0],
    [2, 3, 3, 0, 3, 4, 4, 0, 3, 4, 4, 0, 0, 0, 0, 0],
    [2, 3, 3, 0, 3, 4, 4, 0, 3, 4, 4, 0, 0, 0, 0, 0],
    [0, 0, 0, 0, 0, 0, 0, 0, 0, 0, 0, 0, 0, 0, 0, 0],
    [1, 2, 2, 0, 2, 3, 3, 0, 2, 3, 3, 0, 0, 0, 0, 0],
    [2, 3, 3, 0, 3, 4, 4, 0, 3, 4, 4, 0, 0, 0, 0, 0],
    [2, 3, 3, 0, 3, 4, 4, 0, 3, 4, 4, 0, 0, 0, 0, 0],
    [0, 0, 0, 0, 0, 0, 0, 0, 0, 0, 0, 0, 0, 0, 0, 0],
    [0, 0, 0, 0, 0, 0, 0, 0, 0, 0, 0, 0, 0, 0, 0, 0],
    [0, 0, 0, 0, 0, 0, 0, 0, 0, 0, 0, 0, 0, 0, 0, 0],
    [0, 0, 0, 0, 0, 0, 0, 0, 0, 0, 0, 0, 0, 0, 0, 0],
    [0, 0, 0, 0, 0, 0, 0, 0, 0, 0, 0, 0, 0, 0, 0, 0]
  ]

  /** _count(pat): the entry for the byte pat. */
  function CountOf(pat: nat): (r: nat)
    requires pat < 256
    ensures r == Classify(pat) && r <= 4
  {
    TableIsGenerated(pat / 16, pat % 16);
    CountRows[pat / 16][pat % 16]
  }


  /** Entry x of row y is count(16 * y + x). */
  lemma TableIsGenerated(y: nat, x: nat)
    requires y < 16 && x < 16
    ensures |CountRows| == 16 && |CountRows[y]| == 16
    ensures CountRows[y][x] == Classify(16 * y + x)
  {
    RowIsFormula(y);
    ClassifyFormula(y, x);
  }

  /** Whether a field value is a literal, as 0 or 1. */
  function LitOne(f: nat): nat
  {
    if f == 1 || f == 2 then 1 else 0
  }

  /** count on the four fields of a byte, written out. */
  function ByteFormula(f0: nat, f1: nat, f2: nat, f3: nat): nat
  {
    if f0 == 3 || f1 == 3 || f2 == 3 || f3 == 3 then 0
    else LitOne(f0) + LitOne(f1) + LitOne(f2) + LitOne(f3)
  }

  /** The fields of 16 * y + x are the two fields of x and the two of y. */
  lemma ClassifyFormula(y: nat, x: nat)
    requires y < 16 && x < 16
    ensures Classify(16 * y + x) == ByteFormula(x % 4, x / 4, y % 4, y / 4)
  {
    var p := 16 * y + x;
    FieldsOfByte(y, x);
    assert ConflictBelow(p, 1) == (Field(p, 0) == 3);
    assert ConflictBelow(p, 2) == (ConflictBelow(p, 1) || Field(p, 1) == 3);
    assert ConflictBelow(p, 3) == (ConflictBelow(p, 2) || Field(p, 2) == 3);
    assert ConflictBelow(p, 4) == (ConflictBelow(p, 3) || Field(p, 3) == 3);
    assert LiteralFields(p, 1) == LitOne(Field(p, 0));
    assert LiteralFields(p, 2) == LiteralFields(p, 1) + LitOne(Field(p, 1));
    assert LiteralFields(p, 3) == LiteralFields(p, 2) + LitOne(Field(p, 2));
    assert LiteralFields(p, 4) == LiteralFields(p, 3) + LitOne(Field(p, 3));
  }

  lemma FieldsOfByte(y: nat, x: nat)
    requires y < 16 && x < 16
    ensures Field(16 * y + x, 0) == x % 4 && Field(16 * y + x, 1) == x / 4
    ensures Field(16 * y + x, 2) == y % 4 && Field(16 * y + x, 3) == y / 4
  {
    assert Pow4(1) == 4 && Pow4(2) == 16 && Pow4(3) == 64;
  }

  lemma RowIsFormula(y: nat)
    requires y < 16
    ensures |CountRows| == 16 && |CountRows[y]| == 16
    ensures forall x :: 0 <= x < 16 ==> CountRows[y][x] == ByteFormula(x % 4, x / 4, y % 4, y / 4)
  {
    if y == 0 {
      Row0();
    } else if y == 1 {
      Row1();
    } else if y == 2 {
      Row2();
    } else if y == 3 {
      Row3();
    } else if y == 4 {
      Row4();
    } else if y == 5 {
      Row5();
    } else if y == 6 {
      Row6();
    } else if y == 7 {
      Row7();
    } else if y == 8 {
      Row8();
    } else if y == 9 {
      Row9();
    } else if y == 10 {
      Row10();
    } else if y == 11 {
      Row11();
    } else if y == 12 {
      Row12();
    } else if y == 13 {
      Row13();
    } else if y == 14 {
      Row14();
    } else {
      Row15();
    }
  }

  lemma Row0()
    ensures |CountRows| == 16 && |CountRows[0]| == 16
    ensures forall x :: 0 <= x < 16 ==> CountRows[0][x] == ByteFormula(x % 4, x / 4, 0, 0)
  {
  }

  lemma Row1()
    ensures |CountRows| == 16 && |CountRows[1]| == 16
    ensures forall x :: 0 <= x < 16 ==> CountRows[1][x] == ByteFormula(x % 4, x / 4, 1, 0)
  {
  }

  lemma Row2()
    ensures |CountRows| == 16 && |CountRows[2]| == 16
    ensures forall x :: 0 <= x < 16 ==> CountRows[2][x] == ByteFormula(x % 4, x / 4, 2, 0)
  {
  }

  lemma Row3()
    ensures |CountRows| == 16 && |CountRows[3]| == 16
    ensures forall x :: 0 <= x < 16 ==> CountRows[3][x] == ByteFormula(x % 4, x / 4, 3, 0)
  {
  }

  lemma Row4()
    ensures |CountRows| == 16 && |CountRows[4]| == 16
    ensures forall x :: 0 <= x < 16 ==> CountRows[4][x] == ByteFormula(x % 4, x / 4, 0, 1)
  {
  }

  lemma Row5()
    ensures |CountRows| == 16 && |CountRows[5]| == 16
    ensures forall x :: 0 <= x < 16 ==> CountRows[5][x] == ByteFormula(x % 4, x / 4, 1, 1)
  {
  }

  lemma Row6()
    ensures |CountRows| == 16 && |CountRows[6]| == 16
    ensures forall x :: 0 <= x < 16 ==> CountRows[6][x] == ByteFormula(x % 4, x / 4, 2, 1)
  {
  }

  lemma Row7()
    ensures |CountRows| == 16 && |CountRows[7]| == 16
    ensures forall x :: 0 <= x < 16 ==> CountRows[7][x] == ByteFormula(x % 4, x / 4, 3, 1)
  {
  }

  lemma Row8()
    ensures |CountRows| == 16 && |CountRows[8]| == 16
    ensures forall x :: 0 <= x < 16 ==> CountRows[8][x] == ByteFormula(x % 4, x / 4, 0, 2)
  {
  }

  lemma Row9()
    ensures |CountRows| == 16 && |CountRows[9]| == 16
    ensures forall x :: 0 <= x < 16 ==> CountRows[9][x] == ByteFormula(x % 4, x / 4, 1, 2)
  {
  }

  lemma Row10()
    ensures |CountRows| == 16 && |CountRows[10]| == 16
    ensures forall x :: 0 <= x < 16 ==> CountRows[10][x] == ByteFormula(x % 4, x / 4, 2, 2)
  {
  }

  lemma Row11()
    ensures |CountRows| == 16 && |CountRows[11]| == 16
    ensures forall x :: 0 <= x < 16 ==> CountRows[11][x] == ByteFormula(x % 4, x / 4, 3, 2)
  {
  }

  lemma Row12()
    ensures |CountRows| == 16 && |CountRows[12]| == 16
    ensures forall x :: 0 <= x < 16 ==> CountRows[12][x] == ByteFormula(x % 4, x / 4, 0, 3)
  {
  }

  lemma Row13()
    ensures |CountRows| == 16 && |CountRows[13]| == 16
    ensures forall x :: 0 <= x < 16 ==> CountRows[13][x] == ByteFormula(x % 4, x / 4, 1, 3)
  {
  }

  lemma Row14()
    ensures |CountRows| == 16 && |CountRows[14]| == 16
    ensures forall x :: 0 <= x < 16 ==> CountRows[14][x] == ByteFormula(x % 4, x / 4, 2, 3)
  {
  }

  lemma Row15()
    ensures |CountRows| == 16 && |CountRows[15]| == 16
    ensures forall x :: 0 <= x < 16 ==> CountRows[15][x] == ByteFormula(x % 4, x / 4, 3, 3)
  {
  }

  // ---------------------------------------------------------------------
  // The table applied to the bytes of a word
  // ---------------------------------------------------------------------

  /** Byte j of a word: (pat >> 8j) & 0xFF. */
  function ByteOf(w: B.Word, j: bv7): bv8
    requires j < 8
  {
    ((w >> (8 * j)) & 0xFF) as bv8
  }

  /** _count of byte j of w. */
  function ByteCount(w: B.Word, j: bv7): (r: nat)
    requires j < 8
    ensures r <= 4
  {
    CountOf(ByteOf(w, j) as nat)
  }

  /** The eight lookups literal_num adds up for one word. */
  function WordCount(w: B.Word): nat
  {
    ByteCount(w, 0) + ByteCount(w, 1) + ByteCount(w, 2) + ByteCount(w, 3) +
    ByteCount(w, 4) + ByteCount(w, 5) + ByteCount(w, 6) + ByteCount(w, 7)
  }

  /** A field holding a literal. */
  predicate IsLitField(f: B.Word)
  {
    f == 1 || f == 2
  }

  /** The number of literal fields among fields 0 .. k-1 of w. */
  function LitFieldsBelow(w: B.Word, k: bv7): (r: nat)
    requires k <= 32
    ensures r <= k as nat
    decreases k as nat
  {
    if k == 0 then 0
    else LitFieldsBelow(w, k - 1) + (if IsLitField(B.Field(w, k - 1)) then 1 else 0)
  }

  /** The fields of a byte are four consecutive fields of the word. */
  lemma ByteFields(w: B.Word, j: bv7, i: bv7)
    requires j < 8 && i < 4
    ensures (ByteOf(w, j) >> (2 * i as bv8)) & 3 == B.Field(w, 4 * j + i) as bv8
  {
  }

  lemma NibbleSplit(b: bv8)
    ensures b as nat == 16 * ((b >> 4) as nat) + (b & 15) as nat
  {
  }

  lemma NibbleFields(n: bv8)
    requires n < 16
    ensures (n as nat) % 4 == (n & 3) as nat && (n as nat) / 4 == (n >> 2) as nat
  {
  }

  lemma NibbleOfByte(b: bv8)
    ensures (b & 15) & 3 == b & 3 && (b & 15) >> 2 == (b >> 2) & 3
    ensures (b >> 4) & 3 == (b >> 4) & 3 && (b >> 4) >> 2 == b >> 6
  {
  }

  /** The table entry of a byte, from its four fields. */
  lemma CountOfByte(b: bv8)
    ensures CountOf(b as nat) == ByteFormula((b & 3) as nat, ((b >> 2) & 3) as nat, ((b >> 4) & 3) as nat, (b >> 6) as nat)
  {
    var y, x := b >> 4, b & 15;
    NibbleSplit(b);
    NibbleFields(x);
    NibbleFields(y);
    NibbleOfByte(b);
    TableIsGenerated(y as nat, x as nat);
    RowIsFormula(y as nat);
  }

  /** A two-bit field keeps its value through the narrowing to a byte. */
  lemma SmallField(f: B.Word)
    requires f <= 3
    ensures LitOne((f as bv8) as nat) == if IsLitField(f) then 1 else 0
    ensures ((f as bv8) as nat == 3) == (f == 3)
  {
  }

  /** The same four fields of a byte, read field by field. */
  lemma ByteFieldsNat(w: B.Word, j: bv7)
    requires j < 8
    ensures var b := ByteOf(w, j);
      (b & 3) as nat == (B.Field(w, 4 * j) as bv8) as nat &&
      ((b >> 2) & 3) as nat == (B.Field(w, 4 * j + 1) as bv8) as nat &&
      ((b >> 4) & 3) as nat == (B.Field(w, 4 * j + 2) as bv8) as nat &&
      (b >> 6) as nat == (B.Field(w, 4 * j + 3) as bv8) as nat
  {
    ByteFields(w, j, 0);
    ByteFields(w, j, 1);
    ByteFields(w, j, 2);
    ByteFields(w, j, 3);
    assert (ByteOf(w, j) >> 6) & 3 == ByteOf(w, j) >> 6;
  }

  /** A field read as a number. */
  function FieldNat(w: B.Word, k: bv7): (r: nat)
    requires k < 32
    ensures r <= 3
  {
    (B.Field(w, k) as bv8) as nat
  }

  /** The table entry of byte j from the four word fields it holds. */
  lemma ByteCountFormula(w: B.Word, j: bv7)
    requires j < 8
    ensures ByteCount(w, j) == ByteFormula(FieldNat(w, 4 * j), FieldNat(w, 4 * j + 1),
                                           FieldNat(w, 4 * j + 2), FieldNat(w, 4 * j + 3))
  {
    CountOfByte(ByteOf(w, j));
    ByteFieldsNat(w, j);
  }

  /** Literal fields counted in steps of four. */
  lemma LitFieldsQuad(w: B.Word, j: bv7)
    requires j < 8
    ensures LitFieldsBelow(w, 4 * j + 4) == LitFieldsBelow(w, 4 * j) +
      LitOne(FieldNat(w, 4 * j)) + LitOne(FieldNat(w, 4 * j + 1)) +
      LitOne(FieldNat(w, 4 * j + 2)) + LitOne(FieldNat(w, 4 * j + 3))
  {
    LitFieldsStep(w, 4 * j);
    LitFieldsStep(w, 4 * j + 1);
    LitFieldsStep(w, 4 * j + 2);
    LitFieldsStep(w, 4 * j + 3);
  }

  lemma LitFieldsStep(w: B.Word, k: bv7)
    requires k < 32
    ensures LitFieldsBelow(w, k + 1) == LitFieldsBelow(w, k) + LitOne(FieldNat(w, k))
  {
    SmallField(B.Field(w, k));
  }

  /** A byte holding a conflict field contributes nothing. */
  lemma ByteConflict(w: B.Word, j: bv7, i: bv7)
    requires j < 8 && i < 4 && B.Field(w, 4 * j + i) == 3
    ensures ByteCount(w, j) == 0
  {
    ByteCountFormula(w, j);
    SmallField(B.Field(w, 4 * j + i));
    assert FieldNat(w, 4 * j + i) == 3;
    assert i == 0 || i == 1 || i == 2 || i == 3;
  }

  /** A byte without conflict fields contributes its literal fields. */
  lemma ByteLiterals(w: B.Word, j: bv7)
    requires j < 8 && B.NoConflict(w)
    ensures ByteCount(w, j) == LitFieldsBelow(w, 4 * j + 4) - LitFieldsBelow(w, 4 * j)
  {
    ByteCountFormula(w, j);
    LitFieldsQuad(w, j);
    SmallField(B.Field(w, 4 * j));
    SmallField(B.Field(w, 4 * j + 1));
    SmallField(B.Field(w, 4 * j + 2));
    SmallField(B.Field(w, 4 * j + 3));
  }

  /**
   * literal_num on a word without conflict fields counts its literal
   * fields, that is its literals.
   */
  lemma WordCountFields(w: B.Word)
    requires B.NoConflict(w)
    ensures WordCount(w) == LitFieldsBelow(w, 32)
  {
    ByteLiterals(w, 0);
    ByteLiterals(w, 1);
    ByteLiterals(w, 2);
    ByteLiterals(w, 3);
    ByteLiterals(w, 4);
    ByteLiterals(w, 5);
    ByteLiterals(w, 6);
    ByteLiterals(w, 7);
  }
}
