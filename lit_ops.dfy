/**
 * The literal-level operations of the manager (c++-srcs/AlgMgr.cc,
 * include/ym/AlgMgr.h): reading one field (literal), testing and adding a
 * literal bit (is_in, add_lit), counting literals (both literal_num),
 * writing parsed literal lists into cubes (set_literal), the cover hash and
 * the common cube.
 */
module LitOps {
  import opened CubeBits
  import opened CubeView
  import opened CubeAlgebra
  import L = AlgLiterals
  import AlgCount
  import CubeBuffer

  // ---------------------------------------------------------------------
  // One literal in a word
  // ---------------------------------------------------------------------

  /** The field index of the literal's variable: _shift_num is twice it. */
  function Idx(l: L.AlgLiteral): (k: bv7)
    ensures k < 32
  {
    FieldIdx(L.VarId(l))
  }

  /** The polarity code: kAlgPolN for a negative literal, kAlgPolP otherwise. */
  function Code(l: L.AlgLiteral): (c: Word)
    ensures c == 1 || c == 2
  {
    PolCode(LitPol(L.IsNegative(l)))
  }

  /** The pattern of a literal in its word: pat << sft. */
  function LitWord(l: L.AlgLiteral): Word
  {
    Code(l) << (2 * Idx(l))
  }

  /** The word holding the literal's variable, inside a cube. */
  function Blk(l: L.AlgLiteral): nat
  {
    BlockPos(L.VarId(l))
  }

  /** Every bit of the mask is set in the word: the test (w & mask) == mask. */
  predicate MaskIn(w: Word, m: Word)
  {
    w & m == m
  }

  /** The literal's bit is set in the word. */
  predicate HasBit(w: Word, l: L.AlgLiteral)
  {
    MaskIn(w, LitWord(l))
  }

  /** HasBit is the mask test of the literal's pattern. */
  lemma HasBitMask(w: Word, l: L.AlgLiteral)
    ensures HasBit(w, l) <==> MaskIn(w, LitWord(l))
  {
  }

  /** The literal belongs to the cube (or literal set) x. */
  predicate InCube(x: Cube, l: L.AlgLiteral)
    requires Blk(l) < |x|
  {
    HasBit(x[Blk(l)], l)
  }

  /** The words with mask m ORed into word j. */
  function AddMask(x: seq<Word>, j: nat, m: Word): (r: seq<Word>)
    requires j < |x|
    ensures |r| == |x|
  {
    x[j := OrWord(x[j], m)]
  }

  /** add_lit on a cube value: the literal's bit set in its word. */
  function AddToCube(x: Cube, l: L.AlgLiteral): (r: Cube)
    requires Blk(l) < |x|
    ensures |r| == |x|
  {
    AddMask(x, Blk(l), LitWord(l))
  }

  /** Two masks with no bit in common. */
  predicate Apart(a: Word, b: Word)
  {
    a & b == 0
  }

  /** A word with exactly one bit set. */
  predicate OneBit(m: Word)
  {
    m != 0 && m & (m - 1) == 0
  }

  /** A literal's pattern is a single bit. */
  lemma LitOneBit(l: L.AlgLiteral)
    ensures OneBit(LitWord(l))
  {
  }

  /** For a one-bit mask the tests (w & mask) != 0 and (w & mask) == mask agree. */
  lemma OneBitTest(w: Word, m: Word)
    requires OneBit(m)
    ensures WordMeets(w, m) <==> MaskIn(w, m)
  {
  }

  /** The test of a one-bit pattern at field k reads that field's bit. */
  lemma AllField(w: Word, c: Word, k: bv7, m: Word)
    requires (c == 1 || c == 2) && k < 32 && m == c << (2 * k)
    ensures (w & m == m) <==> Field(w, k) & c == c
  {
  }

  /** HasBit reads the literal's polarity bit in the field of its variable. */
  lemma HasBitField(w: Word, l: L.AlgLiteral)
    ensures HasBit(w, l) <==> Field(w, Idx(l)) & Code(l) == Code(l)
  {
    AllField(w, Code(l), Idx(l), LitWord(l));
  }

  /** Literals of two different fields have disjoint patterns ... */
  lemma DisjointFields(l: L.AlgLiteral, m: L.AlgLiteral)
    requires Idx(m) != Idx(l)
    ensures Apart(LitWord(l), LitWord(m))
  {
  }

  /** ... and so have the two literals of one variable. */
  lemma DisjointCodes(l: L.AlgLiteral, m: L.AlgLiteral)
    requires Idx(m) == Idx(l) && L.IsNegative(l) != L.IsNegative(m)
    ensures Apart(LitWord(l), LitWord(m))
  {
  }

  /** Setting bits apart from a mask leaves the word under the mask as it was ... */
  lemma OrApartWord(w: Word, m1: Word, m2: Word)
    requires m1 & m2 == 0
    ensures (w | m1) & m2 == w & m2
  {
  }

  /** ... and so its test. */
  lemma OrApart(w: Word, m1: Word, m2: Word)
    requires Apart(m1, m2)
    ensures MaskIn(w | m1, m2) <==> MaskIn(w, m2)
  {
    OrApartWord(w, m1, m2);
  }

  lemma OrSelf(w: Word, m: Word)
    ensures MaskIn(w | m, m)
  {
  }

  /** Two variables of the same word with the same field index are the same variable. */
  lemma SamePlace(u: nat, v: nat)
    requires BlockPos(u) == BlockPos(v) && FieldIdx(u) == FieldIdx(v)
    ensures u == v
  {
    IdxFromValue(u % 32);
    IdxFromValue(v % 32);
  }

  /** A literal is its variable and its polarity. */
  lemma LitEq(l: L.AlgLiteral, m: L.AlgLiteral)
    requires L.VarId(l) == L.VarId(m) && L.IsNegative(l) == L.IsNegative(m)
    ensures l == m
  {
    L.MakeRoundTrip(l);
    L.MakeRoundTrip(m);
  }

  /**
   * add_lit adds exactly the one literal: afterwards a literal of the cube
   * is one it held before or the literal added.
   */
  lemma AddLitMembers(x: Cube, l: L.AlgLiteral, m: L.AlgLiteral)
    requires Blk(l) < |x| && Blk(m) < |x|
    ensures InCube(AddToCube(x, l), m) <==> InCube(x, m) || m == l
  {
    var w := x[Blk(m)];
    if Blk(m) != Blk(l) {
      assert AddToCube(x, l)[Blk(m)] == w;
      assert m != l;
    } else {
      assert AddToCube(x, l)[Blk(m)] == w | LitWord(l);
      AddBitMembers(w, l, m);
    }
  }

  /** Setting the bit of l in a word of its own block adds l and only l. */
  lemma AddBitMembers(w: Word, l: L.AlgLiteral, m: L.AlgLiteral)
    requires Blk(m) == Blk(l)
    ensures HasBit(w | LitWord(l), m) <==> HasBit(w, m) || m == l
  {
    if Idx(m) != Idx(l) {
      AddBitOther(w, l, m);
    } else if L.IsNegative(l) != L.IsNegative(m) {
      AddBitOpposite(w, l, m);
    } else {
      SamePlace(L.VarId(m), L.VarId(l));
      LitEq(l, m);
      AddBitSelf(w, l);
    }
  }

  lemma AddBitOther(w: Word, l: L.AlgLiteral, m: L.AlgLiteral)
    requires Idx(m) != Idx(l)
    ensures HasBit(w | LitWord(l), m) <==> HasBit(w, m)
  {
    DisjointFields(l, m);
    OrApartLit(w, l, m);
  }

  lemma AddBitOpposite(w: Word, l: L.AlgLiteral, m: L.AlgLiteral)
    requires Idx(m) == Idx(l) && L.IsNegative(l) != L.IsNegative(m)
    ensures HasBit(w | LitWord(l), m) <==> HasBit(w, m)
  {
    DisjointCodes(l, m);
    OrApartLit(w, l, m);
  }

  /** Setting the bit of l keeps the test of a literal whose pattern is apart from it. */
  lemma OrApartLit(w: Word, l: L.AlgLiteral, m: L.AlgLiteral)
    requires Apart(LitWord(l), LitWord(m))
    ensures HasBit(w | LitWord(l), m) <==> HasBit(w, m)
  {
    OrApart(w, LitWord(l), LitWord(m));
  }

  lemma AddBitSelf(w: Word, l: L.AlgLiteral)
    ensures HasBit(w | LitWord(l), l)
  {
    OrSelf(w, LitWord(l));
  }

  /**
   * is_in: whether the literal's bit is set in a literal set; the test is
   * (bv[blk] & mask) != 0.
   */
  method IsIn(bv: array<Word>, lit: L.AlgLiteral) returns (r: bool)
    requires Blk(lit) < bv.Length
    ensures r == HasBit(bv[Blk(lit)], lit)
  {
    var blk := BlockPos(L.VarId(lit));
    var mask := LitWord(lit);
    LitOneBit(lit);
    OneBitTest(bv[blk], mask);
    r := WordMeets(bv[blk], mask);
  }

  /** add_lit: the literal's bit is set in its word; no other word changes. */
  method AddLit(bv: array<Word>, lit: L.AlgLiteral)
    requires Blk(lit) < bv.Length
    modifies bv
    ensures bv[..] == AddMask(old(bv[..]), Blk(lit), LitWord(lit))
  {
    var blk := BlockPos(L.VarId(lit));
    bv[blk] := OrWord(bv[blk], LitWord(lit));
  }

  /** What add_lit does to the first cube of a buffer is AddToCube. */
  lemma AddLitCube(a: seq<Word>, nb: nat, l: L.AlgLiteral)
    requires Blk(l) < nb <= |a|
    ensures CubeAt(AddMask(a, Blk(l), LitWord(l)), nb, 0) == AddToCube(CubeAt(a, nb, 0), l)
  {
    OrCubeAt(a, nb, 0, Blk(l), LitWord(l), 0);
  }

  // ---------------------------------------------------------------------
  // literal(bv, cube_id, var_id)
  // ---------------------------------------------------------------------

  /**
   * literal: the two-bit field of variable v in cube c. In a well-formed
   * cube it is one of kAlgPolX, kAlgPolN, kAlgPolP.
   */
  function Literal(a: seq<Word>, nb: nat, c: nat, v: nat): (r: Word)
    requires BlockPos(v) < nb && Base(c, nb) + nb <= |a|
    ensures r <= 3
    ensures WellFormed(CubeAt(a, nb, c)) ==> r != 3
  {
    assert CubeAt(a, nb, c)[BlockPos(v)] == a[Base(c, nb) + BlockPos(v)];
    Field(a[Base(c, nb) + BlockPos(v)], FieldIdx(v))
  }

  /**
   * The field read by literal names the literal whose bit is set: in a
   * well-formed cube, literal(var) is the polarity of l exactly when l is
   * in the cube (has_literal and is_in agree).
   */
  lemma LiteralIffIn(a: seq<Word>, nb: nat, c: nat, l: L.AlgLiteral)
    requires Blk(l) < nb && Base(c, nb) + nb <= |a| && WellFormed(CubeAt(a, nb, c))
    ensures Literal(a, nb, c, L.VarId(l)) == Code(l) <==> InCube(CubeAt(a, nb, c), l)
  {
    var w := a[Base(c, nb) + Blk(l)];
    assert CubeAt(a, nb, c)[Blk(l)] == w;
    HasBitField(w, l);
    FieldCode(Field(w, Idx(l)), Code(l));
  }

  lemma FieldCode(f: Word, c: Word)
    requires f < 3 && (c == 1 || c == 2)
    ensures f & c == c <==> f == c
  {
  }

  // ---------------------------------------------------------------------
  // literal_num(nc, bv, lit): the cubes holding one literal
  // ---------------------------------------------------------------------

  /** The number of cubes of a cover holding the literal. */
  function CountLit(cs: Cover, l: L.AlgLiteral): (r: nat)
    requires forall i :: 0 <= i < |cs| ==> Blk(l) < |cs[i]|
  {
    if |cs| == 0 then 0
    else CountLit(cs[..|cs| - 1], l) + (if InCube(cs[|cs| - 1], l) then 1 else 0)
  }

  /** At most every cube holds the literal; all of them exactly when the count is the size. */
  lemma {:induction false} CountLitBound(cs: Cover, l: L.AlgLiteral)
    requires forall i :: 0 <= i < |cs| ==> Blk(l) < |cs[i]|
    ensures CountLit(cs, l) <= |cs|
    ensures CountLit(cs, l) == |cs| <==> forall i :: 0 <= i < |cs| ==> InCube(cs[i], l)
    ensures CountLit(cs, l) == 0 <==> forall i :: 0 <= i < |cs| ==> !InCube(cs[i], l)
  {
    if |cs| > 0 {
      var pre := cs[..|cs| - 1];
      CountLitBound(pre, l);
      assert forall i :: 0 <= i < |pre| ==> pre[i] == cs[i];
    }
  }

  /** The count over two covers is the sum of the counts. */
  lemma {:induction false} CountLitAppend(s: Cover, t: Cover, l: L.AlgLiteral)
    requires forall i :: 0 <= i < |s| ==> Blk(l) < |s[i]|
    requires forall i :: 0 <= i < |t| ==> Blk(l) < |t[i]|
    ensures CountLit(s + t, l) == CountLit(s, l) + CountLit(t, l)
  {
    if |t| > 0 {
      var u := t[..|t| - 1];
      assert (s + t)[..|s + t| - 1] == s + u;
      CountLitAppend(s, u, l);
    } else {
      assert s + t == s;
    }
  }

  /** literal_num(nc, bv, lit): one word per cube is tested. */
  method LiteralNumOf(nb: nat, nc: nat, bv: array<Word>, lit: L.AlgLiteral) returns (n: nat)
    requires Blk(lit) < nb && Base(nc, nb) <= bv.Length
    ensures n == CountLit(Cubes(bv[..], nb, 0, nc), lit)
  {
    var blk := BlockPos(L.VarId(lit));
    var mask := LitWord(lit);
    n := 0;
    for i := 0 to nc
      invariant blk == Base(i, nb) + Blk(lit)
      invariant n == CountLit(Cubes(bv[..], nb, 0, nc)[..i], lit)
    {
      CountLitNext(bv[..], nb, nc, i, lit);
      if MaskIn(bv[blk], mask) {
        n := n + 1;
      }
      blk := blk + nb;
    }
    assert Cubes(bv[..], nb, 0, nc)[..nc] == Cubes(bv[..], nb, 0, nc);
  }

  /** One more cube of the buffer adds the test of its literal word to the count. */
  lemma CountLitNext(a: seq<Word>, nb: nat, nc: nat, i: nat, l: L.AlgLiteral)
    requires Blk(l) < nb && Base(nc, nb) <= |a| && i < nc
    ensures Base(i, nb) + Blk(l) < |a| && Base(i + 1, nb) + Blk(l) == Base(i, nb) + Blk(l) + nb
    ensures CountLit(Cubes(a, nb, 0, nc)[..i + 1], l)
         == CountLit(Cubes(a, nb, 0, nc)[..i], l) + (if MaskIn(a[Base(i, nb) + Blk(l)], LitWord(l)) then 1 else 0)
  {
    var cs := Cubes(a, nb, 0, nc);
    BaseMono(i + 1, nc, nb);
    assert cs[i] == CubeAt(a, nb, i) && cs[i][Blk(l)] == a[Base(i, nb) + Blk(l)];
    assert cs[..i + 1][..i] == cs[..i];
  }

  // ---------------------------------------------------------------------
  // literal_num(nc, bv): all literals, by table lookup
  // ---------------------------------------------------------------------

  /** The sum of the eight byte lookups over the words. */
  function WordsCount(ws: seq<Word>): nat
  {
    if |ws| == 0 then 0 else WordsCount(ws[..|ws| - 1]) + AlgCount.WordCount(ws[|ws| - 1])
  }

  /** The number of fields that hold a literal, over the words. */
  ghost function FieldLits(ws: seq<Word>): nat
  {
    if |ws| == 0 then 0 else FieldLits(ws[..|ws| - 1]) + AlgCount.LitFieldsBelow(ws[|ws| - 1], 32)
  }

  /** On conflict-free words the table lookups count exactly the literal fields. */
  lemma {:induction false} WordsCountLits(ws: seq<Word>)
    requires forall i :: 0 <= i < |ws| ==> NoConflict(ws[i])
    ensures WordsCount(ws) == FieldLits(ws)
    ensures WordsCount(ws) <= 32 * |ws|
  {
    if |ws| > 0 {
      var pre := ws[..|ws| - 1];
      assert forall i :: 0 <= i < |pre| ==> pre[i] == ws[i];
      WordsCountLits(pre);
      AlgCount.WordCountFields(ws[|ws| - 1]);
    }
  }

  /** literal_num(nc, bv): nc * nb words, eight lookups each. */
  method LiteralNum(nb: nat, nc: nat, bv: array<Word>) returns (ans: nat)
    requires Base(nc, nb) <= bv.Length
    ensures ans == WordsCount(bv[..Base(nc, nb)])
  {
    var n := Base(nc, nb);
    ans := 0;
    for i := 0 to n
      invariant ans == WordsCount(bv[..i])
    {
      assert bv[..i + 1][..i] == bv[..i];
      ans := ans + AlgCount.WordCount(bv[i]);
    }
  }

  // ---------------------------------------------------------------------
  // hash
  // ---------------------------------------------------------------------

  /** The four 16-bit chunks of a word, XORed. */
  function WordHash(w: Word): (r: Word)
    ensures r < 0x1_0000
  {
    (w & 0xFFFF) ^ ((w >> 16) & 0xFFFF) ^ ((w >> 32) & 0xFFFF) ^ (w >> 48)
  }

  /** The hash of a run of words: the XOR of their word hashes. */
  function WordsHash(ws: seq<Word>): Word
  {
    if |ws| == 0 then 0 else WordsHash(ws[..|ws| - 1]) ^ WordHash(ws[|ws| - 1])
  }

  /** The hash fits in 16 bits. */
  lemma {:induction false} HashBound(ws: seq<Word>)
    ensures WordsHash(ws) < 0x1_0000
  {
    if |ws| > 0 {
      HashBound(ws[..|ws| - 1]);
      XorBound(WordsHash(ws[..|ws| - 1]), WordHash(ws[|ws| - 1]));
    }
  }

  lemma XorBound(a: Word, b: Word)
    requires a < 0x1_0000 && b < 0x1_0000
    ensures a ^ b < 0x1_0000
  {
  }

  /** The hash of two runs is the XOR of their hashes. */
  lemma {:induction false} HashAppend(a: seq<Word>, b: seq<Word>)
    ensures WordsHash(a + b) == WordsHash(a) ^ WordsHash(b)
  {
    if |b| == 0 {
      assert a + b == a;
    } else {
      var c := b[..|b| - 1];
      assert (a + b)[..|a + b| - 1] == a + c;
      HashAppend(a, c);
    }
  }

  /** The hash does not depend on the order of the runs. */
  lemma HashSwap(a: seq<Word>, b: seq<Word>)
    ensures WordsHash(a + b) == WordsHash(b + a)
  {
    HashAppend(a, b);
    HashAppend(b, a);
  }

  /** hash(nc, bv): the XOR over every word of the cover. */
  method CoverHash(nb: nat, nc: nat, bv: array<Word>) returns (ans: Word)
    requires Base(nc, nb) <= bv.Length
    ensures ans == WordsHash(bv[..Base(nc, nb)]) && ans < 0x1_0000
  {
    var n := Base(nc, nb);
    ans := 0;
    for i := 0 to n
      invariant ans == WordsHash(bv[..i])
    {
      assert bv[..i + 1][..i] == bv[..i];
      var pat := bv[i];
      ans := ans ^ (pat & 0xFFFF);
      pat := pat >> 16;
      ans := ans ^ (pat & 0xFFFF);
      pat := pat >> 16;
      ans := ans ^ (pat & 0xFFFF);
      pat := pat >> 16;
      ans := ans ^ pat;
    }
    HashBound(bv[..n]);
  }

  // ---------------------------------------------------------------------
  // set_literal
  // ---------------------------------------------------------------------

  /**
   * The number of cubes a literal list describes, counted as the parser
   * does: a literal while the flag first is set starts a cube and clears
   * it; a separator sets it again.
   */
  function Runs(first: bool, lits: seq<L.AlgLiteral>): (n: nat)
    ensures n <= |lits|
    decreases |lits|
  {
    if |lits| == 0 then 0
    else if lits[0] == L.Undef() then Runs(true, lits[1..])
    else (if first then 1 else 0) + Runs(false, lits[1..])
  }

  function RunCount(lits: seq<L.AlgLiteral>): (n: nat)
    ensures n <= |lits|
  {
    Runs(true, lits)
  }

  /** Every literal of the list lands in a cube of the buffer, inside its nb words. */
  predicate Fits(len: nat, nb: nat, lits: seq<L.AlgLiteral>, at: seq<nat>)
  {
    |at| == |lits| &&
    forall i :: 0 <= i < |lits| && lits[i] != L.Undef() ==> Blk(lits[i]) < nb && Base(at[i], nb) + nb <= len
  }

  /** The buffer with literal l added to cube c: its pattern ORed into the literal's word. */
  function SetOne(a: seq<Word>, nb: nat, c: nat, l: L.AlgLiteral): (r: seq<Word>)
    requires Blk(l) < nb && Base(c, nb) + nb <= |a|
    ensures |r| == |a|
  {
    AddMask(a, Base(c, nb) + Blk(l), LitWord(l))
  }

  /** Every literal lits[i] added to cube at[i]; separators write nothing. */
  function Place(a: seq<Word>, nb: nat, lits: seq<L.AlgLiteral>, at: seq<nat>): (r: seq<Word>)
    requires Fits(|a|, nb, lits, at)
    ensures |r| == |a|
  {
    if |lits| == 0 then a
    else
      var n := |lits| - 1;
      var p := Place(a, nb, lits[..n], at[..n]);
      if lits[n] == L.Undef() then p else SetOne(p, nb, at[n], lits[n])
  }

  /**
   * The cube set_literal writes each entry into: the cursor starts at cube c
   * and moves one cube on every separator.
   */
  function Cursors(c: nat, lits: seq<L.AlgLiteral>): (at: seq<nat>)
    ensures |at| == |lits|
    decreases |lits|
  {
    if |lits| == 0 then []
    else [c] + Cursors(c + (if lits[0] == L.Undef() then 1 else 0), lits[1..])
  }

  /** Where the scan of a list stands: before any literal, inside a run, or after a run's separator. */
  datatype RunState = Before | InRun | Between

  /**
   * The cube each entry goes into when every run of literals is one cube,
   * as the parser counts them: the cursor moves on only when a literal
   * follows a separator that ended a run.
   */
  function RunCursors(c: nat, s: RunState, lits: seq<L.AlgLiteral>): (at: seq<nat>)
    ensures |at| == |lits|
    decreases |lits|
  {
    if |lits| == 0 then []
    else if lits[0] == L.Undef() then [c] + RunCursors(c, if s == InRun then Between else s, lits[1..])
    else
      var c' := if s == Between then c + 1 else c;
      [c'] + RunCursors(c', InRun, lits[1..])
  }

  /** SetOne changes cube c as AddToCube does and leaves every other cube alone. */
  lemma SetOneCube(a: seq<Word>, nb: nat, c: nat, l: L.AlgLiteral, d: nat)
    requires Blk(l) < nb && Base(c, nb) + nb <= |a| && Base(d, nb) + nb <= |a|
    ensures CubeAt(SetOne(a, nb, c, l), nb, d) == if d == c then AddToCube(CubeAt(a, nb, c), l) else CubeAt(a, nb, d)
  {
    OrCubeAt(a, nb, c, Blk(l), LitWord(l), d);
  }

  /** ORing a mask into word j of cube c, seen cube by cube. */
  lemma OrCubeAt(a: seq<Word>, nb: nat, c: nat, j: nat, m: Word, d: nat)
    requires j < nb && Base(c, nb) + nb <= |a| && Base(d, nb) + nb <= |a|
    ensures CubeAt(AddMask(a, Base(c, nb) + j, m), nb, d)
         == if d == c then AddMask(CubeAt(a, nb, c), j, m) else CubeAt(a, nb, d)
  {
    if d == c {
      OrCubeSame(a, Base(c, nb), nb, j, m);
    } else {
      CubesApart(c, d, nb);
      SliceUpdate(a, Base(c, nb) + j, OrWord(a[Base(c, nb) + j], m), Base(d, nb), Base(d, nb) + nb);
    }
  }

  lemma OrCubeSame(a: seq<Word>, off: nat, nb: nat, j: nat, m: Word)
    requires j < nb && off + nb <= |a|
    ensures AddMask(a, off + j, m)[off .. off + nb] == AddMask(a[off .. off + nb], j, m)
  {
    assert a[off .. off + nb][j] == a[off + j];
    SliceUpdate(a, off + j, OrWord(a[off + j], m), off, off + nb);
  }

  /** A slice of an updated sequence. */
  lemma SliceUpdate<T>(a: seq<T>, k: nat, v: T, lo: nat, hi: nat)
    requires lo <= hi <= |a| && k < |a|
    ensures lo <= k < hi ==> a[k := v][lo .. hi] == a[lo .. hi][k - lo := v]
    ensures !(lo <= k < hi) ==> a[k := v][lo .. hi] == a[lo .. hi]
  {
  }

  /** The placement of a prefix is the first step of the placement of the list. */
  lemma PlacePrefix(a: seq<Word>, nb: nat, lits: seq<L.AlgLiteral>, at: seq<nat>, i: nat)
    requires Fits(|a|, nb, lits, at) && i < |lits|
    ensures Fits(|a|, nb, lits[..i], at[..i]) && Fits(|a|, nb, lits[..i + 1], at[..i + 1])
    ensures lits[i] == L.Undef() ==> Place(a, nb, lits[..i + 1], at[..i + 1]) == Place(a, nb, lits[..i], at[..i])
    ensures lits[i] != L.Undef() ==>
      Place(a, nb, lits[..i + 1], at[..i + 1]) == SetOne(Place(a, nb, lits[..i], at[..i]), nb, at[i], lits[i])
  {
    assert lits[..i + 1][..i] == lits[..i] && at[..i + 1][..i] == at[..i];
  }

  lemma FitsPrefix(len: nat, nb: nat, lits: seq<L.AlgLiteral>, at: seq<nat>, i: nat)
    requires Fits(len, nb, lits, at) && i <= |lits|
    ensures Fits(len, nb, lits[..i], at[..i])
  {
  }

  /** d is the buffer after the first i entries of the list are placed. */
  predicate Placed(d: seq<Word>, a: seq<Word>, nb: nat, lits: seq<L.AlgLiteral>, at: seq<nat>, i: nat)
  {
    Fits(|a|, nb, lits, at) && i <= |lits| &&
    (FitsPrefix(|a|, nb, lits, at, i); d == Place(a, nb, lits[..i], at[..i]))
  }

  /** A separator keeps Placed. */
  lemma PlacedSkip(d: seq<Word>, a: seq<Word>, nb: nat, lits: seq<L.AlgLiteral>, at: seq<nat>, i: nat)
    requires Placed(d, a, nb, lits, at, i) && i < |lits| && lits[i] == L.Undef()
    ensures Placed(d, a, nb, lits, at, i + 1)
  {
    PlacePrefix(a, nb, lits, at, i);
  }

  /** A literal ORed into word k of cube c = at[i] keeps Placed. */
  lemma PlacedSet(d: seq<Word>, a: seq<Word>, nb: nat, lits: seq<L.AlgLiteral>, at: seq<nat>, i: nat,
                   c: nat, k: nat, m: Word)
    requires Placed(d, a, nb, lits, at, i) && i < |lits| && lits[i] != L.Undef()
    requires c == at[i] && k == Base(c, nb) + Blk(lits[i]) && m == LitWord(lits[i])
    ensures k < |d| && Placed(AddMask(d, k, m), a, nb, lits, at, i + 1)
  {
    PlacePrefix(a, nb, lits, at, i);
  }

  /** When every entry is placed, Placed is the whole placement. */
  lemma PlacedAll(d: seq<Word>, a: seq<Word>, nb: nat, lits: seq<L.AlgLiteral>, at: seq<nat>)
    requires Placed(d, a, nb, lits, at, |lits|)
    ensures d == Place(a, nb, lits, at)
  {
    assert lits[..|lits|] == lits && at[..|lits|] == at;
  }

  lemma PlacedNone(a: seq<Word>, nb: nat, lits: seq<L.AlgLiteral>, at: seq<nat>)
    requires Fits(|a|, nb, lits, at)
    ensures Placed(a, a, nb, lits, at, 0)
  {
    assert lits[..0] == [] && at[..0] == [];
  }

  /** One turn of set_literal's cursor. */
  lemma CursorStep(c: nat, lits: seq<L.AlgLiteral>, at: seq<nat>, i: nat)
    requires i < |lits| == |at| && at[i..] == Cursors(c, lits[i..])
    ensures at[i] == c
    ensures at[i + 1..] == Cursors(c + (if lits[i] == L.Undef() then 1 else 0), lits[i + 1..])
  {
    assert lits[i..][0] == lits[i] && lits[i..][1..] == lits[i + 1..];
    assert at[i..][0] == at[i] && at[i..][1..] == at[i + 1..];
  }

  /** The word at k ORed with the mask: _dst[blk] |= pat << sft. */
  method OrInto(dst: array<Word>, k: nat, mask: Word)
    requires k < dst.Length
    modifies dst
    ensures dst[..] == AddMask(old(dst[..]), k, mask)
  {
    dst[k] := OrWord(dst[k], mask);
  }

  /**
   * set_literal as written: the cursor starts at cube dst_pos and moves one
   * cube on every separator; each literal's pattern is ORed into its word.
   */
  method SetLiteral(nb: nat, dst: array<Word>, dpos: nat, lits: seq<L.AlgLiteral>)
    requires Fits(dst.Length, nb, lits, Cursors(dpos, lits))
    modifies dst
    ensures dst[..] == Place(old(dst[..]), nb, lits, Cursors(dpos, lits))
  {
    ghost var a := dst[..];
    ghost var at := Cursors(dpos, lits);
    assert at[0..] == at && lits[0..] == lits;
    ghost var cur := dpos;
    PlacedNone(a, nb, lits, at);
    var off := Base(dpos, nb);
    for i := 0 to |lits|
      invariant at[i..] == Cursors(cur, lits[i..]) && off == Base(cur, nb)
      invariant Placed(dst[..], a, nb, lits, at, i)
    {
      off, cur := SetEntry(nb, dst, lits, i, off, a, at, cur);
    }
    PlacedAll(dst[..], a, nb, lits, at);
  }

  /** One turn of set_literal's loop: entry i at the cursor (cube cur, word offset off). */
  method SetEntry(nb: nat, dst: array<Word>, lits: seq<L.AlgLiteral>, i: nat, off: nat,
                  ghost a: seq<Word>, ghost at: seq<nat>, ghost cur: nat)
    returns (off': nat, ghost cur': nat)
    requires i < |lits| == |at| && at[i..] == Cursors(cur, lits[i..]) && off == Base(cur, nb)
    requires Placed(dst[..], a, nb, lits, at, i)
    modifies dst
    ensures at[i + 1..] == Cursors(cur', lits[i + 1..]) && off' == Base(cur', nb)
    ensures Placed(dst[..], a, nb, lits, at, i + 1)
  {
    CursorStep(cur, lits, at, i);
    if lits[i] == L.Undef() {
      PlacedSkip(dst[..], a, nb, lits, at, i);
      off', cur' := off + nb, cur + 1;
    } else {
      var blk := Blk(lits[i]);
      var mask := LitWord(lits[i]);
      PlacedSet(dst[..], a, nb, lits, at, i, cur, off + blk, mask);
      OrInto(dst, off + blk, mask);
      off', cur' := off, cur;
    }
  }

  // ---------------------------------------------------------------------
  // set_literal, each run of literals one cube
  // ---------------------------------------------------------------------

  /**
   * set_literal with the cursor moved only when a literal follows a
   * separator that ended a run: the list names exactly RunCount cubes from
   * dst_pos on, the number the parser reports.
   */
  method SetLiteralRuns(nb: nat, dst: array<Word>, dpos: nat, lits: seq<L.AlgLiteral>)
    requires Fits(dst.Length, nb, lits, RunCursors(dpos, Before, lits))
    modifies dst
    ensures dst[..] == Place(old(dst[..]), nb, lits, RunCursors(dpos, Before, lits))
  {
    ghost var a := dst[..];
    ghost var at := RunCursors(dpos, Before, lits);
    assert at[0..] == at && lits[0..] == lits;
    ghost var cur := dpos;
    PlacedNone(a, nb, lits, at);
    var off := Base(dpos, nb);
    var st := Before;
    for i := 0 to |lits|
      invariant at[i..] == RunCursors(cur, st, lits[i..]) && off == Base(cur, nb)
      invariant Placed(dst[..], a, nb, lits, at, i)
    {
      off, st, cur := SetRunEntry(nb, dst, lits, i, off, st, a, at, cur);
    }
    PlacedAll(dst[..], a, nb, lits, at);
  }

  /** One turn of the corrected loop: entry i with the scan in state st at cube cur. */
  method SetRunEntry(nb: nat, dst: array<Word>, lits: seq<L.AlgLiteral>, i: nat, off: nat, st: RunState,
                     ghost a: seq<Word>, ghost at: seq<nat>, ghost cur: nat)
    returns (off': nat, st': RunState, ghost cur': nat)
    requires i < |lits| == |at| && at[i..] == RunCursors(cur, st, lits[i..]) && off == Base(cur, nb)
    requires Placed(dst[..], a, nb, lits, at, i)
    modifies dst
    ensures at[i + 1..] == RunCursors(cur', st', lits[i + 1..]) && off' == Base(cur', nb)
    ensures Placed(dst[..], a, nb, lits, at, i + 1)
  {
    RunStep(cur, st, lits, at, i);
    if lits[i] == L.Undef() {
      PlacedSkip(dst[..], a, nb, lits, at, i);
      off', st', cur' := off, if st == InRun then Between else st, cur;
    } else {
      off', cur' := off, cur;
      if st == Between {
        off', cur' := off + nb, cur + 1;
      }
      st' := InRun;
      var blk := Blk(lits[i]);
      var mask := LitWord(lits[i]);
      PlacedSet(dst[..], a, nb, lits, at, i, cur', off' + blk, mask);
      OrInto(dst, off' + blk, mask);
    }
  }

  /** One turn of the corrected cursor. */
  lemma RunStep(c: nat, s: RunState, lits: seq<L.AlgLiteral>, at: seq<nat>, i: nat)
    requires i < |lits| == |at| && at[i..] == RunCursors(c, s, lits[i..])
    ensures lits[i] == L.Undef() ==>
      at[i + 1..] == RunCursors(c, if s == InRun then Between else s, lits[i + 1..])
    ensures lits[i] != L.Undef() ==>
      at[i] == (if s == Between then c + 1 else c) &&
      at[i + 1..] == RunCursors(if s == Between then c + 1 else c, InRun, lits[i + 1..])
  {
    assert lits[i..][0] == lits[i] && lits[i..][1..] == lits[i + 1..];
    assert at[i..][0] == at[i] && at[i..][1..] == at[i + 1..];
  }

  // ---------------------------------------------------------------------
  // Where the entries land
  // ---------------------------------------------------------------------

  /** The corrected cursor stays within the cubes the scan opens from state s. */
  lemma {:induction false} RunCursorsBound(c: nat, s: RunState, lits: seq<L.AlgLiteral>, i: nat)
    requires i < |lits| && lits[i] != L.Undef()
    ensures c <= RunCursors(c, s, lits)[i]
    ensures RunCursors(c, s, lits)[i] + (if s == Before then 1 else 0) <= c + Runs(s != InRun, lits)
    decreases |lits|
  {
    if i > 0 {
      var rest := lits[1..];
      assert rest[i - 1] == lits[i];
      if lits[0] == L.Undef() {
        RunCursorsBound(c, if s == InRun then Between else s, rest, i - 1);
      } else {
        RunCursorsBound(if s == Between then c + 1 else c, InRun, rest, i - 1);
      }
    }
  }

  /** Every literal of the list goes into one of the RunCount cubes from dpos on. */
  lemma RunCursorsInBody(dpos: nat, lits: seq<L.AlgLiteral>, i: nat)
    requires i < |lits| && lits[i] != L.Undef()
    ensures dpos <= RunCursors(dpos, Before, lits)[i] < dpos + RunCount(lits)
  {
    RunCursorsBound(dpos, Before, lits, i);
  }

  /** With every literal's word inside a cube, a body of RunCount cubes holds the corrected placement. */
  lemma {:induction false} RunCursorsFit(len: nat, nb: nat, dpos: nat, lits: seq<L.AlgLiteral>)
    requires forall i :: 0 <= i < |lits| && lits[i] != L.Undef() ==> Blk(lits[i]) < nb
    requires Base(dpos + RunCount(lits), nb) <= len
    ensures Fits(len, nb, lits, RunCursors(dpos, Before, lits))
  {
    var at := RunCursors(dpos, Before, lits);
    forall i | 0 <= i < |lits| && lits[i] != L.Undef()
      ensures Base(at[i], nb) + nb <= len
    {
      RunCursorsInBody(dpos, lits, i);
      BaseMono(at[i] + 1, dpos + RunCount(lits), nb);
    }
  }

  /** No separator first and no two separators in a row: the lists the as-written code places right. */
  predicate Separated(lits: seq<L.AlgLiteral>)
  {
    (|lits| > 0 ==> lits[0] != L.Undef()) &&
    forall i :: 0 <= i < |lits| - 1 && lits[i] == L.Undef() ==> lits[i + 1] != L.Undef()
  }

  /** The two cursors agree on every literal of a separated list, generalized over the scan state. */
  lemma {:induction false} CursorsAgreeFrom(c: nat, r: nat, s: RunState, lits: seq<L.AlgLiteral>, i: nat)
    requires i < |lits| && lits[i] != L.Undef()
    requires s == Between ==> c == r + 1
    requires s != Between ==> c == r
    requires s != InRun && |lits| > 0 ==> lits[0] != L.Undef()
    requires forall k :: 0 <= k < |lits| - 1 && lits[k] == L.Undef() ==> lits[k + 1] != L.Undef()
    ensures Cursors(c, lits)[i] == RunCursors(r, s, lits)[i]
    decreases |lits|
  {
    var rest := lits[1..];
    if i > 0 {
      assert rest[i - 1] == lits[i];
      assert forall k :: 0 <= k < |rest| - 1 && rest[k] == L.Undef() ==> rest[k + 1] != L.Undef() by {
        forall k | 0 <= k < |rest| - 1 && rest[k] == L.Undef()
          ensures rest[k + 1] != L.Undef()
        {
          assert rest[k] == lits[k + 1] && rest[k + 1] == lits[k + 2];
        }
      }
      if lits[0] == L.Undef() {
        assert |rest| > 0 ==> rest[0] == lits[1];
        CursorsAgreeFrom(c + 1, r, if s == InRun then Between else s, rest, i - 1);
      } else {
        CursorsAgreeFrom(c, if s == Between then r + 1 else r, InRun, rest, i - 1);
      }
    }
  }

  /** On a separated list set_literal as written and the corrected version place alike. */
  lemma CursorsAgree(dpos: nat, lits: seq<L.AlgLiteral>, i: nat)
    requires Separated(lits) && i < |lits| && lits[i] != L.Undef()
    ensures Cursors(dpos, lits)[i] == RunCursors(dpos, Before, lits)[i]
  {
    CursorsAgreeFrom(dpos, dpos, Before, lits, i);
  }

  /**
   * A leading separator: the parser counts one cube for "+a", but set_literal
   * as written puts a into the next cube, one past the body.
   */
  lemma LeadingSeparatorOverruns(dpos: nat, l: L.AlgLiteral)
    requires l != L.Undef()
    ensures RunCount([L.Undef(), l]) == 1
    ensures Cursors(dpos, [L.Undef(), l])[1] == dpos + RunCount([L.Undef(), l])
    ensures RunCursors(dpos, Before, [L.Undef(), l])[1] == dpos
  {
    assert [L.Undef(), l][1..] == [l] && [l][1..] == [];
    assert Runs(true, [l]) == 1;
  }

  /**
   * Two separators in a row: "a++b" is two cubes for the parser, but
   * set_literal as written leaves the second cube empty and puts b past the
   * body.
   */
  lemma DoubleSeparatorOverruns(dpos: nat, l: L.AlgLiteral, m: L.AlgLiteral)
    requires l != L.Undef() && m != L.Undef()
    ensures RunCount([l, L.Undef(), L.Undef(), m]) == 2
    ensures Cursors(dpos, [l, L.Undef(), L.Undef(), m]) == [dpos, dpos, dpos + 1, dpos + 2]
    ensures RunCursors(dpos, Before, [l, L.Undef(), L.Undef(), m])[3] == dpos + 1
  {
    var lits, r1, r2 := [l, L.Undef(), L.Undef(), m], [L.Undef(), L.Undef(), m], [L.Undef(), m];
    assert lits[1..] == r1 && r1[1..] == r2 && r2[1..] == [m] && [m][1..] == [];
    assert Runs(true, [m]) == 1;
    assert Runs(true, r2) == 1;
    assert Runs(true, r1) == 1 && Runs(false, r1) == 1;
    assert Cursors(dpos + 1, r2) == [dpos + 1, dpos + 2];
    assert Cursors(dpos, r1) == [dpos, dpos + 1, dpos + 2];
    assert RunCursors(dpos, Between, r2) == [dpos, dpos + 1];
    assert RunCursors(dpos, InRun, r1) == [dpos, dpos, dpos + 1];
  }

  /** Some entry of the list is the literal m placed in cube d. */
  predicate Lands(lits: seq<L.AlgLiteral>, at: seq<nat>, m: L.AlgLiteral, d: nat)
    requires |at| == |lits|
  {
    exists i :: 0 <= i < |lits| && lits[i] == m && at[i] == d
  }

  lemma LandsLast(lits: seq<L.AlgLiteral>, at: seq<nat>, m: L.AlgLiteral, d: nat)
    requires |at| == |lits| > 0
    ensures Lands(lits, at, m, d) <==>
      Lands(lits[..|lits| - 1], at[..|lits| - 1], m, d) || (lits[|lits| - 1] == m && at[|lits| - 1] == d)
  {
    var n := |lits| - 1;
    if Lands(lits, at, m, d) {
      var i :| 0 <= i < |lits| && lits[i] == m && at[i] == d;
      if i < n {
        assert lits[..n][i] == m && at[..n][i] == d;
      }
    }
    if Lands(lits[..n], at[..n], m, d) {
      var i :| 0 <= i < n && lits[..n][i] == m && at[..n][i] == d;
      assert lits[i] == m && at[i] == d;
    }
  }

  /**
   * After the placement, literal m is in cube d exactly when it was before
   * or some entry put it there: nothing else is added, nothing is lost.
   */
  lemma {:induction false} PlaceMembers(a: seq<Word>, nb: nat, lits: seq<L.AlgLiteral>, at: seq<nat>,
                                        m: L.AlgLiteral, d: nat)
    requires Fits(|a|, nb, lits, at) && m != L.Undef() && Blk(m) < nb && Base(d, nb) + nb <= |a|
    ensures InCube(CubeAt(Place(a, nb, lits, at), nb, d), m) <==> InCube(CubeAt(a, nb, d), m) || Lands(lits, at, m, d)
    decreases |lits|
  {
    if |lits| > 0 {
      var n := |lits| - 1;
      FitsPrefix(|a|, nb, lits, at, n);
      PlaceMembers(a, nb, lits[..n], at[..n], m, d);
      LandsLast(lits, at, m, d);
      var p := Place(a, nb, lits[..n], at[..n]);
      if lits[n] != L.Undef() {
        SetOneCube(p, nb, at[n], lits[n], d);
        if d == at[n] {
          AddLitMembers(CubeAt(p, nb, d), lits[n], m);
        }
      }
    }
  }

  // ---------------------------------------------------------------------
  // common_cube
  // ---------------------------------------------------------------------

  /** The word-wise AND of the cubes of a non-empty cover, first to last. */
  function AndFold(cs: Cover, nb: nat): (r: Cube)
    requires |cs| > 0 && Uniform(cs, nb)
    ensures |r| == nb
    decreases |cs|
  {
    if |cs| == 1 then cs[0] else AndCube(AndFold(cs[..|cs| - 1], nb), cs[|cs| - 1])
  }

  /** Every cube of the cover covers the common cube: its literals are in every cube. */
  lemma {:induction false} FoldCovered(cs: Cover, nb: nat, i: nat)
    requires |cs| > 0 && Uniform(cs, nb) && i < |cs|
    ensures Covers(cs[i], AndFold(cs, nb))
    decreases |cs|
  {
    var n := |cs| - 1;
    if n > 0 {
      var pre := cs[..n];
      var f := AndFold(pre, nb);
      AndCubeCovered(f, cs[n]);
      if i < n {
        assert pre[i] == cs[i];
        FoldCovered(pre, nb, i);
        CoversTrans(cs[i], f, AndCube(f, cs[n]));
      }
    } else {
      CoversRefl(cs[0]);
    }
  }

  lemma CoversRefl(x: Cube)
    ensures Covers(x, x)
  {
    forall i | 0 <= i < |x|
      ensures WordCovers(x[i], x[i])
    {
      WordCoversRefl(x[i]);
    }
  }

  lemma WordCoversRefl(a: Word)
    ensures WordCovers(a, a)
  {
  }

  /** The common cube is the largest cube every cube of the cover covers. */
  lemma {:induction false} FoldGreatest(cs: Cover, nb: nat, z: Cube)
    requires |cs| > 0 && Uniform(cs, nb) && |z| == nb
    requires forall i :: 0 <= i < |cs| ==> Covers(cs[i], z)
    ensures Covers(AndFold(cs, nb), z)
    decreases |cs|
  {
    var n := |cs| - 1;
    if n > 0 {
      var pre := cs[..n];
      assert forall i :: 0 <= i < |pre| ==> pre[i] == cs[i];
      FoldGreatest(pre, nb, z);
      AndCubeGreatest(AndFold(pre, nb), cs[n], z);
    } else {
      assert Covers(cs[0], z);
    }
  }

  /** Once the running AND is empty it stays empty: the early exit of common_cube. */
  lemma {:induction false} FoldZero(cs: Cover, nb: nat, k: nat)
    requires Uniform(cs, nb) && 1 <= k <= |cs| && IsZero(AndFold(cs[..k], nb))
    ensures AndFold(cs, nb) == ZeroCube(nb)
    decreases |cs|
  {
    var n := |cs| - 1;
    if k == |cs| {
      assert cs[..k] == cs;
      ZeroIsZeroCube(AndFold(cs, nb));
    } else {
      var pre := cs[..n];
      assert pre[..k] == cs[..k];
      FoldZero(pre, nb, k);
      AndZero(AndFold(pre, nb), cs[n]);
      ZeroIsZeroCube(AndFold(cs, nb));
    }
  }

  lemma AndZero(x: Cube, y: Cube)
    requires |x| == |y| && IsZero(x)
    ensures IsZero(AndCube(x, y))
  {
    forall i | 0 <= i < |x|
      ensures AndCube(x, y)[i] == 0
    {
      WordAndZero(x[i], y[i]);
    }
  }

  lemma WordAndZero(a: Word, b: Word)
    requires a == 0
    ensures AndWord(a, b) == 0
  {
  }

  lemma ZeroIsZeroCube(x: Cube)
    requires IsZero(x)
    ensures x == ZeroCube(|x|)
  {
  }

  /** One more cube into the running AND. */
  lemma FoldNext(cs: Cover, nb: nat, k: nat)
    requires Uniform(cs, nb) && 1 <= k < |cs|
    ensures AndFold(cs[..k + 1], nb) == AndCube(AndFold(cs[..k], nb), cs[k])
  {
    assert cs[..k + 1][..k] == cs[..k];
  }

  /** The OR of a run of words: tmp in common_cube. */
  function OrAll(ws: seq<Word>): Word
  {
    if |ws| == 0 then 0 else OrWord(OrAll(ws[..|ws| - 1]), ws[|ws| - 1])
  }

  /** The OR of the words is zero exactly when every word is. */
  lemma {:induction false} OrAllZero(ws: seq<Word>)
    ensures OrAll(ws) == 0 <==> IsZero(ws)
  {
    if |ws| > 0 {
      var pre := ws[..|ws| - 1];
      OrAllZero(pre);
      OrZero(OrAll(pre), ws[|ws| - 1]);
      assert forall k :: 0 <= k < |pre| ==> pre[k] == ws[k];
    }
  }

  lemma OrZero(a: Word, b: Word)
    ensures OrWord(a, b) == 0 <==> a == 0 && b == 0
  {
  }

  /** d is the AND of the first k cubes of the buffer. */
  predicate CommonSoFar(d: Cube, a: seq<Word>, nb: nat, k: nat)
  {
    1 <= k && Base(k, nb) <= |a| &&
    (CubesUniform(a, nb, 0, k); d == AndFold(Cubes(a, nb, 0, k), nb))
  }

  /** The first cube alone. */
  lemma CommonFirst(a: seq<Word>, nb: nat)
    requires nb <= |a|
    ensures CommonSoFar(CubeAt(a, nb, 0), a, nb, 1)
  {
    CubesOne(a, nb, 0);
  }

  /** One more cube ANDed in. */
  lemma CommonStep(d: Cube, a: seq<Word>, nb: nat, k: nat)
    requires CommonSoFar(d, a, nb, k) && Base(k + 1, nb) <= |a|
    ensures Base(k, nb) + nb <= |a| && CommonSoFar(AndCube(d, CubeAt(a, nb, k)), a, nb, k + 1)
  {
    var cs := Cubes(a, nb, 0, k + 1);
    CubesUniform(a, nb, 0, k + 1);
    FoldNext(cs, nb, k);
    assert cs[..k] == Cubes(a, nb, 0, k);
  }

  /** An empty running AND is the AND of all n cubes. */
  lemma CommonZero(d: Cube, a: seq<Word>, nb: nat, k: nat, n: nat)
    requires CommonSoFar(d, a, nb, k) && IsZero(d) && k <= n && Base(n, nb) <= |a|
    ensures CommonSoFar(d, a, nb, n)
  {
    var cs := Cubes(a, nb, 0, n);
    CubesUniform(a, nb, 0, n);
    assert cs[..k] == Cubes(a, nb, 0, k);
    FoldZero(cs, nb, k);
    ZeroIsZeroCube(d);
  }

  /** Above its first cube, b still holds what c holds. */
  predicate Above(b: seq<Word>, c: seq<Word>, nb: nat)
  {
    |b| == |c| && forall k :: nb <= k < |b| ==> b[k] == c[k]
  }

  /**
   * The state of common_cube after k cubes of src: cube 0 of dw is their
   * AND, and above cube 0 dw still holds what d0 held.
   */
  predicate CommonState(dw: seq<Word>, src: seq<Word>, d0: seq<Word>, nb: nat, k: nat)
  {
    nb <= |dw| && CommonSoFar(CubeAt(dw, nb, 0), src, nb, k) && Above(dw, d0, nb)
  }

  /**
   * common_cube: cube 0 is copied, then ANDed word by word with cubes 1 to
   * nc1 - 1, stopping once it is empty. Cube 0 of the source is read even
   * when nc1 is 0. The destination is a buffer of its own (the cover passes
   * a new body).
   */
  method CommonCube(nb: nat, dst: array<Word>, nc1: nat, buf1: array<Word>)
    requires nb <= dst.Length && nb <= buf1.Length && Base(nc1, nb) <= buf1.Length
    requires dst != buf1
    modifies dst
    ensures CommonState(dst[..], buf1[..], old(dst[..]), nb, if nc1 == 0 then 1 else nc1)
  {
    ghost var d0 := dst[..];
    ghost var n := if nc1 == 0 then 1 else nc1;
    CommonInit(nb, dst, buf1);
    var offset := nb;
    var pos := 1;
    while pos < nc1
      invariant 1 <= pos <= n && offset == Base(pos, nb)
      invariant CommonState(dst[..], buf1[..], d0, nb, pos)
    {
      var empty := CommonOne(nb, dst, buf1, pos, nc1, offset, d0);
      if empty {
        break;
      }
      offset := offset + nb;
      pos := pos + 1;
    }
  }

  /** The first step of common_cube: cube_copy of cube 0. */
  method CommonInit(nb: nat, dst: array<Word>, buf1: array<Word>)
    requires nb <= dst.Length && nb <= buf1.Length && dst != buf1
    modifies dst
    ensures CommonState(dst[..], buf1[..], old(dst[..]), nb, 1)
  {
    ghost var d0 := dst[..];
    CubeBuffer.CubeCopy(nb, dst, 0, buf1, 0);
    SpliceIndex(d0, 0, CubeAt(buf1[..], nb, 0));
    assert CubeAt(dst[..], nb, 0) == CubeAt(buf1[..], nb, 0);
    CommonFirst(buf1[..], nb);
  }

  /**
   * One turn of common_cube's outer loop: cube pos ANDed into cube 0 of
   * dst. When the result is empty, it is already the AND of all nc1 cubes.
   */
  method CommonOne(nb: nat, dst: array<Word>, buf1: array<Word>, pos: nat, nc1: nat, offset: nat,
                   ghost d0: seq<Word>)
    returns (empty: bool)
    requires 1 <= pos < nc1 && offset == Base(pos, nb) && Base(nc1, nb) <= buf1.Length
    requires dst != buf1
    requires CommonState(dst[..], buf1[..], d0, nb, pos)
    modifies dst
    ensures CommonState(dst[..], buf1[..], d0, nb, if empty then nc1 else pos + 1)
  {
    ghost var a := buf1[..];
    ghost var d := CubeAt(dst[..], nb, 0);
    CommonNext(d, a, nb, pos, nc1);
    ghost var y := CubeAt(a, nb, pos);
    ghost var r := AndCube(d, y);
    OrAllZero(r);
    CubeWords(buf1, nb, pos, offset);
    var tmp := AndInto(nb, dst, buf1, offset, d, y);
    empty := tmp == 0;
  }

  /** The words of cube pos, read through the array. */
  lemma CubeWords(b: array<Word>, nb: nat, pos: nat, off: nat)
    requires off == Base(pos, nb) && off + nb <= b.Length
    ensures forall k :: 0 <= k < nb ==> b[off + k] == CubeAt(b[..], nb, pos)[k]
  {
  }

  /** After cube k is ANDed in, the state holds at k + 1, or at n once the result is empty. */
  lemma CommonNext(d: Cube, a: seq<Word>, nb: nat, k: nat, n: nat)
    requires CommonSoFar(d, a, nb, k) && k < n && Base(n, nb) <= |a|
    ensures Base(k, nb) + nb <= |a|
    ensures CommonSoFar(AndCube(d, CubeAt(a, nb, k)), a, nb, if IsZero(AndCube(d, CubeAt(a, nb, k))) then n else k + 1)
  {
    BaseMono(k + 1, n, nb);
    CommonStep(d, a, nb, k);
    if IsZero(AndCube(d, CubeAt(a, nb, k))) {
      CommonZero(AndCube(d, CubeAt(a, nb, k)), a, nb, k + 1, n);
    }
  }

  /** The inner loop of common_cube: cube 0 of dst ANDed with the cube at word off; tmp ORs the results. */
  method AndInto(nb: nat, dst: array<Word>, buf1: array<Word>, off: nat, ghost x: Cube, ghost y: Cube)
    returns (tmp: Word)
    requires nb <= dst.Length && off + nb <= buf1.Length && |x| == nb && |y| == nb && dst != buf1
    requires CubeAt(dst[..], nb, 0) == x
    requires forall k :: 0 <= k < nb ==> buf1[off + k] == y[k]
    modifies dst
    ensures CubeAt(dst[..], nb, 0) == AndCube(x, y)
    ensures tmp == OrAll(AndCube(x, y))
    ensures forall k :: nb <= k < dst.Length ==> dst[k] == old(dst[k])
  {
    ghost var r := AndCube(x, y);
    ghost var d0 := dst[..];
    tmp := 0;
    for i := 0 to nb
      invariant forall k :: 0 <= k < dst.Length ==> dst[k] == if k < i then r[k] else d0[k]
      invariant tmp == OrAll(r[..i])
    {
      tmp := AndStep(nb, dst, buf1, off, i, x, y, d0, tmp);
    }
    assert r[..nb] == r;
    assert forall k :: 0 <= k < nb ==> CubeAt(dst[..], nb, 0)[k] == r[k];
  }

  /** One pass of the inner loop of common_cube: word i of cube 0 is ANDed with word i of the cube at off. */
  method AndStep(nb: nat, dst: array<Word>, buf1: array<Word>, off: nat, i: nat, ghost x: Cube, ghost y: Cube,
                 ghost d0: seq<Word>, tmp: Word)
    returns (tmp': Word)
    requires nb <= dst.Length == |d0| && off + nb <= buf1.Length && |x| == nb && |y| == nb && dst != buf1 && i < nb
    requires d0[..nb] == x
    requires forall k :: 0 <= k < nb ==> buf1[off + k] == y[k]
    requires forall k :: 0 <= k < dst.Length ==> dst[k] == if k < i then AndCube(x, y)[k] else d0[k]
    requires tmp == OrAll(AndCube(x, y)[..i])
    modifies dst
    ensures forall k :: 0 <= k < dst.Length ==> dst[k] == if k < i + 1 then AndCube(x, y)[k] else d0[k]
    ensures tmp' == OrAll(AndCube(x, y)[..i + 1])
  {
    ghost var r := AndCube(x, y);
    assert r[..i + 1][..i] == r[..i];
    assert d0[i] == x[i];
    var w := AndWord(dst[i], buf1[off + i]);
    assert w == r[i];
    dst[i] := w;
    tmp' := OrWord(tmp, w);
  }
}
