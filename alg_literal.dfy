/**
 * AlgLiteral (include/ym/AlgLiteral.h) and BfoLiteral
 * (include/ym/BfoLiteral.h): a literal packed into one 32-bit unsigned word
 * as 2 * varid + inv. The two classes have the same body member by member
 * and are modelled by one type. The bit operations on the body are written
 * as the arithmetic they perform: >> 1 is / 2, & 1 is % 2, ^ 1, & ~1 and
 * | 1 change only the low bit.
 */
module AlgLiterals {

  /** ymuint: a 32-bit unsigned word. */
  type U32 = x: int | 0 <= x < 0x1_0000_0000

  /** The literal is a value: set() replaces its only field, mBody. */
  datatype AlgLiteral = AlgLiteral(body: U32)

  /** BfoLiteral: the same declaration under another name. */
  type BfoLiteral = AlgLiteral

  /** The default constructor and kAlgLiteralUndef: body 0xfffffffe. */
  function Undef(): (r: AlgLiteral)
    ensures r.body == 0xffff_fffe
    ensures VarId(r) == 0x7fff_ffff && IsPositive(r)
  {
    AlgLiteral(0xffff_fffe)
  }

  /**
   * set(varid, inv) and AlgLiteral(varid, inv): (varid << 1) + inv in
   * 32-bit unsigned arithmetic, so the top bit of varid is lost.
   */
  function Make(varid: U32, inv: bool): (r: AlgLiteral)
    ensures VarId(r) == varid % 0x8000_0000 && IsNegative(r) == inv
  {
    AlgLiteral((2 * varid + (if inv then 1 else 0)) % 0x1_0000_0000)
  }

  /** The internal constructor AlgLiteral(body) and index2literal. */
  function Index2Literal(index: U32): (r: AlgLiteral)
    ensures Index(r) == index
  {
    AlgLiteral(index)
  }

  /** varid(): mBody >> 1. */
  function VarId(l: AlgLiteral): U32
  {
    l.body / 2
  }

  /** is_negative(): the low bit. */
  predicate IsNegative(l: AlgLiteral)
  {
    l.body % 2 == 1
  }

  /** is_positive(): not negative. */
  predicate IsPositive(l: AlgLiteral)
  {
    !IsNegative(l)
  }

  /** operator~: the low bit flipped. */
  function Flip(l: AlgLiteral): (r: AlgLiteral)
    ensures VarId(r) == VarId(l) && IsNegative(r) == !IsNegative(l)
  {
    AlgLiteral(if l.body % 2 == 0 then l.body + 1 else l.body - 1)
  }

  /** make_positive(): the low bit cleared. */
  function MakePositive(l: AlgLiteral): (r: AlgLiteral)
    ensures VarId(r) == VarId(l) && IsPositive(r)
  {
    AlgLiteral(l.body - l.body % 2)
  }

  /** make_negative(): the low bit set. */
  function MakeNegative(l: AlgLiteral): (r: AlgLiteral)
    ensures VarId(r) == VarId(l) && IsNegative(r)
  {
    AlgLiteral(l.body - l.body % 2 + 1)
  }

  /** index() and hash(): the body itself. */
  function Index(l: AlgLiteral): U32
  {
    l.body
  }

  function Hash(l: AlgLiteral): (r: U32)
    ensures r == Index(l)
  {
    l.body
  }

  /** compare: the indexes compared as unsigned numbers. */
  function Compare(l1: AlgLiteral, l2: AlgLiteral): (r: int)
    ensures r == -1 <==> Index(l1) < Index(l2)
    ensures r == 1 <==> Index(l1) > Index(l2)
    ensures r == 0 <==> l1 == l2
  {
    if Index(l1) < Index(l2) then -1
    else if Index(l1) > Index(l2) then 1
    else 0
  }

  /** operator== and operator!=. */
  predicate Eq(l1: AlgLiteral, l2: AlgLiteral)
  {
    Compare(l1, l2) == 0
  }

  predicate Ne(l1: AlgLiteral, l2: AlgLiteral)
  {
    !Eq(l1, l2)
  }

  /** operator< and the three relations derived from it. */
  predicate Lt(l1: AlgLiteral, l2: AlgLiteral)
  {
    Compare(l1, l2) == -1
  }

  predicate Gt(l1: AlgLiteral, l2: AlgLiteral)
  {
    Lt(l2, l1)
  }

  predicate Le(l1: AlgLiteral, l2: AlgLiteral)
  {
    !Lt(l2, l1)
  }

  predicate Ge(l1: AlgLiteral, l2: AlgLiteral)
  {
    !Lt(l1, l2)
  }

  // ---------------------------------------------------------------------
  // Properties
  // ---------------------------------------------------------------------

  /** A literal is rebuilt from its variable and polarity. */
  lemma MakeRoundTrip(l: AlgLiteral)
    ensures Make(VarId(l), IsNegative(l)) == l
  {
  }

  /** A variable below 2^31 survives the packing unchanged. */
  lemma MakeVarId(varid: U32, inv: bool)
    requires varid < 0x8000_0000
    ensures VarId(Make(varid, inv)) == varid
  {
  }

  /** The first variable the packing cannot hold. */
  lemma MakeWraps()
    ensures VarId(Make(0x8000_0000, false)) == 0 && VarId(Make(0x8000_0003, true)) == 3
  {
  }

  lemma FlipInvolution(l: AlgLiteral)
    ensures Flip(Flip(l)) == l && Flip(l) != l
  {
  }

  lemma MakePolarityIdempotent(l: AlgLiteral)
    ensures MakePositive(MakePositive(l)) == MakePositive(l)
    ensures MakeNegative(MakeNegative(l)) == MakeNegative(l)
    ensures IsPositive(l) ==> MakePositive(l) == l
    ensures IsNegative(l) ==> MakeNegative(l) == l
    ensures Flip(MakePositive(l)) == MakeNegative(l)
  {
  }

  lemma Index2LiteralRoundTrip(l: AlgLiteral)
    ensures Index2Literal(Index(l)) == l
  {
  }

  /** == is equality of the bodies; < is a strict total order. */
  lemma CompareOrder(l1: AlgLiteral, l2: AlgLiteral, l3: AlgLiteral)
    ensures Eq(l1, l2) <==> l1.body == l2.body
    ensures Compare(l1, l2) == -Compare(l2, l1)
    ensures Lt(l1, l2) && Lt(l2, l3) ==> Lt(l1, l3)
    ensures Lt(l1, l2) || Eq(l1, l2) || Gt(l1, l2)
  {
  }

  /** The derived relations agree with compare. */
  lemma RelationsAgree(l1: AlgLiteral, l2: AlgLiteral)
    ensures Gt(l1, l2) <==> Compare(l1, l2) == 1
    ensures Le(l1, l2) <==> Compare(l1, l2) <= 0
    ensures Ge(l1, l2) <==> Compare(l1, l2) >= 0
    ensures Ne(l1, l2) <==> l1 != l2
  {
  }
}
