/**
 * The word-parallel cube operations of the manager (cube_product,
 * cube_division, cube_check_containment, cube_check_intersect and the
 * single-literal tests) and what each means field by field.
 *
 * A field is the two-bit value of one variable: 0 absent, 1 negative
 * literal, 2 positive literal, 3 conflict. A well-formed cube has no field 3.
 */
module CubeAlgebra {
  import opened CubeBits
  import opened CubeView

  /** The cube has no conflict field. */
  ghost predicate WellFormed(x: Cube)
  {
    forall i :: 0 <= i < |x| ==> NoConflict(x[i])
  }

  /** The all-absent cube of nb words: the cube of no literal. */
  function ZeroCube(nb: nat): (r: Cube)
    ensures |r| == nb && WellFormed(r)
  {
    seq(nb, i requires 0 <= i < nb => 0)
  }

  /** A cube whose words are all zero (no literal at all). */
  predicate IsZero(x: Cube)
  {
    forall i :: 0 <= i < |x| ==> x[i] == 0
  }

  // ---------------------------------------------------------------------
  // Product of two cubes
  // ---------------------------------------------------------------------

  /** The union of two words. */
  function OrWord(a: Word, b: Word): Word
  {
    a | b
  }

  /** The product test on one word: the union has no conflict bit. */
  predicate ProductFree(a: Word, b: Word)
  {
    ConflictFree(OrWord(a, b))
  }

  /** Word-wise OR: the literal union cube_product writes. */
  function OrCube(x: Cube, y: Cube): (r: Cube)
    requires |x| == |y|
    ensures |r| == |x|
  {
    seq(|x|, i requires 0 <= i < |x| => OrWord(x[i], y[i]))
  }

  /** cube_check_product: no word of the union has a conflict bit. */
  predicate ProductOk(x: Cube, y: Cube)
    requires |x| == |y|
  {
    forall i :: 0 <= i < |x| ==> ProductFree(x[i], y[i])
  }

  /**
   * What cube_product leaves in a destination cube z: it stores the OR
   * word by word and stops at the first word whose union clashes, so z
   * keeps its words from that one on. Without a clash this is OrCube(x, y).
   */
  function StoredProduct(x: Cube, y: Cube, z: Cube): (r: Cube)
    ensures |r| == |z|
    decreases |z|
  {
    if |z| == 0 then []
    else if |x| == 0 || |y| == 0 || !ProductFree(x[0], y[0]) then z
    else [OrWord(x[0], y[0])] + StoredProduct(x[1..], y[1..], z[1..])
  }

  /**
   * When the first i words of x and y do not clash and word i does (or i
   * is the last word), the stored cube has the OR words below i and the
   * words of z from i on.
   */
  lemma {:induction false} StoredPrefix(x: Cube, y: Cube, z: Cube, i: nat)
    requires |x| == |y| == |z| && i <= |z|
    requires forall k :: 0 <= k < i ==> ProductFree(x[k], y[k])
    requires i < |z| ==> !ProductFree(x[i], y[i])
    ensures forall k :: 0 <= k < |z| ==> StoredProduct(x, y, z)[k] == if k < i then OrWord(x[k], y[k]) else z[k]
  {
    if 0 < i {
      assert ProductFree(x[0], y[0]);
      StoredPrefix(x[1..], y[1..], z[1..], i - 1);
      var r := StoredProduct(x, y, z);
      assert r == [OrWord(x[0], y[0])] + StoredProduct(x[1..], y[1..], z[1..]);
      forall k | 1 <= k < |z|
        ensures r[k] == if k < i then OrWord(x[k], y[k]) else z[k]
      {
        assert r[k] == StoredProduct(x[1..], y[1..], z[1..])[k - 1];
      }
    }
  }

  /** A product without clash stores the whole union, whatever z held. */
  lemma StoredProductOk(x: Cube, y: Cube, z: Cube)
    requires |x| == |y| == |z| && ProductOk(x, y)
    ensures StoredProduct(x, y, z) == OrCube(x, y)
  {
    StoredPrefix(x, y, z, |z|);
  }

  /** Two field values that are literals of opposite polarities. */
  predicate Opposite(a: Word, b: Word)
  {
    (a == 1 && b == 2) || (a == 2 && b == 1)
  }

  /** No field of a holds the opposite literal of the same field of b. */
  ghost predicate NoOpposite(a: Word, b: Word)
  {
    forall k: bv7 :: k < 32 ==> !Opposite(Field(a, k), Field(b, k))
  }

  /**
   * The product test on one word passes exactly when no variable of the
   * word appears in the two operands with opposite polarities.
   */
  lemma WordProductOk(a: Word, b: Word)
    requires NoConflict(a) && NoConflict(b)
    ensures ConflictFree(a | b) <==> NoOpposite(a, b)
  {
    var c := a | b;
    ConflictFreeIff(c);
    forall k: bv7 | k < 32
      ensures Field(c, k) != 3 <==> !Opposite(Field(a, k), Field(b, k))
    {
      ProductField(a, b, k);
    }
  }

  lemma ProductField(a: Word, b: Word, k: bv7)
    requires k < 32 && Field(a, k) != 3 && Field(b, k) != 3
    ensures Field(a | b, k) != 3 <==> !Opposite(Field(a, k), Field(b, k))
  {
    FieldOr(a, b, k);
    FieldUnion(Field(a, k), Field(b, k));
  }

  lemma FieldUnion(fa: Word, fb: Word)
    requires fa < 3 && fb < 3
    ensures fa | fb != 3 <==> !Opposite(fa, fb)
  {
  }

  /**
   * On well-formed cubes the product test passes exactly when no variable
   * appears in the two cubes with opposite polarities.
   */
  lemma ProductOkIff(x: Cube, y: Cube)
    requires |x| == |y| && WellFormed(x) && WellFormed(y)
    ensures ProductOk(x, y) <==> forall i :: 0 <= i < |x| ==> NoOpposite(x[i], y[i])
  {
    forall i | 0 <= i < |x|
      ensures ProductFree(x[i], y[i]) <==> NoOpposite(x[i], y[i])
    {
      ProductFreeIff(x[i], y[i]);
    }
  }

  lemma ProductFreeIff(a: Word, b: Word)
    requires NoConflict(a) && NoConflict(b)
    ensures ProductFree(a, b) <==> NoOpposite(a, b)
  {
    WordProductOk(a, b);
  }

  /** A product that exists is well-formed. */
  lemma ProductWellFormed(x: Cube, y: Cube)
    requires |x| == |y| && ProductOk(x, y)
    ensures WellFormed(OrCube(x, y))
  {
    forall i | 0 <= i < |x|
      ensures NoConflict(OrCube(x, y)[i])
    {
      ConflictFreeIff(OrWord(x[i], y[i]));
    }
  }

  // ---------------------------------------------------------------------
  // Containment, quotient and intersection
  // ---------------------------------------------------------------------

  /**
   * cube_check_containment(x, y): every word of y is covered by x, that is
   * every literal of y is a literal of x (the function of x implies that
   * of y).
   */
  predicate Covers(x: Cube, y: Cube)
    requires |x| == |y|
  {
    forall i :: 0 <= i < |x| ==> WordCovers(x[i], y[i])
  }

  lemma CoversIff(x: Cube, y: Cube)
    requires |x| == |y| && WellFormed(x)
    ensures Covers(x, y) <==> forall i :: 0 <= i < |x| ==> FieldsWithin(y[i], x[i])
  {
    forall i | 0 <= i < |x|
      ensures WordCovers(x[i], y[i]) <==> FieldsWithin(y[i], x[i])
    {
      WordCoversIff(x[i], y[i]);
    }
  }

  /** One word of the quotient: a without the bits of b. */
  function QuotWord(a: Word, b: Word): Word
  {
    a & !b
  }

  /** The quotient cube_division writes: x without the bits of y. */
  function QuotCube(x: Cube, y: Cube): (r: Cube)
    requires |x| == |y|
    ensures |r| == |x|
  {
    seq(|x|, i requires 0 <= i < |x| => QuotWord(x[i], y[i]))
  }

  /**
   * When a covers b the quotient word keeps the literals of a that b lacks
   * and drops the ones b has.
   */
  lemma QuotField(a: Word, b: Word, k: bv7)
    requires NoConflict(a) && WordCovers(a, b) && k < 32
    ensures Field(a & !b, k) == if Field(b, k) == 0 then Field(a, k) else 0
  {
    WordCoversIff(a, b);
    assert a & !b == !b & a;
    QuotFieldAt(a, b, k);
  }

  lemma QuotFieldAt(a: Word, b: Word, k: bv7)
    requires k < 32 && Field(a, k) != 3 && (Field(b, k) == 0 || Field(b, k) == Field(a, k))
    ensures Field(!b & a, k) == if Field(b, k) == 0 then Field(a, k) else 0
  {
    FieldAndNot(b, a, k);
    FieldMinusLeft(Field(a, k), Field(b, k));
  }

  lemma FieldMinusLeft(fx: Word, fy: Word)
    requires fx <= 3 && (fy == 0 || fy == fx)
    ensures (3 ^ fy) & fx == if fy == 0 then fx else 0
  {
  }

  /** Multiplying the quotient back by the divisor gives the dividend. */
  lemma QuotTimesDivisor(x: Cube, y: Cube)
    requires |x| == |y| && Covers(x, y)
    ensures OrCube(QuotCube(x, y), y) == x
  {
    forall i | 0 <= i < |x|
      ensures OrCube(QuotCube(x, y), y)[i] == x[i]
    {
      WordQuotOr(x[i], y[i]);
    }
  }

  lemma WordQuotOr(a: Word, b: Word)
    requires WordCovers(a, b)
    ensures (a & !b) | b == a
  {
  }

  /** The quotient shares no bit with the divisor. */
  lemma QuotDisjoint(x: Cube, y: Cube)
    requires |x| == |y|
    ensures !Intersects(QuotCube(x, y), y)
  {
    forall i | 0 <= i < |x|
      ensures !WordMeets(QuotCube(x, y)[i], y[i])
    {
      WordQuotAnd(x[i], y[i]);
    }
  }

  lemma WordQuotAnd(a: Word, b: Word)
    ensures (a & !b) & b == 0
  {
  }

  /** The intersection test on one word: a bit set in both. */
  predicate WordMeets(a: Word, b: Word)
  {
    a & b != 0
  }

  /** cube_check_intersect: some word has a bit set in both cubes. */
  predicate Intersects(x: Cube, y: Cube)
    requires |x| == |y|
  {
    exists i :: 0 <= i < |x| && WordMeets(x[i], y[i])
  }

  /** Some field holds the same literal in a and b. */
  ghost predicate SharesLiteral(a: Word, b: Word)
  {
    exists k: bv7 :: k < 32 && Field(a, k) != 0 && Field(a, k) == Field(b, k)
  }

  /** Two well-formed words intersect exactly when they share a literal. */
  lemma WordIntersect(a: Word, b: Word)
    requires NoConflict(a) && NoConflict(b)
    ensures a & b != 0 <==> SharesLiteral(a, b)
  {
    WordIntersectIff(a, b);
    if a & b != 0 {
      var k: bv7 :| k < 32 && Field(a, k) & Field(b, k) != 0;
      CommonField(a, b, k);
    }
    if SharesLiteral(a, b) {
      var k: bv7 :| k < 32 && Field(a, k) != 0 && Field(a, k) == Field(b, k);
      SameField(Field(a, k));
    }
  }

  lemma CommonField(a: Word, b: Word, k: bv7)
    requires NoConflict(a) && NoConflict(b) && k < 32 && Field(a, k) & Field(b, k) != 0
    ensures Field(a, k) != 0 && Field(a, k) == Field(b, k)
  {
    FieldCommon(Field(a, k), Field(b, k));
  }

  lemma FieldCommon(fa: Word, fb: Word)
    requires fa < 3 && fb < 3 && fa & fb != 0
    ensures fa != 0 && fa == fb
  {
  }

  lemma SameField(f: Word)
    requires f != 0
    ensures f & f != 0
  {
  }

  /**
   * check_intersect: on well-formed cubes the test holds exactly when some
   * word of the two cubes holds a common literal, and it is symmetric.
   */
  lemma IntersectsIff(x: Cube, y: Cube)
    requires |x| == |y| && WellFormed(x) && WellFormed(y)
    ensures Intersects(x, y) <==> exists i :: 0 <= i < |x| && SharesLiteral(x[i], y[i])
    ensures Intersects(x, y) <==> Intersects(y, x)
  {
    forall i | 0 <= i < |x|
      ensures WordMeets(x[i], y[i]) <==> SharesLiteral(x[i], y[i])
      ensures WordMeets(x[i], y[i]) <==> WordMeets(y[i], x[i])
    {
      WordMeetsIff(x[i], y[i]);
    }
  }

  lemma WordMeetsIff(a: Word, b: Word)
    requires NoConflict(a) && NoConflict(b)
    ensures WordMeets(a, b) <==> SharesLiteral(a, b)
    ensures WordMeets(a, b) <==> WordMeets(b, a)
  {
    WordIntersect(a, b);
    assert a & b == b & a;
  }

  /** One word of the common cube: the bits set in both. */
  function AndWord(a: Word, b: Word): Word
  {
    a & b
  }

  /** Word-wise AND: what common_cube keeps of two cubes. */
  function AndCube(x: Cube, y: Cube): (r: Cube)
    requires |x| == |y|
    ensures |r| == |x|
  {
    seq(|x|, i requires 0 <= i < |x| => AndWord(x[i], y[i]))
  }

  /** The AND of two cubes is covered by each of them. */
  lemma AndCubeCovered(x: Cube, y: Cube)
    requires |x| == |y|
    ensures Covers(x, AndCube(x, y)) && Covers(y, AndCube(x, y))
  {
    forall i | 0 <= i < |x|
      ensures WordCovers(x[i], AndCube(x, y)[i]) && WordCovers(y[i], AndCube(x, y)[i])
    {
      WordAndCovered(x[i], y[i]);
    }
  }

  /** A cube covered by both operands is covered by their AND. */
  lemma AndCubeGreatest(x: Cube, y: Cube, z: Cube)
    requires |x| == |y| == |z| && Covers(x, z) && Covers(y, z)
    ensures Covers(AndCube(x, y), z)
  {
    forall i | 0 <= i < |x|
      ensures WordCovers(AndCube(x, y)[i], z[i])
    {
      WordAndGreatest(x[i], y[i], z[i]);
    }
  }

  /** Covering is transitive. */
  lemma CoversTrans(x: Cube, y: Cube, z: Cube)
    requires |x| == |y| == |z| && Covers(x, y) && Covers(y, z)
    ensures Covers(x, z)
  {
    forall i | 0 <= i < |x|
      ensures WordCovers(x[i], z[i])
    {
      WordCoversTrans(x[i], y[i], z[i]);
    }
  }

  lemma WordAndGreatest(a: Word, b: Word, c: Word)
    requires WordCovers(a, c) && WordCovers(b, c)
    ensures WordCovers(AndWord(a, b), c)
  {
  }

  lemma WordCoversTrans(a: Word, b: Word, c: Word)
    requires WordCovers(a, b) && WordCovers(b, c)
    ensures WordCovers(a, c)
  {
  }

  lemma WordAndCovered(a: Word, b: Word)
    ensures WordCovers(a, AndWord(a, b)) && WordCovers(b, AndWord(a, b))
  {
  }

  // ---------------------------------------------------------------------
  // One literal against a cube
  // ---------------------------------------------------------------------

  /** The polarity code of a literal: kAlgPolN for a negative one, else P. */
  function LitPol(neg: bool): AlgPol
  {
    if neg then PolN else PolP
  }

  /** The pattern of literal (v, neg) in its word. */
  function LitMask(v: nat, neg: bool): Word
  {
    PolMask(LitPol(neg), v)
  }

  /**
   * The literal test of literal_num(lit) and is_in: (w & pat) == pat holds
   * exactly when the literal's bit is set; in a conflict-free word that
   * means the field holds that very literal.
   */
  lemma LitBitIff(w: Word, v: nat, neg: bool)
    requires VarField(w, v) != 3
    ensures (w & LitMask(v, neg) == LitMask(v, neg)) <==> VarField(w, v) == PolCode(LitPol(neg))
  {
    LitBitField(w, PolCode(LitPol(neg)), FieldIdx(v));
  }

  lemma LitBitField(w: Word, c: Word, k: bv7)
    requires (c == 1 || c == 2) && k < 32 && Field(w, k) != 3
    ensures (w & (c << (2 * k)) == c << (2 * k)) <==> Field(w, k) == c
  {
  }

  /**
   * The exact-field test of division(lit): (w & mask) == pat holds exactly
   * when the field of v is the literal's polarity.
   */
  lemma LitFieldIff(w: Word, v: nat, neg: bool)
    ensures (w & VarMask(v) == LitMask(v, neg)) <==> VarField(w, v) == PolCode(LitPol(neg))
  {
    ExactField(w, PolCode(LitPol(neg)), FieldIdx(v));
  }

  lemma ExactField(w: Word, c: Word, k: bv7)
    requires c <= 3 && k < 32
    ensures (w & (3 << (2 * k)) == c << (2 * k)) <==> Field(w, k) == c
  {
  }

  /**
   * The conflict test of product(lit): setting the literal's bit makes both
   * bits of the field 1 exactly when the field held the opposite literal.
   */
  lemma LitConflictIff(w: Word, v: nat, neg: bool)
    requires VarField(w, v) != 3
    ensures ((w | LitMask(v, neg)) & VarMask(v) == VarMask(v)) <==> VarField(w, v) == PolCode(LitPol(!neg))
  {
    ConflictField(w, PolCode(LitPol(neg)), FieldIdx(v));
  }

  lemma ConflictField(w: Word, c: Word, k: bv7)
    requires (c == 1 || c == 2) && k < 32 && Field(w, k) != 3
    ensures ((w | (c << (2 * k))) & (3 << (2 * k)) == 3 << (2 * k)) <==> Field(w, k) == 3 - c
  {
  }
}
