/**
 * AlgCube and AlgLitSet (include/ym/AlgCube.h, include/ym/AlgLitSet.h):
 * objects that own a body of one cube (nb words) and hand every operation
 * to their manager. The value of such an object is the cube in its body;
 * read as a set of literals it holds literal l when InCube does.
 */
module AlgCubes {
  import opened CubeBits
  import opened CubeView
  import opened CubeAlgebra
  import opened CubeOrder
  import opened AlgLiterals
  import opened SopText
  import opened SopPrint
  import CubeBuffer
  import CubeOps
  import LitOps
  import CoverProduct
  import CoverDivision
  import M = AlgMgrNew

  // ---------------------------------------------------------------------
  // Literal lists
  // ---------------------------------------------------------------------

  /** Every literal of the list other than a separator names a variable below varNum. */
  predicate LitsBelow(lits: seq<AlgLiteral>, varNum: nat)
  {
    forall i :: 0 <= i < |lits| && lits[i] != Undef() ==> VarId(lits[i]) < varNum
  }

  /** The literals parse produces come from the name table, so they name known variables. */
  lemma {:induction false} ScanBelow(s: string, m: map<string, nat>, varNum: nat)
    requires Bounded(m) && forall n :: n in m ==> m[n] < varNum
    requires Scan(s, m).Some?
    ensures LitsBelow(Scan(s, m).value, varNum)
    decreases |s|
  {
    if |s| == 0 || s[0] == '\0' {
    } else if IsSpace(s[0]) {
      ScanBelow(s[1..], m, varNum);
    } else if NameChar(s[0]) {
      var n := NameLen(s);
      var neg := n < |s| && s[n] == '\'';
      var rest := if neg then s[n + 1..] else s[n..];
      ScanBelow(rest, m, varNum);
      var l := Make(m[s[..n]], neg);
      assert Scan(s, m).value == [l] + Scan(rest, m).value;
    } else if s[0] == '+' {
      ScanBelow(s[1..], m, varNum);
      assert Scan(s, m).value == [Undef()] + Scan(s[1..], m).value;
    }
  }

  /** The cursors set_literal uses for a list of one cube (runs counted as parse counts them). */
  function ListCursors(lits: seq<AlgLiteral>): (at: seq<nat>)
    ensures |at| == |lits|
  {
    LitOps.RunCursors(0, LitOps.Before, lits)
  }

  /**
   * The cube a literal list of at most one run leaves in a cleared body:
   * the pattern of each literal ORed into its word.
   */
  ghost function ListCube(nb: nat, lits: seq<AlgLiteral>): (x: Cube)
    ensures |x| == nb
  {
    if LitOps.Fits(nb, nb, lits, ListCursors(lits)) then LitOps.Place(ZeroCube(nb), nb, lits, ListCursors(lits))
    else ZeroCube(nb)
  }

  /** A list of known variables with at most one run fits in one cube. */
  lemma ListFits(nb: nat, varNum: nat, lits: seq<AlgLiteral>)
    requires nb == CubeSize(varNum) && LitsBelow(lits, varNum) && LitOps.RunCount(lits) <= 1
    ensures LitOps.Fits(nb, nb, lits, ListCursors(lits))
  {
    forall i | 0 <= i < |lits| && lits[i] != Undef()
      ensures LitOps.Blk(lits[i]) < nb
    {
      BlockInCube(varNum, VarId(lits[i]));
    }
    assert Base(0 + LitOps.RunCount(lits), nb) <= nb;
    LitOps.RunCursorsFit(nb, nb, 0, lits);
  }

  /** The cleared cube holds no literal. */
  lemma ZeroHasNone(nb: nat, l: AlgLiteral)
    requires LitOps.Blk(l) < nb
    ensures !LitOps.InCube(ZeroCube(nb), l)
  {
    LitOps.LitOneBit(l);
    NoBitInZero(LitOps.LitWord(l));
  }

  lemma NoBitInZero(m: Word)
    requires LitOps.OneBit(m)
    ensures !LitOps.MaskIn(0, m)
  {
  }

  /** The cube of a one-run list holds exactly the literals of the list. */
  lemma ListCubeMembers(nb: nat, varNum: nat, lits: seq<AlgLiteral>, l: AlgLiteral)
    requires nb == CubeSize(varNum) && LitsBelow(lits, varNum) && LitOps.RunCount(lits) <= 1
    requires l != Undef() && VarId(l) < varNum
    ensures LitOps.Blk(l) < nb
    ensures LitOps.InCube(ListCube(nb, lits), l) <==> l in lits
  {
    BlockInCube(varNum, VarId(l));
    ListFits(nb, varNum, lits);
    var at := ListCursors(lits);
    var z := ZeroCube(nb);
    LitOps.PlaceMembers(z, nb, lits, at, l, 0);
    assert CubeAt(z, nb, 0) == z;
    assert CubeAt(ListCube(nb, lits), nb, 0) == ListCube(nb, lits);
    ZeroHasNone(nb, l);
    if l in lits {
      var i :| 0 <= i < |lits| && lits[i] == l;
      LitOps.RunCursorsInBody(0, lits, i);
      assert LitOps.Lands(lits, at, l, 0);
    }
  }

  /** On a cube without a 11 field, the field of a literal's variable equals its polarity exactly when the literal is in it. */
  lemma FieldIffIn(a: seq<Word>, nb: nat, l: AlgLiteral)
    requires LitOps.Blk(l) < nb <= |a|
    ensures Base(0, nb) + nb <= |a|
    ensures WellFormed(CubeAt(a, nb, 0)) ==>
              (LitOps.Literal(a, nb, 0, VarId(l)) == (if IsPositive(l) then 2 else 1) <==> LitOps.InCube(CubeAt(a, nb, 0), l))
  {
    if WellFormed(CubeAt(a, nb, 0)) {
      LitOps.LiteralIffIn(a, nb, 0, l);
    }
  }

  /** product(lit) as written, applied in place to a single cube, is the intended product. */
  lemma WrittenInPlace(x: Cube, nb: nat, l: AlgLiteral)
    requires |x| == nb && LitOps.Blk(l) < nb
    ensures CoverProduct.WrittenProducts([x], [x], nb, l) == CoverProduct.LitProducts([x], nb, l)
    ensures CoverProduct.LitProducts([x], nb, l) == if CoverProduct.Clashes(x, l) then [] else [LitOps.AddToCube(x, l)]
  {
    assert [x][..0] == [];
    assert x[0 := x[0]] == x;
    assert CoverProduct.WrittenCube(x, x, l) == LitOps.AddToCube(x, l);
  }

  /** division(lit) of a single cube: its quotient when it holds the literal, nothing otherwise. */
  lemma QuotientOfOne(x: Cube, nb: nat, l: AlgLiteral)
    requires |x| == nb && LitOps.Blk(l) < nb
    ensures CoverDivision.LitQuotients([x], nb, l) ==
            if CoverDivision.HoldsLit(x, l) then [CoverDivision.DropLit(x, l)] else []
  {
    assert [x][..0] == [];
  }

  // ---------------------------------------------------------------------
  // AlgCube
  // ---------------------------------------------------------------------

  class AlgCube {
    /** mMgr, which operator= rebinds */
    var mgr: M.AlgMgr
    /** mBody: one cube */
    var body: array<Word>

    ghost predicate Valid()
      reads this, mgr
    {
      mgr.Valid() && body.Length == mgr.nb && body != mgr.tmpBuff
    }

    /** The cube the body holds. */
    ghost function Value(): (x: Cube)
      requires body.Length == mgr.nb
      reads this, body
      ensures |x| == mgr.nb
    {
      CubeAt(body[..], mgr.nb, 0)
    }

    /** AlgCube(mgr, lit_list): the literals of the list, the empty cube for the empty list. */
    constructor FromList(m: M.AlgMgr, lits: seq<AlgLiteral>)
      requires m.Valid() && LitsBelow(lits, m.varNum) && LitOps.RunCount(lits) <= 1
      ensures Valid() && mgr == m && fresh(body)
      ensures Value() == ListCube(m.nb, lits)
    {
      mgr := m;
      var b := new Word[m.nb](_ => 0);
      assert b[..] == ZeroCube(m.nb);
      ListFits(m.nb, m.varNum, lits);
      LitOps.SetLiteralRuns(m.nb, b, 0, lits);
      body := b;
    }

    /** AlgCube(mgr, lit): the cube of that literal alone. */
    constructor FromLit(m: M.AlgMgr, lit: AlgLiteral)
      requires m.Valid() && VarId(lit) < m.varNum
      ensures Valid() && mgr == m && fresh(body)
      ensures Value() == ListCube(m.nb, [lit])
    {
      mgr := m;
      var b := new Word[m.nb](_ => 0);
      assert b[..] == ZeroCube(m.nb);
      assert LitOps.RunCount([lit]) <= 1;
      ListFits(m.nb, m.varNum, [lit]);
      LitOps.SetLiteralRuns(m.nb, b, 0, [lit]);
      body := b;
    }

    /**
     * AlgCube(mgr, str): the cube the text describes when it parses to
     * exactly one cube, the empty cube otherwise.
     */
    constructor FromText(m: M.AlgMgr, str: string)
      requires m.Valid()
      ensures Valid() && mgr == m && fresh(body)
      ensures Bounded(m.nameMap)
      ensures var r := Scan(str, m.nameMap);
              if r.Some? && LitOps.RunCount(r.value) == 1 then Value() == ListCube(m.nb, r.value)
              else Value() == ZeroCube(m.nb)
    {
      mgr := m;
      var b := new Word[m.nb](_ => 0);
      assert b[..] == ZeroCube(m.nb);
      var lits, n := m.Parse(str);
      if n == 1 {
        ScanBelow(str, m.nameMap, m.varNum);
        ListFits(m.nb, m.varNum, lits);
        LitOps.SetLiteralRuns(m.nb, b, 0, lits);
      }
      body := b;
    }

    /** AlgCube(mgr, body): an object around a body built by the caller. */
    constructor Internal(m: M.AlgMgr, b: array<Word>)
      requires m.Valid() && b.Length == m.nb && b != m.tmpBuff
      ensures Valid() && mgr == m && body == b
    {
      mgr := m;
      body := b;
    }

    /** The copy constructor: a new body holding the same cube. */
    constructor Copy(src: AlgCube)
      requires src.Valid()
      ensures Valid() && mgr == src.mgr && fresh(body)
      ensures Value() == src.Value()
    {
      mgr := src.mgr;
      var b := new Word[src.mgr.nb](_ => 0);
      CubeBuffer.CubeCopy(src.mgr.nb, b, 0, src.body, 0);
      body := b;
      assert b[..] == src.body[0..src.mgr.nb];
    }

    /**
     * operator=: this object takes src's manager and a copy of its cube;
     * src may belong to another manager. The guard `&mMgr != &src.mMgr`
     * compares the addresses of two different fields, so the branch that
     * takes a new body of src's manager is the one that always runs.
     */
    method Assign(src: AlgCube)
      requires Valid() && src.Valid()
      modifies this
      ensures Valid() && mgr == old(src.mgr) && Value() == old(src.Value())
      ensures src != this ==> fresh(body)
      ensures src == this ==> body == old(body)
    {
      if src != this {
        var b := new Word[src.mgr.nb](_ => 0);
        CubeBuffer.CubeCopy(src.mgr.nb, b, 0, src.body, 0);
        assert b[..] == src.body[0..src.mgr.nb];
        mgr := src.mgr;
        body := b;
      }
    }

    /** literal_num(): the number of literals of the cube, counted byte by byte. */
    method LiteralNum() returns (n: nat)
      requires Valid()
      ensures n == LitOps.WordsCount(Value())
    {
      n := LitOps.LiteralNum(mgr.nb, 1, body);
      assert body[..Base(1, mgr.nb)] == Value();
    }

    /** literal(pos): the 2-bit field of a variable. */
    function Literal(v: nat): (r: Word)
      requires Valid() && v < mgr.varNum
      reads this, mgr, body
      ensures r <= 3 && (WellFormed(Value()) ==> r != 3)
    {
      BlockInCube(mgr.varNum, v);
      LitOps.Literal(body[..], mgr.nb, 0, v)
    }

    /** has_literal(lit): the field of the literal's variable equals its polarity. */
    function HasLiteral(lit: AlgLiteral): (r: bool)
      requires Valid() && VarId(lit) < mgr.varNum
      reads this, mgr, body
      ensures LitOps.Blk(lit) < mgr.nb
      ensures WellFormed(Value()) ==> (r <==> LitOps.InCube(Value(), lit))
    {
      BlockInCube(mgr.varNum, VarId(lit));
      var f := Literal(VarId(lit));
      FieldIffIn(body[..], mgr.nb, lit);
      if IsPositive(lit) then f == 2 else f == 1
    }

    /** check_containment(right): every literal of right is in this cube. */
    method CheckContainment(right: AlgCube) returns (r: bool)
      requires Valid() && right.Valid() && right.mgr.varNum == mgr.varNum
      ensures r == Covers(Value(), right.Value())
    {
      r := CubeOps.CubeCheckContainment(mgr.nb, body, 0, right.body, 0);
    }

    /** check_intersect(right): the two cubes share a literal. */
    method CheckIntersect(right: AlgCube) returns (r: bool)
      requires Valid() && right.Valid() && right.mgr.varNum == mgr.varNum
      ensures r == Intersects(Value(), right.Value())
    {
      r := CubeOps.CubeCheckIntersect(mgr.nb, body, 0, right.body, 0);
    }

    /** contains(lit_set): the cube shares a literal with the set. */
    method Contains(right: AlgLitSet) returns (r: bool)
      requires Valid() && right.Valid() && right.mgr.varNum == mgr.varNum
      ensures r == Intersects(Value(), right.Value())
    {
      r := CubeOps.CubeCheckIntersect(mgr.nb, body, 0, right.body, 0);
    }

    /** operator*=(cube): the union of the literals, or the empty cube on opposite literals. */
    method TimesCube(right: AlgCube)
      requires Valid() && right.Valid() && right.mgr.varNum == mgr.varNum
      modifies body
      ensures Valid()
      ensures Value() == if ProductOk(old(Value()), old(right.Value())) then OrCube(old(Value()), old(right.Value()))
                         else ZeroCube(mgr.nb)
    {
      var ok := CubeOps.CubeProduct(mgr.nb, body, 0, body, 0, right.body, 0);
      if !ok {
        CubeOps.CubeClear(mgr.nb, body, 0);
      }
      assert body[..] == body[..][0..mgr.nb];
    }

    /**
     * operator*=(lit): product(lit) on the one cube in place, emptied when
     * the cube holds the opposite literal.
     */
    method TimesLit(lit: AlgLiteral)
      requires Valid() && VarId(lit) < mgr.varNum
      modifies body
      ensures Valid() && LitOps.Blk(lit) < mgr.nb
      ensures Value() == if CoverProduct.Clashes(old(Value()), lit) then ZeroCube(mgr.nb)
                         else LitOps.AddToCube(old(Value()), lit)
    {
      BlockInCube(mgr.varNum, VarId(lit));
      ghost var x := Value();
      CubesOne(body[..], mgr.nb, 0);
      var res := mgr.ProductLit(body, 1, body, lit);
      WrittenInPlace(x, mgr.nb, lit);
      if res == 0 {
        CubeOps.CubeClear(mgr.nb, body, 0);
        assert body[..] == body[..][0..mgr.nb];
      } else {
        CubesOne(body[..], mgr.nb, 0);
      }
    }

    /** operator/=(cube): the set difference, or the empty cube when right is not part of this cube. */
    method QuotientCube(right: AlgCube)
      requires Valid() && right.Valid() && right.mgr.varNum == mgr.varNum
      modifies body
      ensures Valid()
      ensures Value() == if Covers(old(Value()), old(right.Value())) then QuotCube(old(Value()), old(right.Value()))
                         else ZeroCube(mgr.nb)
    {
      var ok := CubeOps.CubeDivision(mgr.nb, body, 0, body, 0, right.body, 0);
      if !ok {
        CubeOps.CubeClear(mgr.nb, body, 0);
      }
      assert body[..] == body[..][0..mgr.nb];
    }

    /** operator/=(lit): the literal removed, or the empty cube when the cube lacks it. */
    method QuotientLit(lit: AlgLiteral)
      requires Valid() && VarId(lit) < mgr.varNum
      modifies body
      ensures Valid() && LitOps.Blk(lit) < mgr.nb
      ensures Value() == if CoverDivision.HoldsLit(old(Value()), lit) then CoverDivision.DropLit(old(Value()), lit)
                         else ZeroCube(mgr.nb)
    {
      BlockInCube(mgr.varNum, VarId(lit));
      ghost var x := Value();
      CubesOne(body[..], mgr.nb, 0);
      var res := mgr.DivisionLit(body, 1, body, lit);
      QuotientOfOne(x, mgr.nb, lit);
      if res == 0 {
        CubeOps.CubeClear(mgr.nb, body, 0);
        assert body[..] == body[..][0..mgr.nb];
      } else {
        CubesOne(body[..], mgr.nb, 0);
      }
    }

    /** hash(): the hash of the cube's words. */
    method Hash() returns (h: Word)
      requires Valid()
      ensures h == LitOps.WordsHash(Value()) && h < 0x1_0000
    {
      h := LitOps.CoverHash(mgr.nb, 1, body);
      assert body[..Base(1, mgr.nb)] == Value();
    }

    /** print(s): the text of the one cube. */
    method Print() returns (s: string)
      requires Valid()
      ensures s == CubeOut(Value(), mgr.varNum, mgr.varNames)
    {
      s := mgr.Print(body, 0, 1);
    }
  }

  // ---------------------------------------------------------------------
  // Relations between cubes
  // ---------------------------------------------------------------------

  /** compare(left, right): the word-by-word order of the two cubes. */
  method Compare(left: AlgCube, right: AlgCube) returns (r: int)
    requires left.Valid() && right.Valid() && left.mgr.varNum == right.mgr.varNum
    ensures r == CubeCompare(left.Value(), right.Value())
  {
    r := CubeBuffer.CubeCompareAt(left.mgr.nb, left.body, 0, right.body, 0);
  }

  /** operator==: the same cube. */
  method Equal(left: AlgCube, right: AlgCube) returns (r: bool)
    requires left.Valid() && right.Valid() && left.mgr.varNum == right.mgr.varNum
    ensures r <==> left.Value() == right.Value()
  {
    var c := Compare(left, right);
    CompareZeroIff(left.Value(), right.Value());
    r := c == 0;
  }

  /** operator!=: different cubes. */
  method NotEqual(left: AlgCube, right: AlgCube) returns (r: bool)
    requires left.Valid() && right.Valid() && left.mgr.varNum == right.mgr.varNum
    ensures r <==> left.Value() != right.Value()
  {
    var c := Compare(left, right);
    CompareZeroIff(left.Value(), right.Value());
    r := c != 0;
  }

  /** operator<: left comes before right. */
  method Less(left: AlgCube, right: AlgCube) returns (r: bool)
    requires left.Valid() && right.Valid() && left.mgr.varNum == right.mgr.varNum
    ensures r <==> CubeCompare(left.Value(), right.Value()) < 0
  {
    var c := Compare(left, right);
    r := c < 0;
  }

  /** operator>: right comes before left, so the relation is operator< with its operands swapped. */
  method Greater(left: AlgCube, right: AlgCube) returns (r: bool)
    requires left.Valid() && right.Valid() && left.mgr.varNum == right.mgr.varNum
    ensures r <==> CubeCompare(right.Value(), left.Value()) < 0
  {
    var c := Compare(left, right);
    CompareAntisym(left.Value(), right.Value());
    r := c > 0;
  }

  /** operator<=: not operator> . */
  method LessEq(left: AlgCube, right: AlgCube) returns (r: bool)
    requires left.Valid() && right.Valid() && left.mgr.varNum == right.mgr.varNum
    ensures r <==> !(CubeCompare(right.Value(), left.Value()) < 0)
  {
    var c := Compare(left, right);
    CompareAntisym(left.Value(), right.Value());
    r := c <= 0;
  }

  /** operator>=: not operator< . */
  method GreaterEq(left: AlgCube, right: AlgCube) returns (r: bool)
    requires left.Valid() && right.Valid() && left.mgr.varNum == right.mgr.varNum
    ensures r <==> !(CubeCompare(left.Value(), right.Value()) < 0)
  {
    var c := Compare(left, right);
    r := c >= 0;
  }

  /** operator*(left, right): a copy of left multiplied by right; left is unchanged. */
  method Product(left: AlgCube, right: AlgCube) returns (r: AlgCube)
    requires left.Valid() && right.Valid() && left.mgr.varNum == right.mgr.varNum
    ensures fresh(r) && fresh(r.body) && r.Valid() && r.mgr == left.mgr
    ensures r.Value() == if ProductOk(left.Value(), right.Value()) then OrCube(left.Value(), right.Value())
                         else ZeroCube(left.mgr.nb)
  {
    r := new AlgCube.Copy(left);
    r.TimesCube(right);
  }

  /** operator/(left, right): a copy of left divided by right; left is unchanged. */
  method Quotient(left: AlgCube, right: AlgCube) returns (r: AlgCube)
    requires left.Valid() && right.Valid() && left.mgr.varNum == right.mgr.varNum
    ensures fresh(r) && fresh(r.body) && r.Valid() && r.mgr == left.mgr
    ensures r.Value() == if Covers(left.Value(), right.Value()) then QuotCube(left.Value(), right.Value())
                         else ZeroCube(left.mgr.nb)
  {
    r := new AlgCube.Copy(left);
    r.QuotientCube(right);
  }

  /** operator*(left, lit): a copy of left times the literal; left is unchanged. */
  method ProductLit(left: AlgCube, lit: AlgLiteral) returns (r: AlgCube)
    requires left.Valid() && VarId(lit) < left.mgr.varNum
    ensures fresh(r) && fresh(r.body) && r.Valid() && r.mgr == left.mgr && LitOps.Blk(lit) < left.mgr.nb
    ensures r.Value() == if CoverProduct.Clashes(left.Value(), lit) then ZeroCube(left.mgr.nb)
                         else LitOps.AddToCube(left.Value(), lit)
  {
    r := new AlgCube.Copy(left);
    r.TimesLit(lit);
  }

  /** operator/(left, lit): a copy of left divided by the literal; left is unchanged. */
  method QuotientLit(left: AlgCube, lit: AlgLiteral) returns (r: AlgCube)
    requires left.Valid() && VarId(lit) < left.mgr.varNum
    ensures fresh(r) && fresh(r.body) && r.Valid() && r.mgr == left.mgr && LitOps.Blk(lit) < left.mgr.nb
    ensures r.Value() == if CoverDivision.HoldsLit(left.Value(), lit) then CoverDivision.DropLit(left.Value(), lit)
                         else ZeroCube(left.mgr.nb)
  {
    r := new AlgCube.Copy(left);
    r.QuotientLit(lit);
  }

  // ---------------------------------------------------------------------
  // AlgLitSet
  // ---------------------------------------------------------------------

  /** A set of literals in the one-cube layout; x and x' may both be present. */
  class AlgLitSet {
    var mgr: M.AlgMgr
    var body: array<Word>

    ghost predicate Valid()
      reads this, mgr
    {
      mgr.Valid() && body.Length == mgr.nb && body != mgr.tmpBuff
    }

    ghost function Value(): (x: Cube)
      requires body.Length == mgr.nb
      reads this, body
      ensures |x| == mgr.nb
    {
      CubeAt(body[..], mgr.nb, 0)
    }

    /** AlgLitSet(mgr, lit_list): the literals of the list. */
    constructor FromList(m: M.AlgMgr, lits: seq<AlgLiteral>)
      requires m.Valid() && LitsBelow(lits, m.varNum) && LitOps.RunCount(lits) <= 1
      ensures Valid() && mgr == m && fresh(body)
      ensures Value() == ListCube(m.nb, lits)
    {
      mgr := m;
      var b := new Word[m.nb](_ => 0);
      assert b[..] == ZeroCube(m.nb);
      ListFits(m.nb, m.varNum, lits);
      LitOps.SetLiteralRuns(m.nb, b, 0, lits);
      body := b;
    }

    /** AlgLitSet(mgr, lit): the set of that literal alone. */
    constructor FromLit(m: M.AlgMgr, lit: AlgLiteral)
      requires m.Valid() && VarId(lit) < m.varNum
      ensures Valid() && mgr == m && fresh(body)
      ensures Value() == ListCube(m.nb, [lit])
    {
      mgr := m;
      var b := new Word[m.nb](_ => 0);
      assert b[..] == ZeroCube(m.nb);
      assert LitOps.RunCount([lit]) <= 1;
      ListFits(m.nb, m.varNum, [lit]);
      LitOps.SetLiteralRuns(m.nb, b, 0, [lit]);
      body := b;
    }

    /** The copy constructor. */
    constructor Copy(src: AlgLitSet)
      requires src.Valid()
      ensures Valid() && mgr == src.mgr && fresh(body)
      ensures Value() == src.Value()
    {
      mgr := src.mgr;
      var b := new Word[src.mgr.nb](_ => 0);
      CubeBuffer.CubeCopy(src.mgr.nb, b, 0, src.body, 0);
      body := b;
      assert b[..] == src.body[0..src.mgr.nb];
    }

    /** operator=: src's manager and a copy of its set, rebuilt the same way as for AlgCube. */
    method Assign(src: AlgLitSet)
      requires Valid() && src.Valid()
      modifies this
      ensures Valid() && mgr == old(src.mgr) && Value() == old(src.Value())
      ensures src != this ==> fresh(body)
      ensures src == this ==> body == old(body)
    {
      if src != this {
        var b := new Word[src.mgr.nb](_ => 0);
        CubeBuffer.CubeCopy(src.mgr.nb, b, 0, src.body, 0);
        assert b[..] == src.body[0..src.mgr.nb];
        mgr := src.mgr;
        body := b;
      }
    }

    /** is_in(lit): the literal's bit is set. */
    method IsIn(lit: AlgLiteral) returns (r: bool)
      requires Valid() && VarId(lit) < mgr.varNum
      ensures LitOps.Blk(lit) < mgr.nb
      ensures r == LitOps.InCube(Value(), lit)
    {
      BlockInCube(mgr.varNum, VarId(lit));
      r := LitOps.IsIn(body, lit);
    }

    /** operator+=(lit): the literal's bit ORed in. */
    method Add(lit: AlgLiteral)
      requires Valid() && VarId(lit) < mgr.varNum
      modifies body
      ensures Valid() && LitOps.Blk(lit) < mgr.nb
      ensures Value() == LitOps.AddToCube(old(Value()), lit)
    {
      BlockInCube(mgr.varNum, VarId(lit));
      LitOps.AddLit(body, lit);
      LitOps.AddLitCube(old(body[..]), mgr.nb, lit);
      assert body[..] == CubeAt(body[..], mgr.nb, 0);
    }
  }

  /** operator+(lit_set, lit): a copy with the literal added; the operand is unchanged. */
  method Plus(s: AlgLitSet, lit: AlgLiteral) returns (r: AlgLitSet)
    requires s.Valid() && VarId(lit) < s.mgr.varNum
    ensures fresh(r) && fresh(r.body) && r.Valid() && r.mgr == s.mgr
    ensures LitOps.Blk(lit) < s.mgr.nb
    ensures r.Value() == LitOps.AddToCube(s.Value(), lit)
  {
    r := new AlgLitSet.Copy(s);
    r.Add(lit);
  }

  /**
   * After s += lit the set holds lit, and a literal other than lit is in
   * it exactly when it was before: += only ever adds the one literal.
   */
  lemma AddMembers(x: Cube, lit: AlgLiteral, l: AlgLiteral)
    requires LitOps.Blk(lit) < |x| && LitOps.Blk(l) < |x|
    ensures LitOps.InCube(LitOps.AddToCube(x, lit), lit)
    ensures LitOps.InCube(LitOps.AddToCube(x, lit), l) <==> LitOps.InCube(x, l) || l == lit
  {
    LitOps.AddLitMembers(x, lit, lit);
    LitOps.AddLitMembers(x, lit, l);
  }

  /** A set may hold a literal and its opposite: no conflict check is made. */
  lemma BothPolarities(nb: nat, varNum: nat, v: nat)
    requires nb == CubeSize(varNum) && v < varNum < 0x8000_0000
    ensures var p := Make(v, false);
            var n := Make(v, true);
            LitOps.Blk(p) < nb && LitOps.Blk(n) < nb &&
            LitOps.InCube(LitOps.AddToCube(ListCube(nb, [p]), n), p) &&
            LitOps.InCube(LitOps.AddToCube(ListCube(nb, [p]), n), n)
  {
    var p := Make(v, false);
    var n := Make(v, true);
    assert LitOps.RunCount([p]) <= 1;
    assert LitsBelow([p], varNum);
    ListCubeMembers(nb, varNum, [p], p);
    BlockInCube(varNum, v);
    AddMembers(ListCube(nb, [p]), n, p);
  }
}
