/**
 * AlgCover (include/ym/AlgCover.h): a sum of products that owns a body
 * with room for cubeCap cubes, of which the first cubeNum hold the cover.
 * Every operation hands the body to the manager. The operators build a
 * new body of get_capacity cubes; the compound assignments work on the
 * object's own body, growing it first when the result may not fit.
 */
module AlgCovers {
  import opened CubeBits
  import opened CubeView
  import opened CubeAlgebra
  import opened CubeOrder
  import opened AlgLiterals
  import opened SopText
  import opened SopPrint
  import CubeBuffer
  import CubeOps
  import LitOps
  import CoverProduct
  import CoverDivision
  import C = AlgCubes
  import M = AlgMgrNew

  // ---------------------------------------------------------------------
  // Capacities and new bodies
  // ---------------------------------------------------------------------

  /** get_capacity: the least power of two from 16 up that is at least n. */
  method GetCapacity(n: nat) returns (ans: nat)
    ensures ans == M.Grown(16, n)
    ensures ans >= n && ans >= 16 && M.Doubling(16, ans)
    ensures ans == 16 || ans / 2 < n
  {
    M.GrownLeast(16, n);
    ans := 16;
    while ans < n
      invariant ans >= 16 && M.Grown(ans, n) == M.Grown(16, n)
      decreases n - ans
    {
      ans := ans * 2;
    }
  }

  /** new_body(get_capacity(req)): a cleared body with room for at least req cubes. */
  method NewBody(nb: nat, req: nat) returns (cap: nat, b: array<Word>)
    ensures cap == M.Grown(16, req) && cap >= req && cap >= 16 && M.Doubling(16, cap)
    ensures fresh(b) && b.Length == Base(cap, nb) && Base(req, nb) <= b.Length && nb <= b.Length
    ensures forall k :: 0 <= k < b.Length ==> b[k] == 0
  {
    cap := GetCapacity(req);
    BaseMono(req, cap, nb);
    BaseMono(1, cap, nb);
    b := new Word[Base(cap, nb)](_ => 0);
  }

  // ---------------------------------------------------------------------
  // The cover a literal list describes
  // ---------------------------------------------------------------------

  function Zeros(n: nat): (z: seq<Word>)
    ensures |z| == n
  {
    seq(n, _ => 0)
  }

  /** Each literal of a list of known variables lies inside the cube. */
  lemma ListBlocks(nb: nat, varNum: nat, lits: seq<AlgLiteral>)
    requires nb == CubeSize(varNum) && C.LitsBelow(lits, varNum)
    ensures forall i :: 0 <= i < |lits| && lits[i] != Undef() ==> LitOps.Blk(lits[i]) < nb
  {
    forall i | 0 <= i < |lits| && lits[i] != Undef()
      ensures LitOps.Blk(lits[i]) < nb
    {
      BlockInCube(varNum, VarId(lits[i]));
    }
  }

  /**
   * The cubes set_literal leaves in a cleared body for a literal list: one
   * cube per run of literals, run d holding the literals whose cursor is d.
   */
  ghost function ListCover(nb: nat, lits: seq<AlgLiteral>): (s: Cover)
    ensures |s| == LitOps.RunCount(lits) && Uniform(s, nb)
  {
    var n := LitOps.RunCount(lits);
    var z := Zeros(Base(n, nb));
    if LitOps.Fits(|z|, nb, lits, C.ListCursors(lits)) then
      var p := LitOps.Place(z, nb, lits, C.ListCursors(lits));
      CubesUniform(p, nb, 0, n);
      Cubes(p, nb, 0, n)
    else
      CubesUniform(z, nb, 0, n);
      Cubes(z, nb, 0, n)
  }

  lemma AddMaskAppend(p: seq<Word>, z: seq<Word>, k: nat, m: Word)
    requires k < |p|
    ensures LitOps.AddMask(p + z, k, m) == LitOps.AddMask(p, k, m) + z
  {
    assert (p + z)[k] == p[k];
  }

  /** Words past the part the literals land in are left as they were. */
  lemma {:induction false} PlaceAppend(a: seq<Word>, z: seq<Word>, nb: nat, lits: seq<AlgLiteral>, at: seq<nat>)
    requires LitOps.Fits(|a|, nb, lits, at)
    ensures LitOps.Fits(|a + z|, nb, lits, at)
    ensures LitOps.Place(a + z, nb, lits, at) == LitOps.Place(a, nb, lits, at) + z
    decreases |lits|
  {
    if |lits| > 0 {
      var n := |lits| - 1;
      LitOps.FitsPrefix(|a|, nb, lits, at, n);
      PlaceAppend(a, z, nb, lits[..n], at[..n]);
      if lits[n] != Undef() {
        var p := LitOps.Place(a, nb, lits[..n], at[..n]);
        AddMaskAppend(p, z, Base(at[n], nb) + LitOps.Blk(lits[n]), LitOps.LitWord(lits[n]));
      }
    }
  }

  /** A cleared body of any size with room for the runs holds the listed cover after set_literal. */
  lemma PlacedCover(nb: nat, varNum: nat, lits: seq<AlgLiteral>, len: nat)
    requires nb == CubeSize(varNum) && C.LitsBelow(lits, varNum)
    requires Base(LitOps.RunCount(lits), nb) <= len
    ensures LitOps.Fits(len, nb, lits, C.ListCursors(lits))
    ensures Cubes(LitOps.Place(Zeros(len), nb, lits, C.ListCursors(lits)), nb, 0, LitOps.RunCount(lits))
            == ListCover(nb, lits)
  {
    var n := LitOps.RunCount(lits);
    var at := C.ListCursors(lits);
    var z := Zeros(Base(n, nb));
    ListBlocks(nb, varNum, lits);
    LitOps.RunCursorsFit(|z|, nb, 0, lits);
    LitOps.RunCursorsFit(len, nb, 0, lits);
    var rest := Zeros(len - |z|);
    assert Zeros(len) == z + rest;
    PlaceAppend(z, rest, nb, lits, at);
    var p := LitOps.Place(z, nb, lits, at);
    CubesAgree(p + rest, p, nb, 0, n);
  }

  lemma ZerosCube(n: nat, nb: nat, d: nat)
    requires d < n
    ensures Base(d, nb) + nb <= Base(n, nb)
    ensures CubeAt(Zeros(Base(n, nb)), nb, d) == ZeroCube(nb)
  {
    CubeInside(d, n, nb);
  }

  /** Cube d of the listed cover holds exactly the literals of the list that set_literal puts in cube d. */
  lemma ListCoverMembers(nb: nat, varNum: nat, lits: seq<AlgLiteral>, d: nat, l: AlgLiteral)
    requires nb == CubeSize(varNum) && C.LitsBelow(lits, varNum) && d < LitOps.RunCount(lits)
    requires l != Undef() && VarId(l) < varNum
    ensures LitOps.Blk(l) < nb
    ensures LitOps.InCube(ListCover(nb, lits)[d], l) <==> LitOps.Lands(lits, C.ListCursors(lits), l, d)
  {
    var n := LitOps.RunCount(lits);
    BlockInCube(varNum, VarId(l));
    var z := Zeros(Base(n, nb));
    PlacedCover(nb, varNum, lits, |z|);
    var at := C.ListCursors(lits);
    CubeInside(d, n, nb);
    LitOps.PlaceMembers(z, nb, lits, at, l, d);
    CubesAt(LitOps.Place(z, nb, lits, at), nb, 0, n, d);
    ZerosCube(n, nb, d);
    C.ZeroHasNone(nb, l);
  }

  /** Every literal of the list lands in one of the cubes of the listed cover. */
  lemma ListCoverComplete(nb: nat, varNum: nat, lits: seq<AlgLiteral>, i: nat)
    requires nb == CubeSize(varNum) && C.LitsBelow(lits, varNum)
    requires i < |lits| && lits[i] != Undef()
    ensures C.ListCursors(lits)[i] < LitOps.RunCount(lits)
    ensures LitOps.InCube(ListCover(nb, lits)[C.ListCursors(lits)[i]], lits[i])
  {
    LitOps.RunCursorsInBody(0, lits, i);
    var d := C.ListCursors(lits)[i];
    assert LitOps.Lands(lits, C.ListCursors(lits), lits[i], d);
    ListCoverMembers(nb, varNum, lits, d, lits[i]);
  }

  /** Two sorted covers with the same cubes start with the same cube. */
  lemma DescHeads(s: Cover, t: Cover)
    requires Desc(s) && Desc(t) && multiset(s) == multiset(t) && |s| > 0 && |t| > 0
    ensures s[0] == t[0]
  {
    assert s[0] in multiset(t) && t[0] in multiset(s);
    if s[0] != t[0] {
      var i :| 0 <= i < |s| && s[i] == t[0];
      var j :| 0 <= j < |t| && t[j] == s[0];
      assert Above(s[0], s[i]) && Above(t[0], t[j]);
      CompareAntisym(s[0], t[0]);
      assert false;
    }
  }

  lemma TailMultiset(s: Cover)
    requires |s| > 0
    ensures multiset(s[1..]) == multiset(s) - multiset{s[0]}
  {
    assert s == [s[0]] + s[1..];
  }

  /** A sorted cover is determined by its cubes: the sort's result does not depend on the input order. */
  lemma {:induction false} DescUnique(s: Cover, t: Cover)
    requires Desc(s) && Desc(t) && multiset(s) == multiset(t)
    ensures s == t
    decreases |s|
  {
    assert |s| == |multiset(s)| == |multiset(t)| == |t|;
    if |s| > 0 {
      DescHeads(s, t);
      TailMultiset(s);
      TailMultiset(t);
      DescTail(s);
      DescTail(t);
      DescUnique(s[1..], t[1..]);
      assert s == [s[0]] + s[1..] && t == [t[0]] + t[1..];
    }
  }

  // ---------------------------------------------------------------------
  // Texts and literal counts of covers
  // ---------------------------------------------------------------------

  /** The text of a cover: the texts of its cubes joined by " + ". */
  function PrintedText(s: Cover, nv: nat, names: seq<string>): string
    requires |names| == nv && Uniform(s, CubeSize(nv))
  {
    if |s| == 0 then ""
    else PrintedText(s[..|s| - 1], nv, names) + (if |s| == 1 then "" else " + ") + CubeOut(s[|s| - 1], nv, names)
  }

  lemma PrintedSnoc(s: Cover, x: Cube, nv: nat, names: seq<string>)
    requires |names| == nv && Uniform(s, CubeSize(nv)) && |x| == CubeSize(nv)
    ensures Uniform(s + [x], CubeSize(nv))
    ensures PrintedText(s + [x], nv, names) ==
            PrintedText(s, nv, names) + (if |s| == 0 then "" else " + ") + CubeOut(x, nv, names)
  {
    assert (s + [x])[..|s|] == s;
  }

  /** What print writes for the cubes 0 .. n of a body is the text of the cover they form. */
  lemma {:induction false} BufferCoverText(a: seq<Word>, nv: nat, n: nat, names: seq<string>)
    requires |names| == nv && Base(n, CubeSize(nv)) <= |a|
    ensures Uniform(Cubes(a, CubeSize(nv), 0, n), CubeSize(nv))
    ensures BufferText(a, nv, 0, n, names) == PrintedText(Cubes(a, CubeSize(nv), 0, n), nv, names)
    decreases n
  {
    var nb := CubeSize(nv);
    CubesUniform(a, nb, 0, n);
    if n > 0 {
      BaseMono(n - 1, n, nb);
      BufferCoverText(a, nv, n - 1, names);
      CubesExtend(a, nb, 0, n - 1);
      var s, x := Cubes(a, nb, 0, n - 1), CubeAt(a, nb, n - 1);
      PrintedSnoc(s, x, nv, names);
    }
  }

  /** The literal count of a cover: the counts of its cubes added up. */
  function CoverCount(s: Cover): nat
  {
    if |s| == 0 then 0 else CoverCount(s[..|s| - 1]) + LitOps.WordsCount(s[|s| - 1])
  }

  lemma {:induction false} WordsCountAppend(x: seq<Word>, y: seq<Word>)
    ensures LitOps.WordsCount(x + y) == LitOps.WordsCount(x) + LitOps.WordsCount(y)
    decreases |y|
  {
    if |y| > 0 {
      var n := |y| - 1;
      assert (x + y)[..|x + y| - 1] == x + y[..n];
      assert (x + y)[|x + y| - 1] == y[n];
      WordsCountAppend(x, y[..n]);
    } else {
      assert x + y == x;
    }
  }

  /** The words of a cover's cubes, one cube after the other. */
  function CoverWords(s: Cover): seq<Word>
  {
    if |s| == 0 then [] else CoverWords(s[..|s| - 1]) + s[|s| - 1]
  }

  /** Cubes 0 .. n of a body are its first n cubes' words, in order. */
  lemma {:induction false} CubesWords(a: seq<Word>, nb: nat, n: nat)
    requires Base(n, nb) <= |a|
    ensures CoverWords(Cubes(a, nb, 0, n)) == a[..Base(n, nb)]
    decreases n
  {
    if n > 0 {
      BaseMono(n - 1, n, nb);
      CubesWords(a, nb, n - 1);
      var s := Cubes(a, nb, 0, n - 1);
      CubesExtend(a, nb, 0, n - 1);
      PrefixSnoc(a, nb, n);
      assert (s + [CubeAt(a, nb, n - 1)])[..n - 1] == s;
    }
  }

  /** The literal count of a cover is the count over all its words. */
  lemma {:induction false} CoverCountWords(s: Cover)
    ensures CoverCount(s) == LitOps.WordsCount(CoverWords(s))
    decreases |s|
  {
    if |s| > 0 {
      CoverCountWords(s[..|s| - 1]);
      WordsCountAppend(CoverWords(s[..|s| - 1]), s[|s| - 1]);
    }
  }

  /** Counting the words of cubes 0 .. n counts the literals of each cube. */
  lemma CountOfCubes(a: seq<Word>, nb: nat, n: nat)
    requires Base(n, nb) <= |a|
    ensures LitOps.WordsCount(a[..Base(n, nb)]) == CoverCount(Cubes(a, nb, 0, n))
  {
    CubesWords(a, nb, n);
    CoverCountWords(Cubes(a, nb, 0, n));
  }

  lemma PrefixSnoc(a: seq<Word>, nb: nat, n: nat)
    requires 0 < n && Base(n, nb) <= |a|
    ensures Base(n - 1, nb) + nb == Base(n, nb)
    ensures a[..Base(n, nb)] == a[..Base(n - 1, nb)] + CubeAt(a, nb, n - 1)
  {
    BaseMono(n - 1, n, nb);
  }

  // ---------------------------------------------------------------------
  // Bodies built for the constructors
  // ---------------------------------------------------------------------

  /** The cubes of a list of cube objects: the body of each. */
  ghost function Values(cubes: seq<C.AlgCube>): (r: Cover)
    reads set i | 0 <= i < |cubes| :: cubes[i]
    reads set i | 0 <= i < |cubes| :: cubes[i].body
    ensures |r| == |cubes|
    decreases |cubes|
  {
    if |cubes| == 0 then [] else Values(cubes[..|cubes| - 1]) + [cubes[|cubes| - 1].body[..]]
  }

  lemma ValuesAt(cubes: seq<C.AlgCube>, i: nat)
    requires i < |cubes|
    ensures Values(cubes)[i] == cubes[i].body[..]
    decreases |cubes|
  {
    if i < |cubes| - 1 {
      assert cubes[..|cubes| - 1][i] == cubes[i];
      ValuesAt(cubes[..|cubes| - 1], i);
    }
  }

  lemma TakeOneMore(s: Cover, i: nat)
    requires i < |s|
    ensures s[..i + 1] == s[..i] + [s[i]]
  {
  }

  /** cube_copy of a cube object's body into cube i of a body. */
  method AppendCube(nb: nat, b: array<Word>, i: nat, src: array<Word>)
    requires Base(i, nb) + nb <= b.Length && src.Length == nb
    modifies b
    ensures Base(i + 1, nb) <= b.Length
    ensures Cubes(b[..], nb, 0, i + 1) == old(Cubes(b[..], nb, 0, i)) + [old(src[..])]
  {
    ghost var a := b[..];
    assert CubeAt(src[..], nb, 0) == src[..];
    CubeBuffer.CubeCopy(nb, b, i, src, 0);
    CubesAppend(a, nb, i, old(src[..]));
  }

  /** resize(n) and cube_copy of each cube object in turn. */
  method CopyCubes(m: M.AlgMgr, cubes: seq<C.AlgCube>) returns (cap: nat, b: array<Word>)
    requires forall i :: 0 <= i < |cubes| ==> cubes[i].Valid() && cubes[i].mgr == m
    ensures fresh(b) && cap >= |cubes| && cap >= 16 && M.Doubling(16, cap)
    ensures b.Length == Base(cap, m.nb) && Base(|cubes|, m.nb) <= b.Length
    ensures Cubes(b[..], m.nb, 0, |cubes|) == old(Values(cubes))
  {
    var n := |cubes|;
    ghost var vs := Values(cubes);
    forall k | 0 <= k < n
      ensures vs[k] == cubes[k].body[..]
    {
      ValuesAt(cubes, k);
    }
    cap, b := NewBody(m.nb, n);
    for i := 0 to n
      invariant Base(i, m.nb) <= b.Length
      invariant Cubes(b[..], m.nb, 0, i) == vs[..i]
      invariant forall k :: 0 <= k < n ==> vs[k] == cubes[k].body[..]
    {
      CubeInside(i, cap, m.nb);
      assert cubes[i].Valid();
      AppendCube(m.nb, b, i, cubes[i].body);
      TakeOneMore(vs, i);
    }
    assert vs[..n] == vs;
  }

  /** The run count, resize and set_literal of a literal list. */
  method ListBody(m: M.AlgMgr, lits: seq<AlgLiteral>) returns (n: nat, cap: nat, b: array<Word>)
    requires m.Valid() && C.LitsBelow(lits, m.varNum)
    ensures n == LitOps.RunCount(lits) && fresh(b)
    ensures n <= cap && cap >= 16 && M.Doubling(16, cap) && b.Length == Base(cap, m.nb)
    ensures Base(n, m.nb) <= b.Length && Cubes(b[..], m.nb, 0, n) == ListCover(m.nb, lits)
  {
    n := M.CountCubes(lits);
    cap, b := NewBody(m.nb, n);
    assert b[..] == Zeros(b.Length);
    PlacedCover(m.nb, m.varNum, lits, b.Length);
    LitOps.SetLiteralRuns(m.nb, b, 0, lits);
  }

  /** copy of n cubes into a new body of get_capacity(n) cubes. */
  method CopyBody(nb: nat, n: nat, src: array<Word>) returns (cap: nat, b: array<Word>)
    requires Base(n, nb) <= src.Length
    ensures fresh(b) && n <= cap && cap >= 16 && M.Doubling(16, cap) && b.Length == Base(cap, nb)
    ensures Base(n, nb) <= b.Length && Cubes(b[..], nb, 0, n) == Cubes(src[..], nb, 0, n)
  {
    cap, b := NewBody(nb, n);
    ghost var a := b[..];
    CubeBuffer.Copy(nb, n, b, 0, src, 0);
    CubesCopied(a, src[..], nb, 0, 0, n);
  }

  // ---------------------------------------------------------------------
  // The manager operations on new bodies
  // ---------------------------------------------------------------------

  /** new_body(get_capacity(nc1 + nc2)), then sum into it. */
  method NewSum(m: M.AlgMgr, nc1: nat, buf1: array<Word>, nc2: nat, buf2: array<Word>)
    returns (nc: nat, cap: nat, b: array<Word>)
    requires m.Valid() && Base(nc1, m.nb) <= buf1.Length && Base(nc2, m.nb) <= buf2.Length
    requires buf1 != m.tmpBuff && buf2 != m.tmpBuff
    modifies m
    ensures m.Valid() && fresh(m.tmpBuff) && fresh(b) && b != m.tmpBuff
    ensures nc <= cap && cap >= 16 && M.Doubling(16, cap) && b.Length == Base(cap, m.nb)
    ensures Base(nc, m.nb) <= b.Length
    ensures Cubes(b[..], m.nb, 0, nc) == Merge(old(Cubes(buf1[..], m.nb, 0, nc1)), old(Cubes(buf2[..], m.nb, 0, nc2)))
  {
    ghost var s, t := Cubes(buf1[..], m.nb, 0, nc1), Cubes(buf2[..], m.nb, 0, nc2);
    cap, b := NewBody(m.nb, nc1 + nc2);
    nc := m.Sum(b, nc1, buf1, nc2, buf2);
    MergeLength(s, t);
    BaseMono(nc, cap, m.nb);
  }

  /** new_body(get_capacity(nc1)), then diff into it. */
  method NewDiff(m: M.AlgMgr, nc1: nat, buf1: array<Word>, nc2: nat, buf2: array<Word>)
    returns (nc: nat, cap: nat, b: array<Word>)
    requires m.Valid() && Base(nc1, m.nb) <= buf1.Length && Base(nc2, m.nb) <= buf2.Length
    ensures fresh(b) && nc <= nc1 && nc <= cap && cap >= 16 && M.Doubling(16, cap) && b.Length == Base(cap, m.nb)
    ensures Base(nc, m.nb) <= b.Length
    ensures Cubes(b[..], m.nb, 0, nc) == Diff(Cubes(buf1[..], m.nb, 0, nc1), Cubes(buf2[..], m.nb, 0, nc2))
  {
    cap, b := NewBody(m.nb, nc1);
    nc := m.Diff(b, nc1, buf1, nc2, buf2);
    BaseMono(nc, cap, m.nb);
  }

  /** new_body(get_capacity(nc1 * nc2)), then product into it. */
  method NewProduct(m: M.AlgMgr, nc1: nat, buf1: array<Word>, nc2: nat, buf2: array<Word>)
    returns (nc: nat, cap: nat, b: array<Word>)
    requires m.Valid() && Base(nc1, m.nb) <= buf1.Length && Base(nc2, m.nb) <= buf2.Length
    requires buf1 != m.tmpBuff && buf2 != m.tmpBuff
    modifies m
    ensures m.Valid() && fresh(m.tmpBuff) && fresh(b) && b != m.tmpBuff
    ensures nc <= cap && cap >= 16 && M.Doubling(16, cap) && b.Length == Base(cap, m.nb)
    ensures Base(nc, m.nb) <= b.Length
    ensures Cubes(b[..], m.nb, 0, nc) ==
            CoverProduct.Products(old(Cubes(buf1[..], m.nb, 0, nc1)), old(Cubes(buf2[..], m.nb, 0, nc2)))
  {
    cap, b := NewBody(m.nb, nc1 * nc2);
    nc := m.Product(b, nc1, buf1, nc2, buf2);
    BaseMono(nc, cap, m.nb);
  }

  /** new_body(get_capacity(nc1)), then product(lit) into it. */
  method NewProductLit(m: M.AlgMgr, nc1: nat, buf1: array<Word>, lit: AlgLiteral)
    returns (nc: nat, cap: nat, b: array<Word>)
    requires m.Valid() && VarId(lit) < m.varNum && Base(nc1, m.nb) <= buf1.Length
    ensures fresh(b) && nc <= cap && cap >= 16 && M.Doubling(16, cap) && b.Length == Base(cap, m.nb)
    ensures Base(nc, m.nb) <= b.Length
    ensures LitOps.Blk(lit) < m.nb && Uniform(Cubes(buf1[..], m.nb, 0, nc1), m.nb)
    ensures Cubes(b[..], m.nb, 0, nc) == CoverProduct.LitProducts(Cubes(buf1[..], m.nb, 0, nc1), m.nb, lit)
  {
    BlockInCube(m.varNum, VarId(lit));
    CubesUniform(buf1[..], m.nb, 0, nc1);
    cap, b := NewBody(m.nb, nc1);
    nc := m.ProductLitIntended(b, nc1, buf1, lit);
    BaseMono(nc, cap, m.nb);
  }

  /** new_body(get_capacity(nc1 / nc2)), then division into it. */
  method NewDivision(m: M.AlgMgr, nc1: nat, buf1: array<Word>, nc2: nat, buf2: array<Word>)
    returns (nc: nat, cap: nat, b: array<Word>)
    requires m.Valid() && Base(nc1, m.nb) <= buf1.Length && Base(nc2, m.nb) <= buf2.Length && nc2 > 0
    requires buf1 != m.tmpBuff && buf2 != m.tmpBuff
    modifies m
    ensures m.Valid() && fresh(m.tmpBuff) && fresh(b) && b != m.tmpBuff
    ensures nc <= cap && cap >= 16 && M.Doubling(16, cap) && b.Length == Base(cap, m.nb)
    ensures Base(nc, m.nb) <= b.Length
    ensures Uniform(old(Cubes(buf1[..], m.nb, 0, nc1)), m.nb) && Uniform(old(Cubes(buf2[..], m.nb, 0, nc2)), m.nb)
    ensures Cubes(b[..], m.nb, 0, nc) ==
            CoverDivision.Division(old(Cubes(buf1[..], m.nb, 0, nc1)), old(Cubes(buf2[..], m.nb, 0, nc2)), m.nb)
  {
    ghost var s, t := Cubes(buf1[..], m.nb, 0, nc1), Cubes(buf2[..], m.nb, 0, nc2);
    cap, b := NewBody(m.nb, nc1 / nc2);
    nc := m.Division(b, nc1, buf1, nc2, buf2);
    CoverDivision.DivisionLength(s, t, m.nb);
    BaseMono(nc, cap, m.nb);
  }

  /** new_body(get_capacity(nc1)), then division(lit) into it. */
  method NewDivisionLit(m: M.AlgMgr, nc1: nat, buf1: array<Word>, lit: AlgLiteral)
    returns (nc: nat, cap: nat, b: array<Word>)
    requires m.Valid() && VarId(lit) < m.varNum && Base(nc1, m.nb) <= buf1.Length
    ensures fresh(b) && nc <= cap && cap >= 16 && M.Doubling(16, cap) && b.Length == Base(cap, m.nb)
    ensures Base(nc, m.nb) <= b.Length
    ensures LitOps.Blk(lit) < m.nb && Uniform(Cubes(buf1[..], m.nb, 0, nc1), m.nb)
    ensures Cubes(b[..], m.nb, 0, nc) == CoverDivision.LitQuotients(Cubes(buf1[..], m.nb, 0, nc1), m.nb, lit)
  {
    BlockInCube(m.varNum, VarId(lit));
    CubesUniform(buf1[..], m.nb, 0, nc1);
    cap, b := NewBody(m.nb, nc1);
    nc := m.DivisionLit(b, nc1, buf1, lit);
    BaseMono(nc, cap, m.nb);
  }

  lemma QuotientAtMost(a: nat, b: nat)
    requires b >= 1
    ensures a / b <= a
  {
    var q, k: nat := a / b, b - 1;
    assert q * b + a % b == a;
    assert q * b == q + q * k;
  }

  /** division from a body into itself: the quotient never has more cubes than the dividend. */
  method DivideInPlace(m: M.AlgMgr, nc1: nat, b: array<Word>, nc2: nat, buf2: array<Word>) returns (nc: nat)
    requires m.Valid() && Base(nc1, m.nb) <= b.Length && Base(nc2, m.nb) <= buf2.Length
    requires b != m.tmpBuff && buf2 != m.tmpBuff
    modifies m, b
    ensures m.Valid() && fresh(m.tmpBuff) && nc <= nc1 && Base(nc, m.nb) <= b.Length
    ensures Uniform(old(Cubes(b[..], m.nb, 0, nc1)), m.nb) && Uniform(old(Cubes(buf2[..], m.nb, 0, nc2)), m.nb)
    ensures Cubes(b[..], m.nb, 0, nc) ==
            CoverDivision.Division(old(Cubes(b[..], m.nb, 0, nc1)), old(Cubes(buf2[..], m.nb, 0, nc2)), m.nb)
  {
    ghost var s, t := Cubes(b[..], m.nb, 0, nc1), Cubes(buf2[..], m.nb, 0, nc2);
    if nc2 > 0 {
      QuotientAtMost(nc1, nc2);
      BaseMono(nc1 / nc2, nc1, m.nb);
    }
    nc := m.Division(b, nc1, b, nc2, buf2);
    if nc2 > 0 {
      CoverDivision.DivisionLength(s, t, m.nb);
    } else {
      CoverDivision.DivisionByEmpty(s, m.nb);
    }
  }

  // ---------------------------------------------------------------------
  // AlgCover
  // ---------------------------------------------------------------------

  class AlgCover {
    /** mMgr */
    const mgr: M.AlgMgr
    /** mCubeNum */
    var cubeNum: nat
    /** mCubeCap */
    var cubeCap: nat
    /** mBody */
    var body: array<Word>

    /**
     * The body is the object's own, never the manager's work buffer; its
     * capacity is 16 doubled some number of times and holds the cubes.
     */
    ghost predicate Valid()
      reads this, mgr
    {
      mgr.Valid() && body != mgr.tmpBuff && cubeNum <= cubeCap && 16 <= cubeCap && M.Doubling(16, cubeCap) &&
      body.Length == Base(cubeCap, mgr.nb) && Base(cubeNum, mgr.nb) <= body.Length && mgr.nb <= body.Length
    }

    /** The cover: the first cubeNum cubes of the body. */
    ghost function Value(): (s: Cover)
      requires Base(cubeNum, mgr.nb) <= body.Length
      reads this, body
      ensures |s| == cubeNum && Uniform(s, mgr.nb)
    {
      CubesUniform(body[..], mgr.nb, 0, cubeNum);
      Cubes(body[..], mgr.nb, 0, cubeNum)
    }

    /** AlgCover(mgr, cube_num, cube_cap, body): an object around a body built by the caller. */
    constructor Internal(m: M.AlgMgr, nc: nat, cap: nat, b: array<Word>)
      requires m.Valid() && b != m.tmpBuff && nc <= cap && 16 <= cap && M.Doubling(16, cap)
      requires b.Length == Base(cap, m.nb)
      ensures Valid() && mgr == m && cubeNum == nc && cubeCap == cap && body == b
    {
      BaseMono(nc, cap, m.nb);
      BaseMono(1, cap, m.nb);
      mgr := m;
      cubeNum := nc;
      cubeCap := cap;
      body := b;
    }

    /** AlgCover(mgr, dummy): the cover of one empty cube, the constant 1. */
    constructor Dummy(m: M.AlgMgr)
      requires m.Valid()
      ensures Valid() && mgr == m && fresh(body)
      ensures Value() == [ZeroCube(m.nb)]
    {
      var cap, b := NewBody(m.nb, 1);
      ghost var a := b[..];
      CubeOps.CubeClear(m.nb, b, 0);
      CubesAppend(a, m.nb, 0, ZeroCube(m.nb));
      BaseMono(1, cap, m.nb);
      mgr := m;
      cubeNum := 1;
      cubeCap := cap;
      body := b;
    }

    /** AlgCover(mgr, cube_list): the cubes of the objects, sorted. */
    constructor FromCubes(m: M.AlgMgr, cubes: seq<C.AlgCube>)
      requires m.Valid() && forall i :: 0 <= i < |cubes| ==> cubes[i].Valid() && cubes[i].mgr == m
      requires Distinct(Values(cubes))
      modifies m
      ensures Valid() && mgr == m && fresh(body) && cubeNum == |cubes|
      ensures multiset(Value()) == multiset(old(Values(cubes))) && Desc(Value())
    {
      var cap, b := CopyCubes(m, cubes);
      m.Sort(|cubes|, b);
      mgr := m;
      cubeNum := |cubes|;
      cubeCap := cap;
      body := b;
    }

    /** AlgCover(mgr, lit_list): one cube per run of literals, separated by the undefined literal, sorted. */
    constructor FromLits(m: M.AlgMgr, lits: seq<AlgLiteral>)
      requires m.Valid() && C.LitsBelow(lits, m.varNum) && Distinct(ListCover(m.nb, lits))
      modifies m
      ensures Valid() && mgr == m && fresh(body)
      ensures cubeNum == LitOps.RunCount(lits)
      ensures multiset(Value()) == multiset(ListCover(m.nb, lits)) && Desc(Value())
    {
      var n, cap, b := ListBody(m, lits);
      m.Sort(n, b);
      mgr := m;
      cubeNum := n;
      cubeCap := cap;
      body := b;
    }

    /**
     * AlgCover(mgr, str): the cover the text describes, sorted; a text that
     * does not parse gives the empty cover.
     */
    constructor FromText(m: M.AlgMgr, str: string)
      requires m.Valid() && Bounded(m.nameMap)
      requires Scan(str, m.nameMap).Some? ==> Distinct(ListCover(m.nb, Scan(str, m.nameMap).value))
      modifies m
      ensures Valid() && mgr == m && fresh(body)
      ensures var r := Scan(str, m.nameMap);
              var s := if r.Some? then ListCover(m.nb, r.value) else [];
              cubeNum == |s| && multiset(Value()) == multiset(s) && Desc(Value())
    {
      var lits, n := m.Parse(str);
      if Scan(str, m.nameMap).Some? {
        C.ScanBelow(str, m.nameMap, m.varNum);
      }
      var n', cap, b := ListBody(m, lits);
      m.Sort(n', b);
      mgr := m;
      cubeNum := n';
      cubeCap := cap;
      body := b;
    }

    /** The copy constructor: a new body holding the same cubes. */
    constructor Copy(src: AlgCover)
      requires src.Valid()
      ensures Valid() && mgr == src.mgr && fresh(body) && cubeNum == src.cubeNum
      ensures Value() == src.Value()
    {
      var cap, b := CopyBody(src.mgr.nb, src.cubeNum, src.body);
      BaseMono(1, cap, src.mgr.nb);
      mgr := src.mgr;
      cubeNum := src.cubeNum;
      cubeCap := cap;
      body := b;
    }

    /** AlgCover(cube): the cover of that one cube. */
    constructor FromCube(cube: C.AlgCube)
      requires cube.Valid()
      ensures Valid() && mgr == cube.mgr && fresh(body)
      ensures Value() == [cube.Value()]
    {
      var cap, b := NewBody(cube.mgr.nb, 1);
      ghost var a := b[..];
      CubeBuffer.CubeCopy(cube.mgr.nb, b, 0, cube.body, 0);
      CubesAppend(a, cube.mgr.nb, 0, cube.Value());
      BaseMono(1, cap, cube.mgr.nb);
      mgr := cube.mgr;
      cubeNum := 1;
      cubeCap := cap;
      body := b;
    }

    /**
     * resize(req): a new cleared body of get_capacity(req) cubes when that
     * is more than the capacity; the old cubes are not carried over.
     */
    method Resize(req: nat)
      requires Valid()
      modifies this
      ensures Valid() && cubeNum == old(cubeNum) && cubeCap >= req
      ensures cubeCap == if M.Grown(16, req) > old(cubeCap) then M.Grown(16, req) else old(cubeCap)
      ensures cubeCap == old(cubeCap) ==> body == old(body)
      ensures cubeCap != old(cubeCap) ==> fresh(body) && forall k :: 0 <= k < body.Length ==> body[k] == 0
    {
      var cap := GetCapacity(req);
      if cap > cubeCap {
        BaseMono(cubeNum, cap, mgr.nb);
        BaseMono(1, cap, mgr.nb);
        cubeCap := cap;
        body := new Word[Base(cap, mgr.nb)](_ => 0);
      }
    }

    /**
     * operator=: the cubes of src copied into this object's body. Unlike
     * AlgCube, the cover keeps its own manager and copies with its cube
     * size, so src needs only the same number of words per cube.
     */
    method Assign(src: AlgCover)
      requires Valid() && src.Valid() && src.mgr.nb == mgr.nb
      modifies this, body
      ensures Valid() && (body == old(body) || fresh(body))
      ensures cubeNum == old(src.cubeNum) && Value() == old(src.Value())
    {
      if src != this {
        var n := src.cubeNum;
        Resize(n);
        BaseMono(n, cubeCap, mgr.nb);
        ghost var a, sb := body[..], src.body[..];
        CubeBuffer.Copy(mgr.nb, n, body, 0, src.body, 0);
        CubesCopied(a, sb, mgr.nb, 0, 0, n);
        cubeNum := n;
      }
    }

    // -------------------------------------------------------------------
    // Queries
    // -------------------------------------------------------------------

    /** cube_num(): the number of cubes of the cover. */
    function CubeNum(): (n: nat)
      requires Valid()
      reads this, mgr, body
      ensures n == |Value()|
    {
      cubeNum
    }

    /** literal_num(): the literals of all the cubes. */
    method LiteralNum() returns (n: nat)
      requires Valid()
      ensures n == CoverCount(Value())
    {
      n := LitOps.LiteralNum(mgr.nb, cubeNum, body);
      CountOfCubes(body[..], mgr.nb, cubeNum);
    }

    /** literal_num(lit): the cubes that hold the literal. */
    method LiteralNumOf(lit: AlgLiteral) returns (n: nat)
      requires Valid() && VarId(lit) < mgr.varNum
      ensures LitOps.Blk(lit) < mgr.nb
      ensures n == LitOps.CountLit(Value(), lit)
    {
      BlockInCube(mgr.varNum, VarId(lit));
      n := LitOps.LiteralNumOf(mgr.nb, cubeNum, body, lit);
    }

    /** literal(cube_id, var_id): the 2-bit field of the variable in that cube. */
    function Literal(c: nat, v: nat): (r: Word)
      requires Valid() && c < cubeNum && v < mgr.varNum
      reads this, mgr, body
      ensures BlockPos(v) < mgr.nb
      ensures r <= 3 && r == FieldOf(Value()[c], v)
      ensures WellFormed(Value()[c]) ==> r != 3
    {
      BlockInCube(mgr.varNum, v);
      CubeInside(c, cubeNum, mgr.nb);
      CubesAt(body[..], mgr.nb, 0, cubeNum, c);
      FieldOfAt(body[..], mgr.nb, c, v);
      LitOps.Literal(body[..], mgr.nb, c, v)
    }

    /**
     * common_cube(): a new cube object holding the literals every cube
     * has; for the empty cover, cube 0 of the body is read as it is.
     */
    method CommonCube() returns (r: C.AlgCube)
      requires Valid()
      ensures fresh(r) && fresh(r.body) && r.Valid() && r.mgr == mgr
      ensures cubeNum > 0 ==> r.Value() == LitOps.AndFold(Value(), mgr.nb)
      ensures cubeNum > 0 ==> forall i :: 0 <= i < cubeNum ==> Covers(Value()[i], r.Value())
      ensures cubeNum == 0 ==> r.Value() == CubeAt(body[..], mgr.nb, 0)
    {
      var b := new Word[mgr.nb](_ => 0);
      LitOps.CommonCube(mgr.nb, b, cubeNum, body);
      CommonValue(b[..], body[..], mgr.nb, cubeNum);
      r := new C.AlgCube.Internal(mgr, b);
    }

    // -------------------------------------------------------------------
    // Operators that build a new cover
    // -------------------------------------------------------------------

    /** operator+(right): the merged cubes of both covers, in a new object. */
    method Plus(right: AlgCover) returns (r: AlgCover)
      requires Valid() && right.Valid() && right.mgr.varNum == mgr.varNum && right.body != mgr.tmpBuff
      modifies mgr
      ensures Valid() && right.Valid() && fresh(r) && fresh(r.body) && r.Valid() && r.mgr == mgr
      ensures r.Value() == Merge(old(Value()), old(right.Value()))
    {
      var nc, cap, b := NewSum(mgr, cubeNum, body, right.cubeNum, right.body);
      r := new AlgCover.Internal(mgr, nc, cap, b);
    }

    /** operator+(cube): the cover with the cube merged in, in a new object. */
    method PlusCube(right: C.AlgCube) returns (r: AlgCover)
      requires Valid() && right.Valid() && right.mgr.varNum == mgr.varNum && right.body != mgr.tmpBuff
      modifies mgr
      ensures Valid() && right.Valid() && fresh(r) && fresh(r.body) && r.Valid() && r.mgr == mgr
      ensures r.Value() == Merge(old(Value()), [old(right.Value())])
    {
      CubesOne(right.body[..], mgr.nb, 0);
      var nc, cap, b := NewSum(mgr, cubeNum, body, 1, right.body);
      r := new AlgCover.Internal(mgr, nc, cap, b);
    }

    /** operator-(right): the cubes of this cover not in right, in a new object. */
    method Minus(right: AlgCover) returns (r: AlgCover)
      requires Valid() && right.Valid() && right.mgr.varNum == mgr.varNum && right.body != mgr.tmpBuff
      ensures fresh(r) && fresh(r.body) && r.Valid() && r.mgr == mgr
      ensures r.Value() == Diff(Value(), right.Value())
    {
      var nc, cap, b := NewDiff(mgr, cubeNum, body, right.cubeNum, right.body);
      r := new AlgCover.Internal(mgr, nc, cap, b);
    }

    /** operator-(cube): the cover without the cube, in a new object. */
    method MinusCube(right: C.AlgCube) returns (r: AlgCover)
      requires Valid() && right.Valid() && right.mgr.varNum == mgr.varNum && right.body != mgr.tmpBuff
      ensures fresh(r) && fresh(r.body) && r.Valid() && r.mgr == mgr
      ensures r.Value() == Diff(Value(), [right.Value()])
    {
      CubesOne(right.body[..], mgr.nb, 0);
      var nc, cap, b := NewDiff(mgr, cubeNum, body, 1, right.body);
      r := new AlgCover.Internal(mgr, nc, cap, b);
    }

    /** operator*(right): the products of every pair of cubes, in a new object. */
    method Times(right: AlgCover) returns (r: AlgCover)
      requires Valid() && right.Valid() && right.mgr.varNum == mgr.varNum && right.body != mgr.tmpBuff
      modifies mgr
      ensures Valid() && right.Valid() && fresh(r) && fresh(r.body) && r.Valid() && r.mgr == mgr
      ensures r.Value() == CoverProduct.Products(old(Value()), old(right.Value()))
    {
      var nc, cap, b := NewProduct(mgr, cubeNum, body, right.cubeNum, right.body);
      r := new AlgCover.Internal(mgr, nc, cap, b);
    }

    /** operator*(cube): every cube multiplied by the cube, in a new object. */
    method TimesCube(right: C.AlgCube) returns (r: AlgCover)
      requires Valid() && right.Valid() && right.mgr.varNum == mgr.varNum && right.body != mgr.tmpBuff
      modifies mgr
      ensures Valid() && right.Valid() && fresh(r) && fresh(r.body) && r.Valid() && r.mgr == mgr
      ensures r.Value() == CoverProduct.Products(old(Value()), [old(right.Value())])
    {
      CubesOne(right.body[..], mgr.nb, 0);
      var nc, cap, b := NewProduct(mgr, cubeNum, body, 1, right.body);
      r := new AlgCover.Internal(mgr, nc, cap, b);
    }

    /** operator*(lit): every cube multiplied by the literal, in a new object. */
    method TimesLit(lit: AlgLiteral) returns (r: AlgCover)
      requires Valid() && VarId(lit) < mgr.varNum
      ensures fresh(r) && fresh(r.body) && r.Valid() && r.mgr == mgr && LitOps.Blk(lit) < mgr.nb
      ensures r.Value() == CoverProduct.LitProducts(Value(), mgr.nb, lit)
    {
      var nc, cap, b := NewProductLit(mgr, cubeNum, body, lit);
      r := new AlgCover.Internal(mgr, nc, cap, b);
    }

    /** operator/(right): the algebraic quotient by a non-empty cover, in a new object. */
    method Quotient(right: AlgCover) returns (r: AlgCover)
      requires Valid() && right.Valid() && right.mgr.varNum == mgr.varNum && right.body != mgr.tmpBuff && right.cubeNum > 0
      modifies mgr
      ensures Valid() && right.Valid() && fresh(r) && fresh(r.body) && r.Valid() && r.mgr == mgr
      ensures r.Value() == CoverDivision.Division(old(Value()), old(right.Value()), mgr.nb)
    {
      var nc, cap, b := NewDivision(mgr, cubeNum, body, right.cubeNum, right.body);
      r := new AlgCover.Internal(mgr, nc, cap, b);
    }

    /** operator/(cube): the quotient by the one-cube cover, in a new object. */
    method QuotientCube(right: C.AlgCube) returns (r: AlgCover)
      requires Valid() && right.Valid() && right.mgr.varNum == mgr.varNum && right.body != mgr.tmpBuff
      modifies mgr
      ensures Valid() && right.Valid() && fresh(r) && fresh(r.body) && r.Valid() && r.mgr == mgr
      ensures r.Value() == CoverDivision.Division(old(Value()), [old(right.Value())], mgr.nb)
    {
      CubesOne(right.body[..], mgr.nb, 0);
      var nc, cap, b := NewDivision(mgr, cubeNum, body, 1, right.body);
      r := new AlgCover.Internal(mgr, nc, cap, b);
    }

    /** operator/(lit): the quotients of the cubes that hold the literal, in a new object. */
    method QuotientLit(lit: AlgLiteral) returns (r: AlgCover)
      requires Valid() && VarId(lit) < mgr.varNum
      ensures fresh(r) && fresh(r.body) && r.Valid() && r.mgr == mgr && LitOps.Blk(lit) < mgr.nb
      ensures r.Value() == CoverDivision.LitQuotients(Value(), mgr.nb, lit)
    {
      var nc, cap, b := NewDivisionLit(mgr, cubeNum, body, lit);
      r := new AlgCover.Internal(mgr, nc, cap, b);
    }

    // -------------------------------------------------------------------
    // Compound assignments
    // -------------------------------------------------------------------

    /**
     * operator+=(right): resize to nc1 + nc2 cubes, then sum from the old
     * body into the current one (the same array when the capacity sufficed).
     */
    method PlusAssign(right: AlgCover)
      requires Valid() && right.Valid() && right.mgr.varNum == mgr.varNum && right.body != mgr.tmpBuff && right.body != body
      modifies this, body, mgr
      ensures Valid() && right.Valid() && (body == old(body) || fresh(body))
      ensures Value() == Merge(old(Value()), old(right.Value()))
    {
      var nc1, nc2, oldBody := cubeNum, right.cubeNum, body;
      ghost var s, t := Value(), right.Value();
      Resize(nc1 + nc2);
      BaseMono(nc1 + nc2, cubeCap, mgr.nb);
      var n := mgr.Sum(body, nc1, oldBody, nc2, right.body);
      MergeLength(s, t);
      cubeNum := n;
    }

    /** operator+=(cube): resize to nc1 + 1 cubes, then sum the cube in. */
    method PlusCubeAssign(right: C.AlgCube)
      requires Valid() && right.Valid() && right.mgr.varNum == mgr.varNum && right.body != mgr.tmpBuff && right.body != body
      modifies this, body, mgr
      ensures Valid() && right.Valid() && (body == old(body) || fresh(body))
      ensures Value() == Merge(old(Value()), [old(right.Value())])
    {
      var nc1, oldBody := cubeNum, body;
      ghost var s := Value();
      CubesOne(right.body[..], mgr.nb, 0);
      Resize(nc1 + 1);
      BaseMono(nc1 + 1, cubeCap, mgr.nb);
      var n := mgr.Sum(body, nc1, oldBody, 1, right.body);
      MergeLength(s, [right.Value()]);
      cubeNum := n;
    }

    /** operator-=(right): diff in place. */
    method MinusAssign(right: AlgCover)
      requires Valid() && right.Valid() && right.mgr.varNum == mgr.varNum && right.body != mgr.tmpBuff && right.body != body
      modifies this, body
      ensures Valid() && body == old(body)
      ensures Value() == Diff(old(Value()), old(right.Value()))
    {
      var n := mgr.Diff(body, cubeNum, body, right.cubeNum, right.body);
      cubeNum := n;
    }

    /** operator-=(cube): diff by the one cube in place. */
    method MinusCubeAssign(right: C.AlgCube)
      requires Valid() && right.Valid() && right.mgr.varNum == mgr.varNum && right.body != mgr.tmpBuff && right.body != body
      modifies this, body
      ensures Valid() && body == old(body)
      ensures Value() == Diff(old(Value()), [old(right.Value())])
    {
      CubesOne(right.body[..], mgr.nb, 0);
      var n := mgr.Diff(body, cubeNum, body, 1, right.body);
      cubeNum := n;
    }

    /** operator*=(right): resize to nc1 * nc2 cubes, then product from the old body. */
    method TimesAssign(right: AlgCover)
      requires Valid() && right.Valid() && right.mgr.varNum == mgr.varNum && right.body != mgr.tmpBuff && right.body != body
      modifies this, body, mgr
      ensures Valid() && right.Valid() && (body == old(body) || fresh(body))
      ensures Value() == CoverProduct.Products(old(Value()), old(right.Value()))
    {
      var nc1, nc2, oldBody := cubeNum, right.cubeNum, body;
      Resize(nc1 * nc2);
      BaseMono(nc1 * nc2, cubeCap, mgr.nb);
      var n := mgr.Product(body, nc1, oldBody, nc2, right.body);
      cubeNum := n;
    }

    /**
     * operator*=(right) with right this object (a *= a), as intended: the
     * second operand is read from a copy of the body taken before the
     * resize. As written, product reads it from the body it writes
     * (SelfProductAsWritten).
     */
    method SquareAssign()
      requires Valid()
      modifies this, body, mgr
      ensures Valid() && (body == old(body) || fresh(body))
      ensures Value() == CoverProduct.Products(old(Value()), old(Value()))
    {
      var nc, oldBody := cubeNum, body;
      var cap2, copy := CopyBody(mgr.nb, nc, body);
      Resize(nc * nc);
      BaseMono(nc * nc, cubeCap, mgr.nb);
      var n := mgr.Product(body, nc, oldBody, nc, copy);
      cubeNum := n;
    }

    /** operator*=(cube): resize to nc1 cubes, then product by the one cube. */
    method TimesCubeAssign(right: C.AlgCube)
      requires Valid() && right.Valid() && right.mgr.varNum == mgr.varNum && right.body != mgr.tmpBuff && right.body != body
      modifies this, body, mgr
      ensures Valid() && right.Valid() && (body == old(body) || fresh(body))
      ensures Value() == CoverProduct.Products(old(Value()), [old(right.Value())])
    {
      var nc1, oldBody := cubeNum, body;
      CubesOne(right.body[..], mgr.nb, 0);
      Resize(nc1 * 1);
      BaseMono(nc1 * 1, cubeCap, mgr.nb);
      var n := mgr.Product(body, nc1, oldBody, 1, right.body);
      cubeNum := n;
    }

    /** operator*=(lit): product(lit) in place. */
    method TimesLitAssign(lit: AlgLiteral)
      requires Valid() && VarId(lit) < mgr.varNum
      modifies this, body
      ensures Valid() && body == old(body) && LitOps.Blk(lit) < mgr.nb
      ensures Value() == CoverProduct.LitProducts(old(Value()), mgr.nb, lit)
    {
      BlockInCube(mgr.varNum, VarId(lit));
      var n := mgr.ProductLitIntended(body, cubeNum, body, lit);
      cubeNum := n;
    }

    /** operator/=(right): division in place; dividing by the empty cover empties it. */
    method QuotientAssign(right: AlgCover)
      requires Valid() && right.Valid() && right.mgr.varNum == mgr.varNum && right.body != mgr.tmpBuff
      modifies this, body, mgr
      ensures Valid() && right.Valid() && body == old(body)
      ensures Value() == CoverDivision.Division(old(Value()), old(right.Value()), mgr.nb)
    {
      var n := DivideInPlace(mgr, cubeNum, body, right.cubeNum, right.body);
      cubeNum := n;
    }

    /** operator/=(cube): division by the one cube in place; the source returns a copy of the result. */
    method QuotientCubeAssign(right: C.AlgCube) returns (r: AlgCover)
      requires Valid() && right.Valid() && right.mgr.varNum == mgr.varNum && right.body != mgr.tmpBuff
      modifies this, body, mgr
      ensures Valid() && right.Valid() && body == old(body)
      ensures Value() == CoverDivision.Division(old(Value()), [old(right.Value())], mgr.nb)
      ensures fresh(r) && r.Valid() && r.mgr == mgr && r.Value() == Value()
    {
      CubesOne(right.body[..], mgr.nb, 0);
      var n := DivideInPlace(mgr, cubeNum, body, 1, right.body);
      cubeNum := n;
      r := new AlgCover.Copy(this);
    }

    /** operator/=(lit): division(lit) in place. */
    method QuotientLitAssign(lit: AlgLiteral)
      requires Valid() && VarId(lit) < mgr.varNum
      modifies this, body
      ensures Valid() && body == old(body) && LitOps.Blk(lit) < mgr.nb
      ensures Value() == CoverDivision.LitQuotients(old(Value()), mgr.nb, lit)
    {
      BlockInCube(mgr.varNum, VarId(lit));
      var n := mgr.DivisionLit(body, cubeNum, body, lit);
      cubeNum := n;
    }

    /** print(s): the text of the cover. */
    method Print() returns (s: string)
      requires Valid()
      ensures s == PrintedText(Value(), mgr.varNum, mgr.varNames)
    {
      s := mgr.Print(body, 0, cubeNum);
      BufferCoverText(body[..], mgr.varNum, cubeNum, mgr.varNames);
    }
  }

  /** What common_cube leaves in its destination, read as a cube. */
  lemma CommonValue(d: seq<Word>, a: seq<Word>, nb: nat, n: nat)
    requires nb <= |d| && Base(n, nb) <= |a| && nb <= |a|
    requires LitOps.CommonSoFar(CubeAt(d, nb, 0), a, nb, if n == 0 then 1 else n)
    ensures Uniform(Cubes(a, nb, 0, n), nb)
    ensures n > 0 ==> CubeAt(d, nb, 0) == LitOps.AndFold(Cubes(a, nb, 0, n), nb)
    ensures n > 0 ==> forall i :: 0 <= i < n ==> Covers(Cubes(a, nb, 0, n)[i], CubeAt(d, nb, 0))
    ensures n == 0 ==> CubeAt(d, nb, 0) == CubeAt(a, nb, 0)
  {
    CubesUniform(a, nb, 0, n);
    if n == 0 {
      CubesOne(a, nb, 0);
    } else {
      forall i | 0 <= i < n
        ensures Covers(Cubes(a, nb, 0, n)[i], CubeAt(d, nb, 0))
      {
        LitOps.FoldCovered(Cubes(a, nb, 0, n), nb, i);
      }
    }
  }

  // ---------------------------------------------------------------------
  // a *= a as written
  // ---------------------------------------------------------------------

  /**
   * Row x of product's loop when the second operand is the destination d
   * itself: column j reads cube j of d as the row has left it, and each
   * product is written at the cursor w. A product that fails still stores
   * its words before the clash at the cursor, which does not move. The
   * destination and the cursor after the row.
   */
  function SelfRow(x: Cube, d: seq<Cube>, j: nat, n: nat, w: nat): (r: (seq<Cube>, nat))
    requires j <= n <= |d| && w + (n - j) <= |d|
    ensures |r.0| == |d| && w <= r.1 <= w + (n - j)
    decreases n - j
  {
    if j == n then (d, w)
    else if CoverProduct.Multiplies(x, d[j]) then SelfRow(x, d[w := OrCube(x, d[j])], j + 1, n, w + 1)
    else SelfRow(x, d[w := StoredProduct(x, d[j], d[w])], j + 1, n, w)
  }

  /** Rows i .. |s| - 1 of that loop; s is the copy of the first operand in the work buffer. */
  function SelfRows(s: Cover, i: nat, d: seq<Cube>, n: nat, w: nat): (r: (seq<Cube>, nat))
    requires i <= |s| && n <= |d| && w + Base(|s| - i, n) <= |d|
    ensures |r.0| == |d| && r.1 <= w + Base(|s| - i, n)
    decreases |s| - i
  {
    if i == |s| then (d, w)
    else
      var p := SelfRow(s[i], d, 0, n, w);
      SelfRows(s, i + 1, p.0, n, p.1)
  }

  /**
   * operator*=(right) with right the object itself, when the capacity
   * suffices (AlgCover.h:829-846): product(mBody, nc, old_body, nc,
   * right.mBody) gets the one body d, holding the cover s in front, as
   * destination and second operand. The first operand is read from its
   * copy; the second from d as the writes leave it.
   */
  function SelfProductAsWritten(s: Cover, d: seq<Cube>): (r: Cover)
    requires |s| * |s| <= |d| && |s| <= |d| && d[..|s|] == s
    ensures |r| <= |s| * |s|
  {
    BaseIsProduct(|s|, |s|);
    var p := SelfRows(s, 0, d, |s|, 0);
    p.0[..p.1]
  }

  /**
   * (a + b) *= (a + b): the first row writes a b over cube 1, where b
   * was, so the second row reads a and a b and never meets b; the result
   * a + a b + a b + a b has lost the cube b that b times b gives.
   */
  lemma SelfProductFinding()
    ensures SelfProductAsWritten([CoverDivision.CubeA, CoverDivision.CubeB],
                                 [CoverDivision.CubeA, CoverDivision.CubeB, [0], [0]]) ==
            [CoverDivision.CubeA, CoverDivision.CubeAB, CoverDivision.CubeAB, CoverDivision.CubeAB]
    ensures CoverProduct.Products([CoverDivision.CubeA, CoverDivision.CubeB], [CoverDivision.CubeA, CoverDivision.CubeB]) ==
            [CoverDivision.CubeA, CoverDivision.CubeAB, CoverDivision.CubeAB, CoverDivision.CubeB]
  {
    var a, b, ab := CoverDivision.CubeA, CoverDivision.CubeB, CoverDivision.CubeAB;
    var s, d := [a, b], [a, b, [0], [0]];
    assert d[..2] == s;
    SelfFirstRow();
    SelfSecondRow();
    var p1 := SelfRow(a, d, 0, 2, 0);
    var p2 := SelfRow(b, p1.0, 0, 2, p1.1);
    assert SelfRows(s, 0, d, 2, 0) == SelfRows(s, 1, p1.0, 2, p1.1);
    assert SelfRows(s, 1, p1.0, 2, p1.1) == SelfRows(s, 2, p2.0, 2, p2.1);
    assert p2.0[..4] == [a, ab, ab, ab];
    SelfProductRows();
  }

  /** Row a of the example: a a = a over cube 0, then a b over cube 1. */
  lemma SelfFirstRow()
    ensures SelfRow(CoverDivision.CubeA, [CoverDivision.CubeA, CoverDivision.CubeB, [0], [0]], 0, 2, 0) ==
            ([CoverDivision.CubeA, CoverDivision.CubeAB, [0], [0]], 2)
  {
    var a, b, ab := CoverDivision.CubeA, CoverDivision.CubeB, CoverDivision.CubeAB;
    var d := [a, b, [0], [0]];
    SelfProductWords();
    assert d[0 := a] == d;
    assert SelfRow(a, d, 0, 2, 0) == SelfRow(a, d, 1, 2, 1);
    assert d[1 := ab] == [a, ab, [0], [0]];
    assert SelfRow(a, d, 1, 2, 1) == SelfRow(a, [a, ab, [0], [0]], 2, 2, 2);
  }

  /** Row b of the example: b a = a b into cube 2, then b (a b) = a b into cube 3. */
  lemma SelfSecondRow()
    ensures SelfRow(CoverDivision.CubeB, [CoverDivision.CubeA, CoverDivision.CubeAB, [0], [0]], 0, 2, 2) ==
            ([CoverDivision.CubeA, CoverDivision.CubeAB, CoverDivision.CubeAB, CoverDivision.CubeAB], 4)
  {
    var a, b, ab := CoverDivision.CubeA, CoverDivision.CubeB, CoverDivision.CubeAB;
    var d := [a, ab, [0], [0]];
    SelfProductWords();
    assert d[2 := ab] == [a, ab, ab, [0]];
    assert SelfRow(b, d, 0, 2, 2) == SelfRow(b, [a, ab, ab, [0]], 1, 2, 3);
    assert [a, ab, ab, [0]][3 := ab] == [a, ab, ab, ab];
    assert SelfRow(b, [a, ab, ab, [0]], 1, 2, 3) == SelfRow(b, [a, ab, ab, ab], 2, 2, 4);
  }

  /** The product (a + b)(a + b) row by row: a + a b, then a b + b. */
  lemma SelfProductRows()
    ensures CoverProduct.Products([CoverDivision.CubeA, CoverDivision.CubeB], [CoverDivision.CubeA, CoverDivision.CubeB]) ==
            [CoverDivision.CubeA, CoverDivision.CubeAB, CoverDivision.CubeAB, CoverDivision.CubeB]
  {
    var a, b, ab := CoverDivision.CubeA, CoverDivision.CubeB, CoverDivision.CubeAB;
    SelfRowOfA();
    SelfRowOfB();
    assert [a, b][..1] == [a];
    assert [a][..0] == [];
    assert CoverProduct.Products([a], [a, b]) == [a, ab];
  }

  /** Row a of (a + b)(a + b): a, a b. */
  lemma SelfRowOfA()
    ensures CoverProduct.RowProducts(CoverDivision.CubeA, [CoverDivision.CubeA, CoverDivision.CubeB]) ==
            [CoverDivision.CubeA, CoverDivision.CubeAB]
  {
    var a, b := CoverDivision.CubeA, CoverDivision.CubeB;
    SelfProductWords();
    assert [a, b][..1] == [a];
    assert [a][..0] == [];
  }

  /** Row b of (a + b)(a + b): a b, b. */
  lemma SelfRowOfB()
    ensures CoverProduct.RowProducts(CoverDivision.CubeB, [CoverDivision.CubeA, CoverDivision.CubeB]) ==
            [CoverDivision.CubeAB, CoverDivision.CubeB]
  {
    var a, b := CoverDivision.CubeA, CoverDivision.CubeB;
    SelfProductWords();
    assert [a, b][..1] == [a];
    assert [a][..0] == [];
  }

  /** The cube products of the a *= a example, word by word. */
  lemma SelfProductWords()
    ensures CoverProduct.Multiplies(CoverDivision.CubeA, CoverDivision.CubeA)
    ensures CoverProduct.Multiplies(CoverDivision.CubeA, CoverDivision.CubeB)
    ensures CoverProduct.Multiplies(CoverDivision.CubeB, CoverDivision.CubeA)
    ensures CoverProduct.Multiplies(CoverDivision.CubeB, CoverDivision.CubeB)
    ensures CoverProduct.Multiplies(CoverDivision.CubeB, CoverDivision.CubeAB)
    ensures OrCube(CoverDivision.CubeA, CoverDivision.CubeA) == CoverDivision.CubeA
    ensures OrCube(CoverDivision.CubeA, CoverDivision.CubeB) == CoverDivision.CubeAB
    ensures OrCube(CoverDivision.CubeB, CoverDivision.CubeA) == CoverDivision.CubeAB
    ensures OrCube(CoverDivision.CubeB, CoverDivision.CubeB) == CoverDivision.CubeB
    ensures OrCube(CoverDivision.CubeB, CoverDivision.CubeAB) == CoverDivision.CubeAB
  {
  }

  /** a v40, b v40' and a b v40' as cubes of two words; variable 40 is field 23 of word 1. */
  const TwoWordA: Cube := [0x8000_0000_0000_0000, 0x0000_8000_0000_0000]
  const TwoWordB: Cube := [0x2000_0000_0000_0000, 0x0000_4000_0000_0000]
  const TwoWordAB: Cube := [0xA000_0000_0000_0000, 0x0000_4000_0000_0000]

  /**
   * (a v40 + b v40') *= itself with two words per cube: a v40 times
   * b v40' clashes only in word 1, after storing a b over cube 1, so the
   * second row reads a b v40' there; the result a v40 + a b v40' holds a
   * cube the product a v40 + b v40' does not.
   */
  lemma SelfProductTwoWords()
    ensures SelfProductAsWritten([TwoWordA, TwoWordB], [TwoWordA, TwoWordB, [0, 0], [0, 0]]) == [TwoWordA, TwoWordAB]
    ensures CoverProduct.Products([TwoWordA, TwoWordB], [TwoWordA, TwoWordB]) == [TwoWordA, TwoWordB]
  {
    var x, y, z, e := TwoWordA, TwoWordB, TwoWordAB, [0, 0];
    var s, d := [x, y], [x, y, e, e];
    assert d[..2] == s;
    SelfTwoWordsFirstRow();
    SelfTwoWordsSecondRow();
    var p1 := SelfRow(x, d, 0, 2, 0);
    var p2 := SelfRow(y, p1.0, 0, 2, p1.1);
    assert SelfRows(s, 0, d, 2, 0) == SelfRows(s, 1, p1.0, 2, p1.1);
    assert SelfRows(s, 1, p1.0, 2, p1.1) == SelfRows(s, 2, p2.0, 2, p2.1);
    assert p2.0[..2] == [x, z];
    SelfTwoWordsProducts();
  }

  /** Row a v40: a v40 over cube 0, then the failed a v40 times b v40' leaves a b v40' in cube 1. */
  lemma SelfTwoWordsFirstRow()
    ensures SelfRow(TwoWordA, [TwoWordA, TwoWordB, [0, 0], [0, 0]], 0, 2, 0) ==
            ([TwoWordA, TwoWordAB, [0, 0], [0, 0]], 1)
  {
    var x, y, z, e := TwoWordA, TwoWordB, TwoWordAB, [0, 0];
    var d := [x, y, e, e];
    SelfTwoWordsCubes();
    assert d[0 := x] == d;
    assert SelfRow(x, d, 0, 2, 0) == SelfRow(x, d, 1, 2, 1);
    assert d[1 := z] == [x, z, e, e];
    assert SelfRow(x, d, 1, 2, 1) == SelfRow(x, [x, z, e, e], 2, 2, 1);
  }

  /** Row b v40': the failed product with cube 0 stores a b again, then b v40' (a b v40') is a b v40'. */
  lemma SelfTwoWordsSecondRow()
    ensures SelfRow(TwoWordB, [TwoWordA, TwoWordAB, [0, 0], [0, 0]], 0, 2, 1) ==
            ([TwoWordA, TwoWordAB, [0, 0], [0, 0]], 2)
  {
    var x, y, z, e := TwoWordA, TwoWordB, TwoWordAB, [0, 0];
    var d := [x, z, e, e];
    SelfTwoWordsCubes();
    assert d[1 := z] == d;
    assert SelfRow(y, d, 0, 2, 1) == SelfRow(y, d, 1, 2, 1);
    assert SelfRow(y, d, 1, 2, 1) == SelfRow(y, d, 2, 2, 2);
  }

  /** The product (a v40 + b v40')(a v40 + b v40') row by row: a v40, then b v40'. */
  lemma SelfTwoWordsProducts()
    ensures CoverProduct.Products([TwoWordA, TwoWordB], [TwoWordA, TwoWordB]) == [TwoWordA, TwoWordB]
  {
    var x, y := TwoWordA, TwoWordB;
    SelfTwoWordsCubes();
    assert [x, y][..1] == [x];
    assert [x][..0] == [];
    assert CoverProduct.RowProducts(x, [x, y]) == [x];
    assert CoverProduct.RowProducts(y, [x, y]) == [y];
    assert CoverProduct.Products([x], [x, y]) == [x];
    assert [x, y][..2 - 1] == [x];
  }

  /** The cube products of the two-word example, word by word. */
  lemma SelfTwoWordsCubes()
    ensures CoverProduct.Multiplies(TwoWordA, TwoWordA) && OrCube(TwoWordA, TwoWordA) == TwoWordA
    ensures CoverProduct.Multiplies(TwoWordB, TwoWordB) && OrCube(TwoWordB, TwoWordB) == TwoWordB
    ensures !CoverProduct.Multiplies(TwoWordA, TwoWordB) && !CoverProduct.Multiplies(TwoWordB, TwoWordA)
    ensures CoverProduct.Multiplies(TwoWordB, TwoWordAB) && OrCube(TwoWordB, TwoWordAB) == TwoWordAB
    ensures StoredProduct(TwoWordA, TwoWordB, TwoWordB) == TwoWordAB
    ensures StoredProduct(TwoWordB, TwoWordA, TwoWordAB) == TwoWordAB
  {
    assert !ProductFree(TwoWordA[1], TwoWordB[1]);
    assert ProductFree(TwoWordA[0], TwoWordB[0]);
    assert StoredProduct(TwoWordA, TwoWordB, TwoWordB) == [OrWord(TwoWordA[0], TwoWordB[0])] + TwoWordB[1..];
    assert StoredProduct(TwoWordB, TwoWordA, TwoWordAB) == [OrWord(TwoWordB[0], TwoWordA[0])] + TwoWordAB[1..];
  }

  // ---------------------------------------------------------------------
  // Comparison of covers
  // ---------------------------------------------------------------------

  /** compare(left, right): the covers in the cube-by-cube lexicographic order. */
  method Compare(left: AlgCover, right: AlgCover) returns (r: int)
    requires left.Valid() && right.Valid() && left.mgr == right.mgr
    ensures r == CoverCompare(left.Value(), right.Value())
  {
    r := CubeBuffer.Compare(left.mgr.nb, left.cubeNum, left.body, right.cubeNum, right.body);
  }

  /** operator==: the same cubes in the same order. */
  method Equal(left: AlgCover, right: AlgCover) returns (r: bool)
    requires left.Valid() && right.Valid() && left.mgr == right.mgr
    ensures r <==> left.Value() == right.Value()
  {
    var c := Compare(left, right);
    CoverCompareZeroIff(left.Value(), right.Value());
    r := c == 0;
  }

  /** operator!=: different covers. */
  method NotEqual(left: AlgCover, right: AlgCover) returns (r: bool)
    requires left.Valid() && right.Valid() && left.mgr == right.mgr
    ensures r <==> left.Value() != right.Value()
  {
    var c := Compare(left, right);
    CoverCompareZeroIff(left.Value(), right.Value());
    r := c != 0;
  }

  /** operator<: left comes before right. */
  method Less(left: AlgCover, right: AlgCover) returns (r: bool)
    requires left.Valid() && right.Valid() && left.mgr == right.mgr
    ensures r <==> CoverCompare(left.Value(), right.Value()) < 0
  {
    var c := Compare(left, right);
    r := c < 0;
  }

  /** operator>: right comes before left, so the relation is operator< with its operands swapped. */
  method Greater(left: AlgCover, right: AlgCover) returns (r: bool)
    requires left.Valid() && right.Valid() && left.mgr == right.mgr
    ensures r <==> CoverCompare(right.Value(), left.Value()) < 0
  {
    var c := Compare(left, right);
    CoverCompareAntisym(left.Value(), right.Value());
    r := c > 0;
  }

  /** operator<=: not operator> . */
  method LessEq(left: AlgCover, right: AlgCover) returns (r: bool)
    requires left.Valid() && right.Valid() && left.mgr == right.mgr
    ensures r <==> !(CoverCompare(right.Value(), left.Value()) < 0)
  {
    var c := Compare(left, right);
    CoverCompareAntisym(left.Value(), right.Value());
    r := c <= 0;
  }

  /** operator>=: not operator< . */
  method GreaterEq(left: AlgCover, right: AlgCover) returns (r: bool)
    requires left.Valid() && right.Valid() && left.mgr == right.mgr
    ensures r <==> !(CoverCompare(left.Value(), right.Value()) < 0)
  {
    var c := Compare(left, right);
    r := c >= 0;
  }
}
