/**
 * print (c++-srcs/AlgMgr.cc:1057-1080) over a word buffer: the text its
 * two loops write, defined loop step by loop step, and the loops proved to
 * write it. SopText relates this text to the literal lists of the cubes
 * and reads it back.
 */
module SopPrint {
  import opened CubeBits
  import opened CubeView

  /** literal(bv, c, v) on a cube: the two-bit field of variable v. */
  function FieldOf(x: Cube, v: nat): (f: Word)
    requires BlockPos(v) < |x|
    ensures f <= 3
  {
    Field(x[BlockPos(v)], FieldIdx(v))
  }

  /** Some variable below j has a literal in the cube x. */
  predicate HasLit(x: Cube, j: nat)
    requires CubeSize(j) <= |x|
    decreases j
  {
    j > 0 && (HasLit(x, j - 1) || FieldOf(x, j - 1) == 1 || FieldOf(x, j - 1) == 2)
  }

  /** What print writes for a field of polarity f of the variable called name; sep says a literal came before. */
  function FieldOut(f: Word, name: string, sep: bool): string
  {
    if f == 2 then (if sep then " " else "") + name
    else if f == 1 then (if sep then " " else "") + name + "'"
    else ""
  }

  /** The text print's inner loop has written after the variables below j. */
  function CubeOut(x: Cube, j: nat, names: seq<string>): string
    requires j <= |names| && CubeSize(j) <= |x|
    decreases j
  {
    if j == 0 then "" else CubeOut(x, j - 1, names) + FieldOut(FieldOf(x, j - 1), names[j - 1], HasLit(x, j - 1))
  }

  /** The field of variable j in cube c of a buffer, read from the buffer directly. */
  lemma FieldOfAt(a: seq<Word>, nb: nat, c: nat, j: nat)
    requires Base(c, nb) + nb <= |a| && BlockPos(j) < nb
    ensures FieldOf(CubeAt(a, nb, c), j) == Field(a[Base(c, nb) + BlockPos(j)], FieldIdx(j))
  {
    CubeAtIndex(a, nb, c, BlockPos(j));
  }

  /**
   * One step of print's inner loop: from the text s and separator spc
   * written for the variables below j, what it writes for the field of
   * variable j gives the text for the variables below j + 1.
   */
  lemma CubeOutStep(x: Cube, j: nat, names: seq<string>, s: string, spc: string)
    requires j < |names| && CubeSize(j + 1) <= |x|
    requires CubeSize(j) <= |x| ==> s == CubeOut(x, j, names) && spc == if HasLit(x, j) then " " else ""
    ensures CubeSize(j) <= |x| && BlockPos(j) < |x|
    ensures FieldOf(x, j) == 2 ==> s + (spc + names[j]) == CubeOut(x, j + 1, names) && HasLit(x, j + 1)
    ensures FieldOf(x, j) == 1 ==> s + (spc + names[j] + "'") == CubeOut(x, j + 1, names) && HasLit(x, j + 1)
    ensures FieldOf(x, j) != 1 && FieldOf(x, j) != 2 ==> s == CubeOut(x, j + 1, names) && HasLit(x, j + 1) == HasLit(x, j)
  {
    CubeSizeStep(j + 1, j);
  }

  // ---------------------------------------------------------------------
  // print's outer loop
  // ---------------------------------------------------------------------

  /**
   * The text print writes for cubes lo .. hi of the buffer a, cube by
   * cube as its outer loop does: " + " before every cube but the first.
   */
  function BufferText(a: seq<Word>, nv: nat, lo: nat, hi: nat, names: seq<string>): string
    requires |names| == nv && lo <= hi && Base(hi, CubeSize(nv)) <= |a|
    decreases hi - lo
  {
    if hi == lo then ""
    else BufferText(a, nv, lo, hi - 1, names) + (if hi - 1 == lo then "" else " + ") +
         CubeOut(CubeAt(a, CubeSize(nv), hi - 1), nv, names)
  }

  // ---------------------------------------------------------------------
  // The loops
  // ---------------------------------------------------------------------

  /**
   * The inner loop of print: the literals of cube c of the words a, in
   * variable order. The buffer is only read, so it is passed as its value.
   */
  method PrintCube(a: seq<Word>, c: nat, nv: nat, names: seq<string>) returns (s: string)
    requires |names| == nv && Base(c, CubeSize(nv)) + CubeSize(nv) <= |a|
    ensures s == CubeOut(CubeAt(a, CubeSize(nv), c), nv, names)
  {
    var nb := CubeSize(nv);
    ghost var x := CubeAt(a, nb, c);
    var off := Base(c, nb);
    s := "";
    var spc := "";
    for j := 0 to nv
      invariant CubeSize(j) <= nb
      invariant s == CubeOut(x, j, names)
      invariant spc == if HasLit(x, j) then " " else ""
    {
      CubeSizeStep(nv, j);
      CubeOutStep(x, j, names, s, spc);
      FieldOfAt(a, nb, c, j);
      var pol := Field(a[off + BlockPos(j)], FieldIdx(j));
      if pol == 2 {
        s := s + (spc + names[j]);
        spc := " ";
      } else if pol == 1 {
        s := s + (spc + names[j] + "'");
        spc := " ";
      }
    }
  }

  /** One pass of print's outer loop: the separator, then the text of cube i. */
  method PrintNext(a: seq<Word>, nv: nat, lo: nat, hi: nat, i: nat, names: seq<string>, s: string, plus: string)
    returns (s': string, plus': string)
    requires |names| == nv && lo <= i < hi && Base(i, CubeSize(nv)) <= |a| && Base(hi, CubeSize(nv)) <= |a|
    requires s == BufferText(a, nv, lo, i, names) && plus == (if i == lo then "" else " + ")
    ensures Base(i + 1, CubeSize(nv)) <= |a|
    ensures s' == BufferText(a, nv, lo, i + 1, names) && plus' == " + "
  {
    CubeInside(i, hi, CubeSize(nv));
    var t := PrintCube(a, i, nv, names);
    s' := s + plus + t;
    plus' := " + ";
  }

  /** print's outer loop over the cubes lo .. hi of bv. */
  method PrintCubes(bv: array<Word>, lo: nat, hi: nat, nv: nat, names: seq<string>) returns (s: string)
    requires |names| == nv && lo <= hi && Base(hi, CubeSize(nv)) <= bv.Length
    ensures s == BufferText(bv[..], nv, lo, hi, names)
  {
    var a := bv[..];
    BaseMono(lo, hi, CubeSize(nv));
    s := "";
    var plus := "";
    for i := lo to hi
      invariant Base(i, CubeSize(nv)) <= |a|
      invariant s == BufferText(a, nv, lo, i, names)
      invariant plus == if i == lo then "" else " + "
    {
      s, plus := PrintNext(a, nv, lo, hi, i, names, s, plus);
    }
  }
}
