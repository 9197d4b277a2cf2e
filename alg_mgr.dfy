/**
 * AlgMgr (c++-srcs/AlgMgr.cc, include/ym/AlgMgr.h): the manager that owns
 * the variable names and a scratch buffer, and performs every cover
 * operation on caller-supplied word buffers.
 *
 * A cover of n cubes in a buffer bv is Cubes(bv[..], nb, 0, n); each
 * operation is proved to leave in its destination exactly the value a
 * function of CubeOrder, CoverProduct or CoverDivision computes from its inputs.
 */
module AlgMgrNew {
  import opened CubeBits
  import opened CubeView
  import opened CubeOrder
  import opened CubeBuffer
  import opened AlgLiterals
  import opened SopText
  import opened SopPrint
  import LitOps
  import CoverProduct
  import CoverDivision
  import CubeSort

  /** _varname: the id written in base 26 with the digits a .. z. */
  function VarName(id: nat): (r: string)
    ensures |r| >= 1
    ensures forall i :: 0 <= i < |r| ==> 'a' <= r[i] <= 'z'
    ensures r[|r| - 1] == ('a' as int + id % 26) as char
  {
    (if id >= 26 then VarName(id / 26) else "") + [('a' as int + id % 26) as char]
  }

  /** The value of a letter string read as a base-26 numeral with a = 0. */
  function LetterValue(s: string): int
  {
    if |s| == 0 then 0
    else LetterValue(s[..|s| - 1]) * 26 + (s[|s| - 1] as int - 'a' as int)
  }

  /** Reading a generated name back gives its id. */
  lemma {:induction false} VarNameValue(id: nat)
    ensures LetterValue(VarName(id)) == id
  {
    var pre := if id >= 26 then VarName(id / 26) else "";
    var c := ('a' as int + id % 26) as char;
    assert VarName(id) == pre + [c];
    LetterValueSnoc(pre, c);
    if id >= 26 {
      VarNameValue(id / 26);
    }
    DivMod26(id);
  }

  lemma LetterValueSnoc(pre: string, c: char)
    ensures LetterValue(pre + [c]) == LetterValue(pre) * 26 + (c as int - 'a' as int)
  {
    assert (pre + [c])[..|pre|] == pre;
  }

  lemma DivMod26(id: nat)
    ensures (id / 26) * 26 + ((('a' as int + id % 26) as char) as int - 'a' as int) == id
  {
  }

  /** A generated name only starts with a when it is "a" itself. */
  lemma {:induction false} VarNameLead(id: nat)
    ensures VarName(id)[0] == 'a' ==> id == 0
  {
    if id >= 26 {
      VarNameLead(id / 26);
      assert VarName(id)[0] == VarName(id / 26)[0];
    }
  }

  /** Different ids get different names. */
  lemma VarNameInjective(i: nat, j: nat)
    requires VarName(i) == VarName(j)
    ensures i == j
  {
    VarNameValue(i);
    VarNameValue(j);
  }

  /**
   * The name table the constructors build with emplace: every name of the
   * list maps to its first position.
   */
  ghost predicate NameIndex(names: seq<string>, m: map<string, nat>)
  {
    (forall name :: name in m <==> name in names) &&
    (forall name :: name in m ==> m[name] < |names| && names[m[name]] == name &&
                                  forall j :: 0 <= j < m[name] ==> names[j] != name)
  }

  /** The capacity _resize_buff reaches: size doubled until it is at least req. */
  function Grown(size: nat, req: nat): (r: nat)
    requires size >= 1
    decreases req - size
  {
    if size >= req then size else Grown(2 * size, req)
  }

  /** r is size doubled some number of times. */
  ghost predicate Doubling(size: nat, r: nat)
    decreases r
  {
    r == size || (size >= 1 && r >= 2 * size && r % 2 == 0 && Doubling(size, r / 2))
  }

  lemma {:induction false} DoublingHalf(size: nat, r: nat)
    requires size >= 1 && Doubling(2 * size, r)
    ensures Doubling(size, r)
    decreases r
  {
    if r != 2 * size {
      DoublingHalf(size, r / 2);
    }
  }

  /**
   * Doubling stops at the least size * 2^k that reaches req: the result is
   * at least req, and it only grew while its half was still too small.
   */
  lemma {:induction false} GrownLeast(size: nat, req: nat)
    requires size >= 1
    ensures Grown(size, req) >= req && Doubling(size, Grown(size, req))
    ensures Grown(size, req) == size || Grown(size, req) / 2 < req
    decreases req - size
  {
    if size < req {
      GrownLeast(2 * size, req);
      DoublingHalf(size, Grown(2 * size, req));
    }
  }

  /** emplace of one more name: a name already present keeps its position. */
  lemma NameIndexSnoc(names: seq<string>, m: map<string, nat>, name: string)
    requires NameIndex(names, m)
    ensures NameIndex(names + [name], if name in m then m else m[name := |names|])
  {
    var ns := names + [name];
    assert forall j :: 0 <= j < |names| ==> ns[j] == names[j];
    assert ns[|names|] == name;
  }

  /** The names AlgMgr(variable_num) gives its first n variables. */
  function Generated(n: nat): (r: seq<string>)
    ensures |r| == n
  {
    if n == 0 then [] else Generated(n - 1) + [VarName(n - 1)]
  }

  /** Variable k is named VarName(k). */
  lemma {:induction false} GeneratedAt(n: nat, k: nat)
    requires k < n
    ensures Generated(n)[k] == VarName(k)
  {
    if k < n - 1 {
      GeneratedAt(n - 1, k);
    }
  }

  /** The name list and table AlgMgr(variable_num) builds. */
  method DefaultNameList(n: nat) returns (names: seq<string>, m: map<string, nat>)
    ensures names == Generated(n)
    ensures NameIndex(names, m)
  {
    names, m := [], map[];
    for i := 0 to n
      invariant names == Generated(i)
      invariant NameIndex(names, m)
    {
      var name := VarName(i);
      NameIndexSnoc(names, m, name);
      if name !in m {
        m := m[name := i];
      }
      names := names + [name];
    }
  }

  /** The name table AlgMgr(varname_list) builds with emplace. */
  method NameMapOf(names: seq<string>) returns (m: map<string, nat>)
    ensures NameIndex(names, m)
  {
    m := map[];
    for i := 0 to |names|
      invariant NameIndex(names[..i], m)
    {
      assert names[..i + 1] == names[..i] + [names[i]];
      NameIndexSnoc(names[..i], m, names[i]);
      if names[i] !in m {
        m := m[names[i] := i];
      }
    }
    assert names[..|names|] == names;
  }

  /** State 1 of parse: the longest run of name characters from p on. */
  method ReadName(str: string, p: nat) returns (name: string, q: nat)
    requires p < |str| && NameChar(str[p])
    ensures p < q <= |str| && name == str[p..q]
    ensures forall k :: p <= k < q ==> NameChar(str[k])
    ensures q == |str| || !NameChar(str[q])
  {
    name, q := "", p;
    while q < |str| && IsValidChar(str[q])
      invariant p <= q <= |str| && name == str[p..q]
      invariant forall k :: p <= k < q ==> NameChar(str[k])
      decreases |str| - q
    {
      name := name + [str[q]];
      q := q + 1;
    }
  }

  /** The final loop of parse: a cube starts at each literal that follows a separator or the start. */
  method CountCubes(lits: seq<AlgLiteral>) returns (cubeNum: nat)
    ensures cubeNum == LitOps.RunCount(lits)
  {
    cubeNum := 0;
    var first := true;
    for i := 0 to |lits|
      invariant cubeNum + LitOps.Runs(first, lits[i..]) == LitOps.RunCount(lits)
    {
      assert lits[i..][1..] == lits[i + 1..];
      if lits[i] == Undef() {
        first := true;
      } else if first {
        first := false;
        cubeNum := cubeNum + 1;
      }
    }
  }

  /** The generated names are names, and each is read back as its own id. */
  lemma DefaultNames(names: seq<string>, m: map<string, nat>)
    requires |names| < 0x8000_0000 && NameIndex(names, m) && names == Generated(|names|)
    ensures NameTable(names, m)
  {
    forall v | 0 <= v < |names|
      ensures IsName(names[v]) && names[v] in m && m[names[v]] == v
    {
      GeneratedAt(|names|, v);
      GeneratedAt(|names|, m[names[v]]);
      VarNameInjective(m[names[v]], v);
    }
  }

  /** The name table of a manager maps names to variables below 2^31. */
  lemma IndexBounded(names: seq<string>, m: map<string, nat>)
    requires |names| < 0x8000_0000 && NameIndex(names, m)
    ensures Bounded(m)
  {
  }

  class AlgMgr {
    /** mVarNum */
    const varNum: nat
    /** _cube_size(): the words per cube */
    const nb: nat
    /** mVarNameList */
    const varNames: seq<string>
    /** mVarNameMap */
    const nameMap: map<string, nat>
    /** mTmpBuff and mTmpBuffSize (in cubes) */
    var tmpBuff: array<Word>
    var tmpBuffSize: nat

    ghost predicate Valid()
      reads this
    {
      varNum < 0x8000_0000 && nb == CubeSize(varNum) && |varNames| == varNum && NameIndex(varNames, nameMap) &&
      tmpBuffSize >= 1 && tmpBuff.Length == Base(tmpBuffSize, nb) && nb <= tmpBuff.Length
    }

    /** AlgMgr(variable_num): variables named a, b, ..., z, ba, bb, ... */
    constructor (variableNum: nat)
      requires variableNum < 0x8000_0000
      ensures Valid() && varNum == variableNum
      ensures varNames == Generated(variableNum)
      ensures NameTable(varNames, nameMap)
      ensures tmpBuffSize == 128
    {
      var names, m := DefaultNameList(variableNum);
      DefaultNames(names, m);
      varNum := variableNum;
      nb := CubeSize(variableNum);
      varNames := names;
      nameMap := m;
      tmpBuffSize := 128;
      CubeInside(0, 128, CubeSize(variableNum));
      tmpBuff := new Word[Base(128, CubeSize(variableNum))](_ => 0);
    }

    /** AlgMgr(varname_list): the given names; a repeated name keeps its first id. */
    constructor FromNames(names: seq<string>)
      requires |names| < 0x8000_0000
      ensures Valid() && varNum == |names| && varNames == names
      ensures tmpBuffSize == 128
    {
      var m := NameMapOf(names);
      varNum := |names|;
      nb := CubeSize(|names|);
      varNames := names;
      nameMap := m;
      tmpBuffSize := 128;
      CubeInside(0, 128, CubeSize(|names|));
      tmpBuff := new Word[Base(128, CubeSize(|names|))](_ => 0);
    }

    /** varname(var_id) */
    function VarNameOf(v: nat): (r: string)
      requires Valid() && v < varNum
      reads this
      ensures NameIndex(varNames, nameMap) && r in nameMap
    {
      varNames[v]
    }

    /**
     * _resize_buff: double the size until it holds req cubes and take a
     * fresh zeroed buffer, which the source does on every call.
     */
    method ResizeBuff(req: nat)
      requires Valid()
      modifies this
      ensures Valid() && fresh(tmpBuff)
      ensures tmpBuffSize == Grown(old(tmpBuffSize), req) && tmpBuffSize >= req
      ensures forall k :: 0 <= k < tmpBuff.Length ==> tmpBuff[k] == 0
    {
      GrownLeast(tmpBuffSize, req);
      var size := tmpBuffSize;
      while size < req
        invariant size >= 1 && Grown(size, req) == Grown(tmpBuffSize, req)
        decreases req - size
      {
        size := 2 * size;
      }
      tmpBuffSize := size;
      CubeInside(0, size, nb);
      tmpBuff := new Word[Base(size, nb)](_ => 0);
    }

    /**
     * sum: the merge of two covers. The first operand is copied to the
     * scratch buffer first, so the destination may be that operand.
     */
    method Sum(dst: array<Word>, nc1: nat, buf1: array<Word>, nc2: nat, buf2: array<Word>) returns (wpos: nat)
      requires Valid()
      requires Base(nc1, nb) <= buf1.Length && Base(nc2, nb) <= buf2.Length && Base(nc1 + nc2, nb) <= dst.Length
      requires dst != buf2 && dst != tmpBuff && buf1 != tmpBuff && buf2 != tmpBuff
      modifies this, dst
      ensures Valid() && fresh(tmpBuff)
      ensures Base(wpos, nb) <= dst.Length
      ensures Cubes(dst[..], nb, 0, wpos) == Merge(old(Cubes(buf1[..], nb, 0, nc1)), old(Cubes(buf2[..], nb, 0, nc2)))
    {
      ghost var s := Cubes(buf1[..], nb, 0, nc1);
      ghost var t := Cubes(buf2[..], nb, 0, nc2);
      ResizeBuff(nc1);
      BaseMono(nc1, tmpBuffSize, nb);
      ghost var tb := tmpBuff[..];
      Copy(nb, nc1, tmpBuff, 0, buf1, 0);
      CubesCopied(tb, buf1[..], nb, 0, 0, nc1);
      var tmp := tmpBuff;
      assert Cubes(tmp[..], nb, 0, nc1) == s;
      wpos := MergeCovers(nb, dst, nc1, tmp, nc2, buf2);
    }

    /**
     * diff: the cubes of the first cover that the second lacks. The write
     * cursor never passes the first read cursor, so the destination may be
     * the first operand.
     */
    method Diff(dst: array<Word>, nc1: nat, buf1: array<Word>, nc2: nat, buf2: array<Word>) returns (wpos: nat)
      requires Base(nc1, nb) <= buf1.Length && Base(nc2, nb) <= buf2.Length && Base(nc1, nb) <= dst.Length
      requires dst != buf2
      modifies dst
      ensures wpos <= nc1 && Base(wpos, nb) <= dst.Length
      ensures Cubes(dst[..], nb, 0, wpos) == CubeOrder.Diff(old(Cubes(buf1[..], nb, 0, nc1)), old(Cubes(buf2[..], nb, 0, nc2)))
    {
      ghost var a := buf1[..];
      ghost var s := Cubes(buf1[..], nb, 0, nc1);
      ghost var t := Cubes(buf2[..], nb, 0, nc2);
      var rpos1, rpos2;
      wpos, rpos1, rpos2 := DiffLoop(nb, dst, nc1, buf1, nc2, buf2);
      DiffInvIff(Cubes(dst[..], nb, 0, wpos), s, t, rpos1, rpos2);
      DiffRest(s, t, rpos1, rpos2);
      CubesSuffix(a, nb, rpos1, nc1);
      CubesAgree(buf1[..], a, nb, rpos1, nc1);
      wpos := CopyTail(nb, dst, wpos, buf1, rpos1, nc1, nc1);
      BaseMono(wpos, nc1, nb);
    }

    /**
     * product: every product of a cube of the first cover with a cube of
     * the second, in row order, leaving out products with an opposed pair.
     * The first operand is copied to the scratch buffer first, so the
     * destination may be that operand; it has room for nc1 * nc2 cubes.
     */
    method Product(dst: array<Word>, nc1: nat, buf1: array<Word>, nc2: nat, buf2: array<Word>) returns (wpos: nat)
      requires Valid()
      requires Base(nc1, nb) <= buf1.Length && Base(nc2, nb) <= buf2.Length && Base(nc1 * nc2, nb) <= dst.Length
      requires dst != buf2 && buf1 != tmpBuff && buf2 != tmpBuff
      modifies this, dst
      ensures Valid() && fresh(tmpBuff)
      ensures wpos <= nc1 * nc2 && Base(wpos, nb) <= dst.Length
      ensures Cubes(dst[..], nb, 0, wpos) ==
              CoverProduct.Products(old(Cubes(buf1[..], nb, 0, nc1)), old(Cubes(buf2[..], nb, 0, nc2)))
    {
      ghost var s := Cubes(buf1[..], nb, 0, nc1);
      ResizeBuff(nc1);
      BaseMono(nc1, tmpBuffSize, nb);
      ghost var tb := tmpBuff[..];
      Copy(nb, nc1, tmpBuff, 0, buf1, 0);
      CubesCopied(tb, buf1[..], nb, 0, 0, nc1);
      var tmp := tmpBuff;
      assert Cubes(tmp[..], nb, 0, nc1) == s;
      BaseIsProduct(nc1, nc2);
      wpos := CoverProduct.ProductLoops(nb, dst, nc1, tmp, nc2, buf2);
    }

    /**
     * product(lit) as written: each cube that does not hold the literal's
     * opposite is kept, but only its word 0 and the literal's word are
     * copied over what the destination held; the destination may be the
     * operand.
     */
    method ProductLit(dst: array<Word>, nc1: nat, buf1: array<Word>, lit: AlgLiteral) returns (wpos: nat)
      requires Valid() && VarId(lit) < varNum
      requires Base(nc1, nb) <= buf1.Length && Base(nc1, nb) <= dst.Length
      modifies dst
      ensures wpos <= nc1 && Base(wpos, nb) <= dst.Length
      ensures Uniform(old(Cubes(dst[..], nb, 0, nc1)), nb) && Uniform(old(Cubes(buf1[..], nb, 0, nc1)), nb)
      ensures Cubes(dst[..], nb, 0, wpos) ==
              CoverProduct.WrittenProducts(old(Cubes(dst[..], nb, 0, nc1)), old(Cubes(buf1[..], nb, 0, nc1)), nb, lit)
    {
      BlockInCube(varNum, VarId(lit));
      wpos := CoverProduct.ProductLitAsWritten(nb, dst, nc1, buf1, lit);
    }

    /**
     * product(lit) as evidently intended: each cube of the cover with the
     * literal added, leaving out the cubes that hold its opposite; the
     * destination may be the operand.
     */
    method ProductLitIntended(dst: array<Word>, nc1: nat, buf1: array<Word>, lit: AlgLiteral) returns (wpos: nat)
      requires Valid() && VarId(lit) < varNum
      requires Base(nc1, nb) <= buf1.Length && Base(nc1, nb) <= dst.Length
      modifies dst
      ensures wpos <= nc1 && Base(wpos, nb) <= dst.Length
      ensures Cubes(dst[..], nb, 0, wpos) == CoverProduct.LitProducts(old(Cubes(buf1[..], nb, 0, nc1)), nb, lit)
    {
      BlockInCube(varNum, VarId(lit));
      wpos := CoverProduct.ProductLit(nb, dst, nc1, buf1, lit);
    }

    /**
     * division(cover, cover): the quotients, computed in the work buffer
     * and copied to the destination, which may be either operand and has
     * room for nc1 / nc2 cubes.
     */
    method Division(dst: array<Word>, nc1: nat, buf1: array<Word>, nc2: nat, buf2: array<Word>) returns (nc: nat)
      requires Valid()
      requires Base(nc1, nb) <= buf1.Length && Base(nc2, nb) <= buf2.Length
      requires nc2 > 0 ==> Base(nc1 / nc2, nb) <= dst.Length
      requires buf1 != tmpBuff && buf2 != tmpBuff
      modifies this, dst
      ensures Valid() && fresh(tmpBuff)
      ensures Uniform(old(Cubes(buf1[..], nb, 0, nc1)), nb) && Uniform(old(Cubes(buf2[..], nb, 0, nc2)), nb)
      ensures Base(nc, nb) <= dst.Length
      ensures Cubes(dst[..], nb, 0, nc) ==
              CoverDivision.Division(old(Cubes(buf1[..], nb, 0, nc1)), old(Cubes(buf2[..], nb, 0, nc2)), nb)
    {
      ResizeBuff(nc1);
      BaseMono(nc1, tmpBuffSize, nb);
      var tmp := tmpBuff;
      nc := CoverDivision.DivisionLoops(nb, dst, tmp, nc1, buf1, nc2, buf2);
    }

    /**
     * division(cover, lit): the cubes holding the literal, with it
     * removed; the destination may be the operand.
     */
    method DivisionLit(dst: array<Word>, nc1: nat, buf1: array<Word>, lit: AlgLiteral) returns (wpos: nat)
      requires Valid() && VarId(lit) < varNum
      requires Base(nc1, nb) <= buf1.Length && Base(nc1, nb) <= dst.Length
      modifies dst
      ensures wpos <= nc1 && Base(wpos, nb) <= dst.Length
      ensures Uniform(old(Cubes(buf1[..], nb, 0, nc1)), nb)
      ensures Cubes(dst[..], nb, 0, wpos) == CoverDivision.LitQuotients(old(Cubes(buf1[..], nb, 0, nc1)), nb, lit)
    {
      BlockInCube(varNum, VarId(lit));
      wpos := CoverDivision.DivisionLit(nb, dst, nc1, buf1, lit);
    }

    /**
     * parse: the literal list of str, a separator for each '+', and the
     * number of its non-empty runs; an error gives an empty list and 0.
     */
    method Parse(str: string) returns (litList: seq<AlgLiteral>, cubeNum: nat)
      requires Valid()
      ensures Bounded(nameMap)
      ensures Scan(str, nameMap).None? ==> litList == [] && cubeNum == 0
      ensures Scan(str, nameMap).Some? ==> litList == Scan(str, nameMap).value && cubeNum == LitOps.RunCount(litList)
    {
      IndexBounded(varNames, nameMap);
      litList := [];
      var p := 0;
      assert str[p..] == str;
      PrependNone(Scan(str, nameMap));
      while p < |str| && str[p] != '\0'
        invariant p <= |str|
        invariant Scan(str, nameMap) == Prepend(litList, Scan(str[p..], nameMap))
        decreases |str| - p
      {
        var c := str[p];
        if IsSpace(c) {
          ScanSpaceAt(str, p, nameMap);
          p := p + 1;
        } else if IsValidChar(c) {
          var p0 := p;
          var name;
          name, p := ReadName(str, p0);
          ScanNameAt(str, p0, p, nameMap);
          var neg := p < |str| && str[p] == '\'';
          if neg {
            p := p + 1;
          }
          if name !in nameMap {
            litList, cubeNum := [], 0;
            return;
          }
          PrependSnoc(litList, Make(nameMap[name], neg), Scan(str[p..], nameMap));
          litList := litList + [Make(nameMap[name], neg)];
        } else if c == '+' {
          ScanPlusAt(str, p, nameMap);
          PrependSnoc(litList, Undef(), Scan(str[p + 1..], nameMap));
          p := p + 1;
          litList := litList + [Undef()];
        } else {
          ScanBadAt(str, p, nameMap);
          litList, cubeNum := [], 0;
          return;
        }
      }
      ScanEndAt(str, p, nameMap);
      assert litList + [] == litList;
      cubeNum := CountCubes(litList);
    }

    /**
     * print of the cubes start .. end of bv: each cube's literals in
     * variable order, "name" or "name'", separated by a space, and the
     * cubes separated by " + ".
     */
    method Print(bv: array<Word>, start: nat, end: nat) returns (s: string)
      requires Valid() && start <= end && Base(end, nb) <= bv.Length
      ensures s == BufferText(bv[..], varNum, start, end, varNames)
    {
      s := PrintCubes(bv, start, end, varNum, varNames);
    }

    /** _cube_save: cube pos of src goes to cube 0 of the scratch buffer. */
    method CubeSave(src: array<Word>, pos: nat)
      requires Valid() && Base(pos, nb) + nb <= src.Length
      modifies tmpBuff
      ensures Base(0, nb) + nb <= tmpBuff.Length
      ensures tmpBuff[..] == CubeSort.Put(old(tmpBuff[..]), nb, 0, old(CubeAt(src[..], nb, pos)))
    {
      CubeCopy(nb, tmpBuff, 0, src, pos);
    }

    /** _cube_restore: cube 0 of the scratch buffer goes to cube pos of dst. */
    method CubeRestore(dst: array<Word>, pos: nat)
      requires Valid() && Base(pos, nb) + nb <= dst.Length
      modifies dst
      ensures Base(0, nb) + nb <= tmpBuff.Length
      ensures dst[..] == CubeSort.Put(old(dst[..]), nb, pos, old(CubeAt(tmpBuff[..], nb, 0)))
    {
      CubeCopy(nb, dst, pos, tmpBuff, 0);
    }

    /** cube_swap on one buffer: cubes pos1 and pos2 trade places, by way of the scratch buffer. */
    method CubeSwap(bv: array<Word>, pos1: nat, pos2: nat)
      requires Valid() && bv != tmpBuff
      requires Base(pos1, nb) + nb <= bv.Length && Base(pos2, nb) + nb <= bv.Length
      modifies bv, tmpBuff
      ensures bv[..] == CubeSort.Swapped(old(bv[..]), nb, pos1, pos2)
      ensures tmpBuff[..] == CubeSort.Put(old(tmpBuff[..]), nb, 0, old(CubeAt(bv[..], nb, pos1)))
    {
      CubeSort.SwapCubes(nb, bv, tmpBuff, pos1, pos2);
    }

    /** cube_rotate3 on one buffer: pos1 gets pos2, pos2 gets pos3, pos3 gets the old pos1. */
    method CubeRotate3(bv: array<Word>, pos1: nat, pos2: nat, pos3: nat)
      requires Valid() && bv != tmpBuff
      requires Base(pos1, nb) + nb <= bv.Length && Base(pos2, nb) + nb <= bv.Length && Base(pos3, nb) + nb <= bv.Length
      modifies bv, tmpBuff
      ensures bv[..] == CubeSort.Rotated3(old(bv[..]), nb, pos1, pos2, pos3)
      ensures tmpBuff[..] == CubeSort.Put(old(tmpBuff[..]), nb, 0, old(CubeAt(bv[..], nb, pos1)))
    {
      CubeSort.RotateCubes3(nb, bv, tmpBuff, pos1, pos2, pos3);
    }

    /** cube_rotate4 on one buffer: pos1 gets pos2, pos2 gets pos3, pos3 gets pos4, pos4 gets the old pos1. */
    method CubeRotate4(bv: array<Word>, pos1: nat, pos2: nat, pos3: nat, pos4: nat)
      requires Valid() && bv != tmpBuff
      requires Base(pos1, nb) + nb <= bv.Length && Base(pos2, nb) + nb <= bv.Length
      requires Base(pos3, nb) + nb <= bv.Length && Base(pos4, nb) + nb <= bv.Length
      modifies bv, tmpBuff
      ensures bv[..] == CubeSort.Rotated4(old(bv[..]), nb, pos1, pos2, pos3, pos4)
      ensures tmpBuff[..] == CubeSort.Put(old(tmpBuff[..]), nb, 0, old(CubeAt(bv[..], nb, pos1)))
    {
      CubeSort.RotateCubes4(nb, bv, tmpBuff, pos1, pos2, pos3, pos4);
    }

    /** The n == 2 case of _sort: the two cubes are exchanged when the first is below. */
    method Sort2(bv: array<Word>, start: nat)
      requires Valid() && bv != tmpBuff && Base(start + 2, nb) <= bv.Length
      requires Distinct(Cubes(bv[..], nb, start, start + 2))
      modifies this, bv
      ensures Valid() && (tmpBuff == old(tmpBuff) || fresh(tmpBuff))
      ensures CubeSort.SortedRange(old(bv[..]), bv[..], nb, start, start + 2)
    {
      ghost var a := bv[..];
      ghost var cs := Cubes(a, nb, start, start + 2);
      CubeSort.TwoCases(a, cs, nb, start);
      CubeSort.TwoLeaves(cs);
      var c := CubeCompareAt(nb, bv, start, bv, start + 1);
      if c < 0 {
        ResizeBuff(1);
        CubeSort.SwapStep(nb, bv, tmpBuff, start, start + 2, start, start + 1);
      } else {
        CubeSort.KeepLeaf(a, nb, start, start + 2);
      }
    }

    /**
     * The n == 3 case of _sort: three compares pick one of six exchanges
     * or rotations, through cube 0 of the scratch buffer.
     */
    method Sort3(bv: array<Word>, start: nat)
      requires Valid() && bv != tmpBuff && Base(start + 3, nb) <= bv.Length
      requires Distinct(Cubes(bv[..], nb, start, start + 3))
      modifies this, bv
      ensures Valid() && (tmpBuff == old(tmpBuff) || fresh(tmpBuff))
      ensures CubeSort.SortedRange(old(bv[..]), bv[..], nb, start, start + 3)
    {
      ResizeBuff(1);
      CubeSort.Sort3Cubes(nb, bv, tmpBuff, start);
    }

    /**
     * The n == 4 case of _sort: both pairs are put in order, then at most
     * three compares pick the last exchange or rotation.
     */
    method Sort4(bv: array<Word>, start: nat)
      requires Valid() && bv != tmpBuff && Base(start + 4, nb) <= bv.Length
      requires Distinct(Cubes(bv[..], nb, start, start + 4))
      modifies this, bv
      ensures Valid() && (tmpBuff == old(tmpBuff) || fresh(tmpBuff))
      ensures CubeSort.SortedRange(old(bv[..]), bv[..], nb, start, start + 4)
    {
      ResizeBuff(1);
      CubeSort.Sort4Cubes(nb, bv, tmpBuff, start);
    }

    /**
     * _sort(bv, start, end): cubes start .. end - 1 of bv, which are all
     * different, end up rearranged among themselves in descending order.
     */
    method SortRange(bv: array<Word>, start: nat, end: nat)
      requires Valid() && bv != tmpBuff && start <= end && Base(end, nb) <= bv.Length
      requires Distinct(Cubes(bv[..], nb, start, end))
      modifies this, bv
      ensures Valid() && (tmpBuff == old(tmpBuff) || fresh(tmpBuff))
      ensures CubeSort.SortedRange(old(bv[..]), bv[..], nb, start, end)
      decreases end - start, 1
    {
      var n := end - start;
      if n <= 1 {
        CubeSort.SortedShort(bv[..], nb, start, end);
      } else if n == 2 {
        Sort2(bv, start);
      } else if n == 3 {
        Sort3(bv, start);
      } else if n == 4 {
        Sort4(bv, start);
      } else {
        SortMerge(bv, start, end);
      }
    }

    /**
     * The merge branch of _sort: both halves are sorted, the first of
     * (n + 1) / 2 cubes, and then merged.
     */
    method SortMerge(bv: array<Word>, start: nat, end: nat)
      requires Valid() && bv != tmpBuff && start + 4 < end && Base(end, nb) <= bv.Length
      requires Distinct(Cubes(bv[..], nb, start, end))
      modifies this, bv
      ensures Valid() && (tmpBuff == old(tmpBuff) || fresh(tmpBuff))
      ensures CubeSort.SortedRange(old(bv[..]), bv[..], nb, start, end)
      decreases end - start, 0
    {
      ghost var a := bv[..];
      var hn := (end - start + 1) / 2;
      var mid := start + hn;
      CubeSort.Halves(a, nb, start, mid, end);
      SortRange(bv, start, mid);
      ghost var b := bv[..];
      CubeSort.SameOutsideCubes(a, b, nb, start, mid, mid, end);
      SortRange(bv, mid, end);
      ghost var c := bv[..];
      CubeSort.SortedHalves(a, b, c, nb, start, mid, end);
      CubeSort.PermutedDistinct(a, c, nb, start, end);
      CubeSort.Halves(c, nb, start, mid, end);
      MergeSorted(bv, start, hn, end);
      CubeSort.SortedAfter(a, c, bv[..], nb, start, end);
    }

    /**
     * The end of the merge branch: nothing moves when the last cube of
     * the first half is above the head of the second; otherwise the first
     * half is parked in the scratch buffer and merged back.
     */
    method MergeSorted(bv: array<Word>, start: nat, hn: nat, end: nat)
      requires Valid() && bv != tmpBuff && 0 < hn && start + hn < end && Base(end, nb) <= bv.Length
      requires Base(start + hn, nb) <= Base(end, nb)
      requires Desc(Cubes(bv[..], nb, start, start + hn)) && Desc(Cubes(bv[..], nb, start + hn, end))
      requires CubeSort.Disjoint(Cubes(bv[..], nb, start, start + hn), Cubes(bv[..], nb, start + hn, end))
      modifies this, bv
      ensures Valid() && (tmpBuff == old(tmpBuff) || fresh(tmpBuff))
      ensures CubeSort.SortedRange(old(bv[..]), bv[..], nb, start, end)
    {
      var mid := start + hn;
      CubeInside(mid - 1, end, nb);
      CubeInside(mid, end, nb);
      var cmp := CubeCompareAt(nb, bv, mid - 1, bv, mid);
      if cmp > 0 {
        CubeSort.SortedJoin(bv[..], bv[..], nb, start, mid, end);
      } else {
        ResizeBuff(hn);
        BaseMono(hn, tmpBuffSize, nb);
        CubeSort.MergeHalves(nb, bv, tmpBuff, start, hn, end);
      }
    }

    /** sort(n, bv): the n cubes of bv sorted in descending order. */
    method Sort(n: nat, bv: array<Word>)
      requires Valid() && bv != tmpBuff && Base(n, nb) <= bv.Length
      requires Distinct(Cubes(bv[..], nb, 0, n))
      modifies this, bv
      ensures Valid() && (tmpBuff == old(tmpBuff) || fresh(tmpBuff))
      ensures |bv[..]| == |old(bv[..])| && multiset(Cubes(bv[..], nb, 0, n)) == multiset(old(Cubes(bv[..], nb, 0, n)))
      ensures Desc(Cubes(bv[..], nb, 0, n))
      ensures forall k :: Base(n, nb) <= k < bv.Length ==> bv[k] == old(bv[k])
    {
      SortRange(bv, 0, n);
    }
  }
}
