/**
 * AlgKernelMgr (src/AlgKernelMgr.cc, include/ym/AlgKernelMgr.h): the
 * kernels and co-kernels of a cover.
 *
 * find_kernels lists the literals that occur in two cubes or more, by
 * ascending count, and walks them recursively. For each literal, the
 * cofactor cover / lit, divided by its common cube, is a kernel; the
 * common cube, with the literal and the co-kernel of the enclosing level,
 * is one of its co-kernels. The manager keeps the kernels and their
 * co-kernel covers in two parallel lists, and a table from each kernel to
 * its position.
 *
 * Covers are values here: the cube sequences that the AlgCover operations
 * are proved to compute.
 */
module AlgKernel {
  import opened CubeBits
  import opened CubeView
  import opened CubeAlgebra
  import opened CubeOrder
  import L = AlgLiterals
  import LitOps
  import D = CoverDivision
  import CP = CoverProduct
  import M = AlgMgrNew
  import T = SopText

  // ---------------------------------------------------------------------
  // The candidate literals
  // ---------------------------------------------------------------------

  /** An entry of tmp_list: a literal and the number of cubes holding it. */
  datatype Candidate = Candidate(lit: L.AlgLiteral, count: nat)

  /** LitLt: candidates are ordered by their count alone. */
  predicate LitLt(a: Candidate, b: Candidate)
  {
    a.count < b.count
  }

  /** What an AlgMgr guarantees: literals of n variables fit a cube of nb words. */
  predicate Shape(nb: nat, n: nat)
  {
    n < 0x8000_0000 && nb == CubeSize(n)
  }

  /** Every literal of the list has its word inside a cube of nb words. */
  predicate LitsFit(list: seq<Candidate>, nb: nat)
  {
    forall j :: 0 <= j < |list| ==> LitOps.Blk(list[j].lit) < nb
  }

  /** A literal of one of the n variables has its word inside the cube. */
  lemma LitFits(nb: nat, n: nat, l: L.AlgLiteral)
    requires Shape(nb, n) && L.VarId(l) < n
    ensures LitOps.Blk(l) < nb
  {
    BlockInCube(n, L.VarId(l));
  }

  /**
   * The entries of variable v: literal (v, false), then literal (v, neg),
   * each with its count when it occurs in two cubes or more.
   */
  function VarEntries(s: Cover, nb: nat, n: nat, v: nat, neg: bool): (r: seq<Candidate>)
    requires Shape(nb, n) && Uniform(s, nb) && v < n
  {
    var p := L.Make(v, false);
    var q := L.Make(v, neg);
    LitFits(nb, n, p);
    LitFits(nb, n, q);
    (if LitOps.CountLit(s, p) >= 2 then [Candidate(p, LitOps.CountLit(s, p))] else []) +
    (if LitOps.CountLit(s, q) >= 2 then [Candidate(q, LitOps.CountLit(s, q))] else [])
  }

  /** The entries of variables 0 .. k - 1, in order. */
  function Entries(s: Cover, nb: nat, n: nat, k: nat, neg: bool): (r: seq<Candidate>)
    requires Shape(nb, n) && Uniform(s, nb) && k <= n
  {
    if k == 0 then [] else Entries(s, nb, n, k - 1, neg) + VarEntries(s, nb, n, k - 1, neg)
  }

  /** The candidate list as intended: both literals of every variable. */
  function Candidates(s: Cover, nb: nat, n: nat): seq<Candidate>
    requires Shape(nb, n) && Uniform(s, nb)
  {
    Entries(s, nb, n, n, true)
  }

  /**
   * The candidate list as written: the second literal of each variable is
   * made with false as well, so it is the positive literal once more.
   */
  function CandidatesAsWritten(s: Cover, nb: nat, n: nat): seq<Candidate>
    requires Shape(nb, n) && Uniform(s, nb)
  {
    Entries(s, nb, n, n, false)
  }

  /** Candidate c is a literal of the cube with its count in s, and that count is two or more. */
  predicate Counted(s: Cover, nb: nat, c: Candidate)
    requires Uniform(s, nb)
  {
    LitOps.Blk(c.lit) < nb && c.count == LitOps.CountLit(s, c.lit) && c.count >= 2
  }

  /** A literal is literal (VarId, IsNegative). */
  lemma LitIsMade(l: L.AlgLiteral)
    ensures l == L.Make(L.VarId(l), L.IsNegative(l))
  {
  }

  /** The entries of variable v as intended: its literals in two cubes or more, with their counts. */
  lemma VarEntriesIff(s: Cover, nb: nat, n: nat, v: nat, c: Candidate)
    requires Shape(nb, n) && Uniform(s, nb) && v < n
    ensures c in VarEntries(s, nb, n, v, true) <==>
            L.VarId(c.lit) == v && Counted(s, nb, c)
  {
    LitIsMade(c.lit);
    LitFits(nb, n, L.Make(v, false));
    LitFits(nb, n, L.Make(v, true));
  }

  /** The entries of variable v as written: its positive literal alone, when in two cubes or more. */
  lemma VarEntriesAsWrittenIff(s: Cover, nb: nat, n: nat, v: nat, c: Candidate)
    requires Shape(nb, n) && Uniform(s, nb) && v < n
    ensures c in VarEntries(s, nb, n, v, false) <==>
            L.VarId(c.lit) == v && L.IsPositive(c.lit) && Counted(s, nb, c)
  {
    LitIsMade(c.lit);
    LitFits(nb, n, L.Make(v, false));
  }

  /** As written the entries of variable v are its intended entries that are positive literals. */
  lemma VarEntriesPositive(s: Cover, nb: nat, n: nat, v: nat, c: Candidate)
    requires Shape(nb, n) && Uniform(s, nb) && v < n
    ensures c in VarEntries(s, nb, n, v, false) <==> c in VarEntries(s, nb, n, v, true) && L.IsPositive(c.lit)
  {
    VarEntriesIff(s, nb, n, v, c);
    VarEntriesAsWrittenIff(s, nb, n, v, c);
  }

  /** A candidate is in the entries of k variables when it is in those of the first k - 1 or of the last. */
  lemma EntriesStep(s: Cover, nb: nat, n: nat, k: nat, neg: bool, c: Candidate)
    requires Shape(nb, n) && Uniform(s, nb) && 0 < k <= n
    ensures c in Entries(s, nb, n, k, neg) <==> c in Entries(s, nb, n, k - 1, neg) || c in VarEntries(s, nb, n, k - 1, neg)
  {
  }

  /**
   * The intended candidates are exactly the literals of the cover's
   * variables that occur in two cubes or more, each with its count.
   */
  lemma {:induction false} EntriesIff(s: Cover, nb: nat, n: nat, k: nat, c: Candidate)
    requires Shape(nb, n) && Uniform(s, nb) && k <= n
    ensures c in Entries(s, nb, n, k, true) <==>
            L.VarId(c.lit) < k && Counted(s, nb, c)
  {
    if k > 0 {
      EntriesStep(s, nb, n, k, true, c);
      EntriesIff(s, nb, n, k - 1, c);
      VarEntriesIff(s, nb, n, k - 1, c);
    }
  }

  /** As written the entries are the intended ones that are positive literals. */
  lemma {:induction false} EntriesAsWrittenPositive(s: Cover, nb: nat, n: nat, k: nat, c: Candidate)
    requires Shape(nb, n) && Uniform(s, nb) && k <= n
    ensures c in Entries(s, nb, n, k, false) <==> c in Entries(s, nb, n, k, true) && L.IsPositive(c.lit)
  {
    if k > 0 {
      EntriesStep(s, nb, n, k, false, c);
      EntriesStep(s, nb, n, k, true, c);
      EntriesAsWrittenPositive(s, nb, n, k - 1, c);
      VarEntriesPositive(s, nb, n, k - 1, c);
    }
  }

  /** As written only positive literals become candidates. */
  lemma EntriesAsWrittenIff(s: Cover, nb: nat, n: nat, k: nat, c: Candidate)
    requires Shape(nb, n) && Uniform(s, nb) && k <= n
    ensures c in Entries(s, nb, n, k, false) <==>
            L.VarId(c.lit) < k && L.IsPositive(c.lit) && Counted(s, nb, c)
  {
    EntriesAsWrittenPositive(s, nb, n, k, c);
    EntriesIff(s, nb, n, k, c);
  }

  /** The candidates: the literals in two cubes or more, with their counts. */
  lemma CandidatesIff(s: Cover, nb: nat, n: nat, c: Candidate)
    requires Shape(nb, n) && Uniform(s, nb)
    ensures c in Candidates(s, nb, n) <==>
            L.VarId(c.lit) < n && Counted(s, nb, c)
  {
    EntriesIff(s, nb, n, n, c);
  }

  /** One turn of the loop of find_kernels that fills tmp_list: the entries of variable v. */
  method PushVar(s: Cover, nb: nat, n: nat, v: nat) returns (more: seq<Candidate>)
    requires Shape(nb, n) && Uniform(s, nb) && v < n
    ensures more == VarEntries(s, nb, n, v, true)
  {
    more := [];
    var litp := L.Make(v, false);
    LitFits(nb, n, litp);
    var np := LitOps.CountLit(s, litp);
    if np >= 2 {
      more := more + [Candidate(litp, np)];
    }
    var litn := L.Make(v, true);
    LitFits(nb, n, litn);
    var nn := LitOps.CountLit(s, litn);
    if nn >= 2 {
      more := more + [Candidate(litn, nn)];
    }
  }

  /**
   * The loop of find_kernels that fills tmp_list: for every variable, the
   * literal (i, false) and then the literal (i, true), each pushed with its
   * count when that is at least 2.
   */
  method CollectCandidates(s: Cover, nb: nat, n: nat) returns (list: seq<Candidate>)
    requires Shape(nb, n) && Uniform(s, nb)
    ensures list == Candidates(s, nb, n)
  {
    list := [];
    var i := 0;
    while i < n
      invariant i <= n && list == Entries(s, nb, n, i, true)
    {
      var more := PushVar(s, nb, n, i);
      list := list + more;
      i := i + 1;
    }
  }

  // ---------------------------------------------------------------------
  // Sorting by count
  // ---------------------------------------------------------------------

  /** The list is in LitLt order: no candidate has a smaller count than one before it. */
  predicate ByCount(cs: seq<Candidate>)
  {
    forall i, j :: 0 <= i < j < |cs| ==> !LitLt(cs[j], cs[i])
  }

  /** c placed before the first candidate of cs whose count is not smaller. */
  function InsertByCount(c: Candidate, cs: seq<Candidate>): (r: seq<Candidate>)
    ensures multiset(r) == multiset(cs) + multiset{c}
  {
    if |cs| == 0 then [c]
    else if LitLt(cs[0], c) then
      assert cs == [cs[0]] + cs[1..];
      [cs[0]] + InsertByCount(c, cs[1..])
    else [c] + cs
  }

  /** Every candidate of cs has a count of at least m. */
  predicate CountsFrom(cs: seq<Candidate>, m: nat)
  {
    forall j :: 0 <= j < |cs| ==> m <= cs[j].count
  }

  /** Inserting into a list in LitLt order keeps it in order, and keeps a lower bound both respect. */
  lemma {:induction false} InsertSorted(c: Candidate, cs: seq<Candidate>, m: nat)
    requires ByCount(cs)
    ensures ByCount(InsertByCount(c, cs))
    ensures CountsFrom(cs, m) && m <= c.count ==> CountsFrom(InsertByCount(c, cs), m)
  {
    if |cs| == 0 {
    } else if LitLt(cs[0], c) {
      var t := cs[1..];
      assert ByCount(t);
      assert CountsFrom(t, cs[0].count);
      InsertSorted(c, t, cs[0].count);
      var u := InsertByCount(c, t);
      var r := [cs[0]] + u;
      assert InsertByCount(c, cs) == r;
      forall i, j | 0 <= i < j < |r|
        ensures !LitLt(r[j], r[i])
      {
        if i > 0 {
          assert r[i] == u[i - 1] && r[j] == u[j - 1];
        } else {
          assert r[j] == u[j - 1];
        }
      }
      if CountsFrom(cs, m) && m <= c.count {
        InsertSorted(c, t, m);
        assert CountsFrom(r, m) by {
          forall j | 0 <= j < |r|
            ensures m <= r[j].count
          {
            if j > 0 {
              assert r[j] == u[j - 1];
            }
          }
        }
      }
    } else {
      var r := [c] + cs;
      forall i, j | 0 <= i < j < |r|
        ensures !LitLt(r[j], r[i])
      {
        if i > 0 {
          assert r[i] == cs[i - 1] && r[j] == cs[j - 1];
        } else if j > 1 {
          assert r[j] == cs[j - 1] && !LitLt(cs[j - 1], cs[0]);
        }
      }
    }
  }

  /**
   * sort(tmp_list, LitLt): the candidates in ascending count. The order
   * of equal counts, which the library sort leaves open, is the one an
   * insertion from the back gives.
   */
  function SortByCount(cs: seq<Candidate>): (r: seq<Candidate>)
    ensures multiset(r) == multiset(cs) && ByCount(r)
  {
    if |cs| == 0 then []
    else
      assert cs == [cs[0]] + cs[1..];
      InsertSorted(cs[0], SortByCount(cs[1..]), 0);
      InsertByCount(cs[0], SortByCount(cs[1..]))
  }

  // ---------------------------------------------------------------------
  // The kernel table
  // ---------------------------------------------------------------------

  /** The three fields mKernelList, mCokernelList and mKernelHash, as values. */
  datatype Table = Table(kernels: seq<Cover>, cokernels: seq<Cover>, index: map<Cover, nat>)

  /** The table before any kernel. */
  function EmptyTable(): Table
  {
    Table([], [], map[])
  }

  /**
   * The lists are parallel, the hash gives every kernel its position and
   * nothing else, and every co-kernel cover is a non-empty sorted cover.
   */
  predicate TableOk(t: Table)
  {
    |t.kernels| == |t.cokernels| &&
    (forall k :: k in t.index ==> t.index[k] < |t.kernels| && t.kernels[t.index[k]] == k) &&
    (forall i :: 0 <= i < |t.kernels| ==> t.kernels[i] in t.index && t.index[t.kernels[i]] == i) &&
    (forall i :: 0 <= i < |t.cokernels| ==> |t.cokernels[i]| > 0 && Desc(t.cokernels[i]))
  }

  /** A table that holds each kernel once. */
  lemma TableDistinct(t: Table, i: nat, j: nat)
    requires TableOk(t) && i < j < |t.kernels|
    ensures t.kernels[i] != t.kernels[j]
  {
  }

  /**
   * r extends t: the kernels of t stay at their positions, and every
   * co-kernel cube of t stays in the co-kernel cover of its kernel.
   */
  ghost predicate Grows(t: Table, r: Table)
  {
    |t.kernels| <= |r.kernels| && |t.cokernels| <= |r.cokernels| &&
    r.kernels[..|t.kernels|] == t.kernels &&
    (forall k :: k in t.index ==> k in r.index && r.index[k] == t.index[k]) &&
    (forall i, x :: 0 <= i < |t.cokernels| && x in t.cokernels[i] ==> x in r.cokernels[i])
  }

  /** The one-cube co-kernel cover of a new kernel is sorted. */
  lemma DescOne(c: Cube)
    ensures Desc([c])
  {
  }

  /**
   * Lines 112-123: a kernel already in the hash gets c added to its
   * co-kernel cover; a new one goes to position kernel_num() with the
   * co-kernel cover of c alone. (In a table that is TableOk the position
   * check always holds.)
   */
  function Record(t: Table, k: Cover, c: Cube): (r: Table)
  {
    if k in t.index && t.index[k] < |t.cokernels| then
      var kid := t.index[k];
      Table(t.kernels, t.cokernels[kid := Merge(t.cokernels[kid], [c])], t.index)
    else Table(t.kernels + [k], t.cokernels + [[c]], t.index[k := |t.kernels|])
  }

  /** Recording keeps the table well formed and extends it. */
  lemma RecordOk(t: Table, k: Cover, c: Cube)
    requires TableOk(t)
    ensures TableOk(Record(t, k, c)) && Grows(t, Record(t, k, c))
  {
    var r := Record(t, k, c);
    if k in t.index {
      var kid := t.index[k];
      DescOne(c);
      MergeDesc(t.cokernels[kid], [c]);
      MergeLength(t.cokernels[kid], [c]);
      forall x | x in t.cokernels[kid]
        ensures x in r.cokernels[kid]
      {
        MergeMembers(t.cokernels[kid], [c], x);
      }
      assert r.kernels[..|t.kernels|] == t.kernels;
    } else {
      DescOne(c);
      assert r.kernels[..|t.kernels|] == t.kernels;
      forall j | 0 <= j < |r.kernels|
        ensures r.kernels[j] in r.index && r.index[r.kernels[j]] == j
      {
        if j < |t.kernels| {
          assert t.kernels[j] in t.index;
        }
      }
    }
  }

  /**
   * After recording, k is at position index[k], its co-kernel cover holds
   * c, and the table grew by one kernel exactly when k was new.
   */
  lemma RecordFinds(t: Table, k: Cover, c: Cube)
    requires TableOk(t)
    ensures k in Record(t, k, c).index
    ensures Record(t, k, c).kernels[Record(t, k, c).index[k]] == k
    ensures c in Record(t, k, c).cokernels[Record(t, k, c).index[k]]
    ensures |Record(t, k, c).kernels| == |t.kernels| + (if k in t.index then 0 else 1)
  {
    RecordOk(t, k, c);
    if k in t.index {
      MergeMembers(t.cokernels[t.index[k]], [c], c);
    }
  }

  /** The co-kernel covers change only by c, in the cover of k. */
  lemma RecordCokernels(t: Table, k: Cover, c: Cube, i: nat, x: Cube)
    requires TableOk(t) && i < |Record(t, k, c).cokernels|
    ensures k in Record(t, k, c).index
    ensures x in Record(t, k, c).cokernels[i] <==>
            (i < |t.cokernels| && x in t.cokernels[i]) || (i == Record(t, k, c).index[k] && x == c)
  {
    RecordFinds(t, k, c);
    if k in t.index && i == t.index[k] {
      MergeMembers(t.cokernels[i], [c], x);
    }
  }

  // ---------------------------------------------------------------------
  // _kernel_sub as a function of the table
  // ---------------------------------------------------------------------

  /** AlgCube::operator*= on values: the union of the literals, or the empty cube on opposite literals. */
  function Times(x: Cube, y: Cube): (r: Cube)
    requires |x| == |y|
    ensures |r| == |x|
  {
    if ProductOk(x, y) then OrCube(x, y) else ZeroCube(|x|)
  }

  /** The arguments of _kernel_sub fit a cube of nb words. */
  predicate SubArgs(s: Cover, nb: nat, list: seq<Candidate>, ck: Cube, skip: Cube)
  {
    Uniform(s, nb) && LitsFit(list, nb) && |ck| == nb && |skip| == nb
  }

  /** cover / lit keeps the cube size. */
  lemma {:induction false} LitQuotientsUniform(s: Cover, nb: nat, l: L.AlgLiteral)
    requires Uniform(s, nb) && LitOps.Blk(l) < nb
    ensures Uniform(D.LitQuotients(s, nb, l), nb)
    decreases |s|
  {
    if |s| > 0 {
      LitQuotientsUniform(s[..|s| - 1], nb, l);
    }
  }

  /** cover1 /= ccube: the cofactor divided by its common cube. */
  function CubeFree(cof: Cover, nb: nat): (k: Cover)
    requires |cof| > 0 && Uniform(cof, nb)
    ensures Uniform(k, nb)
  {
    var cc := LitOps.AndFold(cof, nb);
    D.EmittedUniform(cof, [cc], nb, |cof|);
    D.Division(cof, [cc], nb)
  }

  /** A word inside c and inside y without c is empty. */
  lemma WordInsideBoth(g: Word, c: Word, y: Word)
    requires WordCovers(c, g) && WordCovers(QuotWord(y, c), g)
    ensures g == 0
  {
  }

  /**
   * Dividing a cover by its common cube makes it cube-free (lines
   * 105-108): the result is not empty and no literal is in all of its
   * cubes. Each cube y of cof gives the quotient y without cc, so the
   * common cube of the result lies inside every y, hence inside cc, and
   * also inside a cube that has no literal of cc.
   */
  lemma KernelIsCubeFree(cof: Cover, nb: nat)
    requires |cof| > 0 && Uniform(cof, nb)
    ensures |CubeFree(cof, nb)| > 0
    ensures LitOps.AndFold(CubeFree(cof, nb), nb) == ZeroCube(nb)
  {
    var cc := LitOps.AndFold(cof, nb);
    var k := CubeFree(cof, nb);
    assert D.NoLaterCovers([cc], nb);
    forall i | 0 <= i < |cof|
      ensures QuotCube(cof[i], cc) in k
    {
      var q := QuotCube(cof[i], cc);
      LitOps.FoldCovered(cof, nb, i);
      QuotDisjoint(cof[i], cc);
      QuotTimesDivisor(cof[i], cc);
      D.DivisionComplete(cof, [cc], nb, q);
    }
    assert QuotCube(cof[0], cc) in k;
    var g := LitOps.AndFold(k, nb);
    forall i | 0 <= i < |cof|
      ensures Covers(cof[i], g)
    {
      var q := QuotCube(cof[i], cc);
      LitOps.FoldCovered(k, nb, D.IndexIn(k, q));
      QuotCovered(cof[i], cc);
      CoversTrans(cof[i], q, g);
    }
    LitOps.FoldGreatest(cof, nb, g);
    var q0 := QuotCube(cof[0], cc);
    LitOps.FoldCovered(k, nb, D.IndexIn(k, q0));
    forall j | 0 <= j < nb
      ensures g[j] == ZeroCube(nb)[j]
    {
      WordInsideBoth(g[j], cc[j], cof[0][j]);
    }
  }

  /**
   * The co-kernel of the kernel that literal lit gives, as intended: the
   * common cube, the literal and the enclosing co-kernel ck.
   */
  function Cokernel(cc: Cube, nb: nat, lit: L.AlgLiteral, ck: Cube): (r: Cube)
    requires |cc| == nb && |ck| == nb && LitOps.Blk(lit) < nb
    ensures |r| == nb
  {
    Times(Times(cc, CP.LitCube(nb, lit)), ck)
  }

  /** The co-kernel as written at line 110: the literal itself is left out. */
  function CokernelAsWritten(cc: Cube, ck: Cube): (r: Cube)
    requires |cc| == |ck|
    ensures |r| == |cc|
  {
    Times(cc, ck)
  }

  /** What one candidate literal gives: nothing, or a kernel with its co-kernel. */
  datatype Turn = Pass | Take(kernel: Cover, cokernel: Cube)

  /**
   * Lines 89-110 for the literal lit: Pass when the cofactor cover / lit
   * is empty (93-96) or its common cube meets skip (99-103); otherwise the
   * cofactor divided by its common cube, with the co-kernel.
   */
  function TurnOf(s: Cover, nb: nat, lit: L.AlgLiteral, ck: Cube, skip: Cube): (r: Turn)
    requires Uniform(s, nb) && LitOps.Blk(lit) < nb && |ck| == nb && |skip| == nb
    ensures r.Take? ==> Uniform(r.kernel, nb) && |r.cokernel| == nb
  {
    LitQuotientsUniform(s, nb, lit);
    var cof := D.LitQuotients(s, nb, lit);
    if |cof| == 0 then Pass
    else
      var cc := LitOps.AndFold(cof, nb);
      if Intersects(cc, skip) then Pass
      else Take(CubeFree(cof, nb), Cokernel(cc, nb, lit, ck))
  }

  /** The arguments of the walk from candidate i on. */
  predicate WalkArgs(s: Cover, nb: nat, list: seq<Candidate>, pos: nat, i: nat,
                     ck: Cube, skip: Cube, skip1: Cube)
  {
    SubArgs(s, nb, list, ck, skip) && |skip1| == nb && pos <= i <= |list|
  }

  /**
   * The table _kernel_sub(s, list, pos, ck, skip) leaves, from candidate i
   * on, with skip1 the skip cube so far.
   */
  function KernelsFrom(t: Table, s: Cover, nb: nat, list: seq<Candidate>, pos: nat, i: nat,
                       ck: Cube, skip: Cube, skip1: Cube): Table
    requires WalkArgs(s, nb, list, pos, i, ck, skip, skip1)
    decreases |list| - pos, |list| - i, 1
  {
    if i == |list| then t else KernelsNext(t, s, nb, list, pos, i, ck, skip, skip1)
  }

  /**
   * Candidate i and the rest of the walk. A literal that gives a kernel has
   * it recorded, joins skip1, and sends the walk down into the kernel from
   * position pos + 1 before the walk goes on with candidate i + 1.
   */
  function KernelsNext(t: Table, s: Cover, nb: nat, list: seq<Candidate>, pos: nat, i: nat,
                       ck: Cube, skip: Cube, skip1: Cube): Table
    requires WalkArgs(s, nb, list, pos, i, ck, skip, skip1) && i < |list|
    decreases |list| - pos, |list| - i, 0
  {
    match TurnOf(s, nb, list[i].lit, ck, skip)
    case Pass => KernelsFrom(t, s, nb, list, pos, i + 1, ck, skip, skip1)
    case Take(k, co) =>
      var skip2 := Times(skip1, CP.LitCube(nb, list[i].lit));
      var t2 := KernelsFrom(Record(t, k, co), k, nb, list, pos + 1, pos + 1, co, skip2, skip2);
      KernelsFrom(t2, s, nb, list, pos, i + 1, ck, skip, skip2)
  }

  /** The walk from t, candidate i on, ends in table r. */
  ghost predicate Reaches(t: Table, s: Cover, nb: nat, list: seq<Candidate>, pos: nat, i: nat,
                          ck: Cube, skip: Cube, skip1: Cube, r: Table)
    requires WalkArgs(s, nb, list, pos, i, ck, skip, skip1)
  {
    KernelsFrom(t, s, nb, list, pos, i, ck, skip, skip1) == r
  }

  /** One turn that leaves the walk's end unchanged moves Reaches to the next candidate. */
  lemma ReachesStep(t: Table, u: Table, s: Cover, nb: nat, list: seq<Candidate>, pos: nat, i: nat,
                    ck: Cube, skip: Cube, skip1: Cube, skip2: Cube, r: Table)
    requires WalkArgs(s, nb, list, pos, i, ck, skip, skip1) && i < |list| && |skip2| == nb
    requires Reaches(t, s, nb, list, pos, i, ck, skip, skip1, r)
    requires KernelsFrom(u, s, nb, list, pos, i + 1, ck, skip, skip2) == KernelsFrom(t, s, nb, list, pos, i, ck, skip, skip1)
    ensures Reaches(u, s, nb, list, pos, i + 1, ck, skip, skip2, r)
  {
  }

  /** The walk from t has an end. */
  lemma ReachesSome(t: Table, s: Cover, nb: nat, list: seq<Candidate>, pos: nat, i: nat,
                    ck: Cube, skip: Cube, skip1: Cube) returns (r: Table)
    requires WalkArgs(s, nb, list, pos, i, ck, skip, skip1)
    ensures Reaches(t, s, nb, list, pos, i, ck, skip, skip1, r)
  {
    r := KernelsFrom(t, s, nb, list, pos, i, ck, skip, skip1);
  }

  /** Past the last candidate the walk leaves the table as it is. */
  lemma ReachesEnd(t: Table, s: Cover, nb: nat, list: seq<Candidate>, pos: nat, ck: Cube, skip: Cube, skip1: Cube,
                   r: Table)
    requires WalkArgs(s, nb, list, pos, |list|, ck, skip, skip1)
    requires Reaches(t, s, nb, list, pos, |list|, ck, skip, skip1, r)
    ensures r == t
  {
  }

  /** A literal that gives nothing leaves the table to the next candidate. */
  lemma KernelsFromPass(t: Table, s: Cover, nb: nat, list: seq<Candidate>, pos: nat, i: nat,
                        ck: Cube, skip: Cube, skip1: Cube)
    requires WalkArgs(s, nb, list, pos, i, ck, skip, skip1) && i < |list|
    requires TurnOf(s, nb, list[i].lit, ck, skip).Pass?
    ensures KernelsFrom(t, s, nb, list, pos, i, ck, skip, skip1) ==
            KernelsFrom(t, s, nb, list, pos, i + 1, ck, skip, skip1)
  {
  }

  /**
   * A literal that gives kernel k with co-kernel co: k is recorded, the walk
   * goes down into k, and then on to the next candidate with the new skip cube.
   */
  lemma KernelsFromTake(t: Table, s: Cover, nb: nat, list: seq<Candidate>, pos: nat, i: nat,
                        ck: Cube, skip: Cube, skip1: Cube, k: Cover, co: Cube)
    requires WalkArgs(s, nb, list, pos, i, ck, skip, skip1) && i < |list|
    requires TurnOf(s, nb, list[i].lit, ck, skip) == Take(k, co)
    ensures SubArgs(k, nb, list, co, Times(skip1, CP.LitCube(nb, list[i].lit)))
    ensures KernelsFrom(t, s, nb, list, pos, i, ck, skip, skip1) ==
            KernelsFrom(KernelsFrom(Record(t, k, co), k, nb, list, pos + 1, pos + 1, co,
                                    Times(skip1, CP.LitCube(nb, list[i].lit)),
                                    Times(skip1, CP.LitCube(nb, list[i].lit))),
                        s, nb, list, pos, i + 1, ck, skip, Times(skip1, CP.LitCube(nb, list[i].lit)))
  {
  }

  /** The walk keeps the table well formed. */
  lemma {:induction false} KernelsFromOk(t: Table, s: Cover, nb: nat, list: seq<Candidate>, pos: nat, i: nat,
                                         ck: Cube, skip: Cube, skip1: Cube)
    requires TableOk(t) && WalkArgs(s, nb, list, pos, i, ck, skip, skip1)
    ensures TableOk(KernelsFrom(t, s, nb, list, pos, i, ck, skip, skip1))
    decreases |list| - pos, |list| - i, 1, 0
  {
    if i < |list| {
      match TurnOf(s, nb, list[i].lit, ck, skip)
      case Pass =>
        KernelsFromOk(t, s, nb, list, pos, i + 1, ck, skip, skip1);
      case Take(k, co) =>
        KernelsFromTake(t, s, nb, list, pos, i, ck, skip, skip1, k, co);
        var skip2 := Times(skip1, CP.LitCube(nb, list[i].lit));
        KernelsTakeOk(t, s, nb, list, pos, i, ck, skip, skip2, k, co,
                      KernelsFrom(KernelsFrom(Record(t, k, co), k, nb, list, pos + 1, pos + 1, co, skip2, skip2),
                                  s, nb, list, pos, i + 1, ck, skip, skip2));
    }
  }

  /** The rest of the walk after a literal that gives kernel k with co-kernel co keeps the table well formed. */
  lemma {:induction false} KernelsTakeOk(t: Table, s: Cover, nb: nat, list: seq<Candidate>, pos: nat, i: nat,
                                         ck: Cube, skip: Cube, skip2: Cube, k: Cover, co: Cube, r: Table)
    requires TableOk(t) && SubArgs(s, nb, list, ck, skip) && pos <= i < |list| && |skip2| == nb
    requires Uniform(k, nb) && |co| == nb
    requires r == KernelsFrom(KernelsFrom(Record(t, k, co), k, nb, list, pos + 1, pos + 1, co, skip2, skip2),
                              s, nb, list, pos, i + 1, ck, skip, skip2)
    ensures TableOk(r)
    decreases |list| - pos, |list| - i, 0, 0
  {
    var t2 := KernelsFrom(Record(t, k, co), k, nb, list, pos + 1, pos + 1, co, skip2, skip2);
    KernelsIntoOk(t, k, nb, list, pos, co, skip2, t2);
    KernelsFromOk(t2, s, nb, list, pos, i + 1, ck, skip, skip2);
  }

  /** The walk into a new kernel k keeps the table well formed. */
  lemma {:induction false} KernelsIntoOk(t: Table, k: Cover, nb: nat, list: seq<Candidate>, pos: nat,
                                         co: Cube, skip2: Cube, t2: Table)
    requires TableOk(t) && Uniform(k, nb) && LitsFit(list, nb) && pos < |list| && |co| == nb && |skip2| == nb
    requires t2 == KernelsFrom(Record(t, k, co), k, nb, list, pos + 1, pos + 1, co, skip2, skip2)
    ensures TableOk(t2)
    decreases |list| - pos - 1, |list| - pos, 2, 0
  {
    RecordOk(t, k, co);
    KernelsFromOk(Record(t, k, co), k, nb, list, pos + 1, pos + 1, co, skip2, skip2);
  }

  /** The sorted candidates fit the cube. */
  lemma SortedFit(s: Cover, nb: nat, n: nat)
    requires Shape(nb, n) && Uniform(s, nb)
    ensures LitsFit(SortByCount(Candidates(s, nb, n)), nb)
  {
    var list := SortByCount(Candidates(s, nb, n));
    forall j | 0 <= j < |list|
      ensures LitOps.Blk(list[j].lit) < nb
    {
      assert list[j] in multiset(list);
      assert list[j] in Candidates(s, nb, n);
      CandidatesIff(s, nb, n, list[j]);
    }
  }

  /** The table find_kernels(s) leaves: the walk over the sorted candidates from an empty table. */
  function Kernels(s: Cover, nb: nat, n: nat): (r: Table)
    requires Shape(nb, n) && Uniform(s, nb)
    ensures TableOk(r)
  {
    SortedFit(s, nb, n);
    KernelsFromOk(EmptyTable(), s, nb, SortByCount(Candidates(s, nb, n)), 0, 0, ZeroCube(nb), ZeroCube(nb), ZeroCube(nb));
    KernelsFrom(EmptyTable(), s, nb, SortByCount(Candidates(s, nb, n)), 0, 0, ZeroCube(nb), ZeroCube(nb), ZeroCube(nb))
  }

  // ---------------------------------------------------------------------
  // Every kernel times each of its co-kernels lies in the cover
  // ---------------------------------------------------------------------

  /** Every cube of the cover is well formed. */
  ghost predicate CubesWellFormed(f: Cover)
  {
    forall y :: y in f ==> WellFormed(y)
  }

  /** Every cube of k, times c, is a cube of f. */
  ghost predicate Divides(f: Cover, c: Cube, k: Cover)
  {
    forall q :: q in k ==> |q| == |c| && OrCube(q, c) in f
  }

  /** k is cube-free: it is not empty and no literal is in all of its cubes. */
  ghost predicate IsCubeFree(k: Cover, nb: nat)
  {
    |k| > 0 && Uniform(k, nb) && LitOps.AndFold(k, nb) == ZeroCube(nb)
  }

  /**
   * Every kernel of the table is cube-free and, times each cube of its
   * co-kernel cover, lies in f.
   */
  ghost predicate Sound(f: Cover, nb: nat, t: Table)
  {
    (forall i :: 0 <= i < |t.kernels| ==> IsCubeFree(t.kernels[i], nb)) &&
    (forall i, c :: 0 <= i < |t.kernels| && i < |t.cokernels| && c in t.cokernels[i] ==> Divides(f, c, t.kernels[i]))
  }

  lemma WordSubFree(z: Word, w: Word)
    requires ConflictFree(z) && WordCovers(z, w)
    ensures ConflictFree(w)
  {
  }

  lemma WordOrCovers(a: Word, b: Word)
    ensures WordCovers(OrWord(a, b), a) && WordCovers(OrWord(a, b), b)
  {
  }

  lemma WordCoversOr(x: Word, a: Word, b: Word)
    requires WordCovers(x, a) && WordCovers(x, b)
    ensures WordCovers(x, OrWord(a, b))
  {
  }

  lemma WordQuotCovered(a: Word, b: Word)
    ensures WordCovers(a, QuotWord(a, b))
  {
  }

  lemma WordOrAssoc(a: Word, b: Word, c: Word)
    ensures OrWord(OrWord(a, b), c) == OrWord(a, OrWord(b, c))
  {
  }

  /** A cube covered by a well-formed cube is well formed. */
  lemma SubWellFormed(x: Cube, y: Cube)
    requires |x| == |y| && WellFormed(x) && Covers(x, y)
    ensures WellFormed(y)
  {
    forall i | 0 <= i < |y|
      ensures NoConflict(y[i])
    {
      ConflictFreeIff(x[i]);
      WordSubFree(x[i], y[i]);
      ConflictFreeIff(y[i]);
    }
  }

  lemma OrCovers(a: Cube, b: Cube)
    requires |a| == |b|
    ensures Covers(OrCube(a, b), a) && Covers(OrCube(a, b), b)
  {
    forall i | 0 <= i < |a|
      ensures WordCovers(OrCube(a, b)[i], a[i]) && WordCovers(OrCube(a, b)[i], b[i])
    {
      WordOrCovers(a[i], b[i]);
    }
  }

  lemma CoversOr(x: Cube, a: Cube, b: Cube)
    requires |x| == |a| == |b| && Covers(x, a) && Covers(x, b)
    ensures Covers(x, OrCube(a, b))
  {
    forall i | 0 <= i < |x|
      ensures WordCovers(x[i], OrCube(a, b)[i])
    {
      WordCoversOr(x[i], a[i], b[i]);
    }
  }

  lemma QuotCovered(x: Cube, y: Cube)
    requires |x| == |y|
    ensures Covers(x, QuotCube(x, y))
  {
    forall i | 0 <= i < |x|
      ensures WordCovers(x[i], QuotCube(x, y)[i])
    {
      WordQuotCovered(x[i], y[i]);
    }
  }

  lemma OrAssoc(a: Cube, b: Cube, c: Cube)
    requires |a| == |b| == |c|
    ensures OrCube(OrCube(a, b), c) == OrCube(a, OrCube(b, c))
  {
    forall i | 0 <= i < |a|
      ensures OrCube(OrCube(a, b), c)[i] == OrCube(a, OrCube(b, c))[i]
    {
      WordOrAssoc(a[i], b[i], c[i]);
    }
  }

  /** A product whose union is well formed exists: *= is then the union. */
  lemma WellFormedProduct(a: Cube, b: Cube)
    requires |a| == |b| && WellFormed(OrCube(a, b))
    ensures Times(a, b) == OrCube(a, b)
  {
    forall i | 0 <= i < |a|
      ensures ProductFree(a[i], b[i])
    {
      assert OrCube(a, b)[i] == OrWord(a[i], b[i]);
      ConflictFreeIff(OrWord(a[i], b[i]));
    }
  }

  lemma OrZero(y: Cube)
    ensures OrCube(y, ZeroCube(|y|)) == y
  {
    forall i | 0 <= i < |y|
      ensures OrCube(y, ZeroCube(|y|))[i] == y[i]
    {
      CP.OrZeroWord(y[i]);
    }
  }

  /** Each cube of cover / lit is a cube of the cover holding lit, with lit dropped. */
  lemma {:induction false} LitQuotientsSource(s: Cover, nb: nat, l: L.AlgLiteral, p: nat) returns (j: nat)
    requires Uniform(s, nb) && LitOps.Blk(l) < nb && p < |D.LitQuotients(s, nb, l)|
    ensures j < |s| && D.HoldsLit(s[j], l) && D.LitQuotients(s, nb, l)[p] == D.DropLit(s[j], l)
    decreases |s|
  {
    var pre := s[..|s| - 1];
    if p < |D.LitQuotients(pre, nb, l)| {
      j := LitQuotientsSource(pre, nb, l, p);
      assert pre[j] == s[j];
    } else {
      j := |s| - 1;
    }
  }

  /** Each quotient of s by one cube c, times c, is a cube of s. */
  lemma DivisionByCube(s: Cover, c: Cube, nb: nat, q: Cube) returns (p: nat)
    requires Uniform(s, nb) && |c| == nb && q in D.Division(s, [c], nb)
    ensures |q| == nb && p < |s| && OrCube(q, c) == s[p]
  {
    var qs := D.Quots(s, [c], nb);
    D.EmittedMembers(qs, 1, q);
    assert qs[0..] == qs;
    D.EmitExists(qs, 1, 0, q);
    var k :| 0 <= k < |qs| && D.EmitAt(qs, k, 1) && qs[k].value == q;
    D.HoldingQuot(s, [c], nb, k, q);
    p := k;
  }

  /**
   * One cube q of the kernel cof / cc, where cof = s / lit and cc is the
   * common cube of cof: q times the co-kernel cc * lit * ck is the cube
   * y * ck of f for the cube y of s that q came from.
   */
  lemma CubeSound(f: Cover, s: Cover, nb: nat, lit: L.AlgLiteral, ck: Cube, cof: Cover, q: Cube)
    requires Uniform(s, nb) && LitOps.Blk(lit) < nb && |ck| == nb
    requires CubesWellFormed(f) && Divides(f, ck, s)
    requires cof == D.LitQuotients(s, nb, lit) && |cof| > 0 && Uniform(cof, nb)
    requires q in D.Division(cof, [LitOps.AndFold(cof, nb)], nb)
    ensures |q| == nb && OrCube(q, Cokernel(LitOps.AndFold(cof, nb), nb, lit, ck)) in f
  {
    var cc := LitOps.AndFold(cof, nb);
    var lc := CP.LitCube(nb, lit);
    var p := DivisionByCube(cof, cc, nb, q);
    var j := LitQuotientsSource(s, nb, lit, p);
    var y := s[j];
    var y1 := OrCube(y, ck);
    assert y in s;
    OrCovers(y, ck);
    SubWellFormed(y1, y);
    D.HoldsLitCovers(y, nb, lit);
    D.DropLitIsQuot(y, nb, lit);
    QuotTimesDivisor(y, lc);
    QuotCovered(y, lc);
    OrCovers(q, cc);
    CoversTrans(y, cof[p], cc);
    CoversOr(y, cc, lc);
    var a := OrCube(cc, lc);
    SubWellFormed(y, a);
    WellFormedProduct(cc, lc);
    CoversTrans(y1, y, a);
    CoversOr(y1, a, ck);
    SubWellFormed(y1, OrCube(a, ck));
    WellFormedProduct(a, ck);
    OrAssoc(q, cc, lc);
    OrAssoc(q, a, ck);
  }

  /** The kernel a literal gives, times its co-kernel, lies in f. */
  lemma TakeSound(f: Cover, s: Cover, nb: nat, lit: L.AlgLiteral, ck: Cube, skip: Cube, k: Cover, co: Cube)
    requires Uniform(s, nb) && LitOps.Blk(lit) < nb && |ck| == nb && |skip| == nb
    requires CubesWellFormed(f) && Divides(f, ck, s)
    requires TurnOf(s, nb, lit, ck, skip) == Take(k, co)
    ensures Divides(f, co, k) && IsCubeFree(k, nb)
  {
    LitQuotientsUniform(s, nb, lit);
    var cof := D.LitQuotients(s, nb, lit);
    KernelIsCubeFree(cof, nb);
    forall q | q in k
      ensures |q| == |co| && OrCube(q, co) in f
    {
      CubeSound(f, s, nb, lit, ck, cof, q);
    }
  }

  /** Recording a cube-free kernel with a co-kernel that divides f keeps the table sound. */
  lemma RecordSound(f: Cover, nb: nat, t: Table, k: Cover, c: Cube)
    requires TableOk(t) && Sound(f, nb, t) && Divides(f, c, k) && IsCubeFree(k, nb)
    ensures Sound(f, nb, Record(t, k, c))
  {
    var r := Record(t, k, c);
    RecordFinds(t, k, c);
    assert r.kernels == t.kernels || r.kernels == t.kernels + [k];
    forall i, x | 0 <= i < |r.kernels| && i < |r.cokernels| && x in r.cokernels[i]
      ensures Divides(f, x, r.kernels[i])
    {
      RecordCokernels(t, k, c, i, x);
      if i < |t.cokernels| && x in t.cokernels[i] {
        assert r.kernels[i] == t.kernels[i];
      }
    }
  }

  /** The walk keeps the table sound while the current co-kernel divides f by the current cover. */
  lemma {:induction false} KernelsFromSound(f: Cover, t: Table, s: Cover, nb: nat, list: seq<Candidate>,
                                            pos: nat, i: nat, ck: Cube, skip: Cube, skip1: Cube)
    requires TableOk(t) && WalkArgs(s, nb, list, pos, i, ck, skip, skip1)
    requires CubesWellFormed(f) && Sound(f, nb, t) && Divides(f, ck, s)
    ensures Sound(f, nb, KernelsFrom(t, s, nb, list, pos, i, ck, skip, skip1))
    decreases |list| - pos, |list| - i, 1, 0
  {
    if i < |list| {
      match TurnOf(s, nb, list[i].lit, ck, skip)
      case Pass =>
        KernelsFromSound(f, t, s, nb, list, pos, i + 1, ck, skip, skip1);
      case Take(k, co) =>
        TakeSound(f, s, nb, list[i].lit, ck, skip, k, co);
        KernelsFromTake(t, s, nb, list, pos, i, ck, skip, skip1, k, co);
        var skip2 := Times(skip1, CP.LitCube(nb, list[i].lit));
        KernelsTakeSound(f, t, s, nb, list, pos, i, ck, skip, skip2, k, co,
                         KernelsFrom(KernelsFrom(Record(t, k, co), k, nb, list, pos + 1, pos + 1, co, skip2, skip2),
                                     s, nb, list, pos, i + 1, ck, skip, skip2));
    }
  }

  /**
   * The rest of the walk after a literal that gives kernel k with co-kernel co:
   * r is the table after the walk into k and then on along s.
   */
  lemma {:induction false} KernelsTakeSound(f: Cover, t: Table, s: Cover, nb: nat, list: seq<Candidate>, pos: nat,
                                            i: nat, ck: Cube, skip: Cube, skip2: Cube, k: Cover, co: Cube, r: Table)
    requires TableOk(t) && SubArgs(s, nb, list, ck, skip) && pos <= i < |list| && |skip2| == nb
    requires IsCubeFree(k, nb) && |co| == nb
    requires CubesWellFormed(f) && Sound(f, nb, t) && Divides(f, ck, s) && Divides(f, co, k)
    requires r == KernelsFrom(KernelsFrom(Record(t, k, co), k, nb, list, pos + 1, pos + 1, co, skip2, skip2),
                              s, nb, list, pos, i + 1, ck, skip, skip2)
    ensures Sound(f, nb, r)
    decreases |list| - pos, |list| - i, 0, 1
  {
    var t2 := KernelsFrom(Record(t, k, co), k, nb, list, pos + 1, pos + 1, co, skip2, skip2);
    KernelsIntoSound(f, t, k, nb, list, pos, co, skip2, t2);
    KernelsFromSound(f, t2, s, nb, list, pos, i + 1, ck, skip, skip2);
  }

  /** The walk into a new kernel k keeps the table well formed and sound. */
  lemma {:induction false} KernelsIntoSound(f: Cover, t: Table, k: Cover, nb: nat, list: seq<Candidate>, pos: nat,
                                            co: Cube, skip2: Cube, t2: Table)
    requires TableOk(t) && IsCubeFree(k, nb) && LitsFit(list, nb) && pos < |list| && |co| == nb && |skip2| == nb
    requires CubesWellFormed(f) && Sound(f, nb, t) && Divides(f, co, k)
    requires t2 == KernelsFrom(Record(t, k, co), k, nb, list, pos + 1, pos + 1, co, skip2, skip2)
    ensures TableOk(t2) && Sound(f, nb, t2)
    decreases |list| - pos - 1, |list| - pos, 2, 0
  {
    RecordOk(t, k, co);
    RecordSound(f, nb, t, k, co);
    KernelsFromSound(f, Record(t, k, co), k, nb, list, pos + 1, pos + 1, co, skip2, skip2);
    KernelsIntoOk(t, k, nb, list, pos, co, skip2, t2);
  }

  /**
   * What the kernels of f are for: every kernel find_kernels records is
   * cube-free and, times each cube of its co-kernel cover, is a cube of f.
   */
  lemma KernelsSound(f: Cover, nb: nat, n: nat)
    requires Shape(nb, n) && Uniform(f, nb) && CubesWellFormed(f)
    ensures Sound(f, nb, Kernels(f, nb, n))
  {
    SortedFit(f, nb, n);
    var z := ZeroCube(nb);
    forall y | y in f
      ensures |y| == |z| && OrCube(y, z) in f
    {
      OrZero(y);
    }
    KernelsFromSound(f, EmptyTable(), f, nb, SortByCount(Candidates(f, nb, n)), 0, 0, z, z, z);
  }

  // ---------------------------------------------------------------------
  // Two defects of find_kernels and _kernel_sub, on small covers (one word
  // per cube; a, b, c are variables 0, 1, 2)
  // ---------------------------------------------------------------------

  const CubeNotAB: Cube := [0x6000_0000_0000_0000]
  const CubeNotAC: Cube := [0x4800_0000_0000_0000]

  /**
   * In a'b + a'c the literal a' occurs twice, so it is a candidate; the
   * list as written makes the second literal of each variable positive,
   * so no candidate of it is a', and the kernel b + c of co-kernel a' is
   * never reached.
   */
  lemma NegativeCandidateFinding()
    ensures Shape(1, 3) && Uniform([CubeNotAB, CubeNotAC], 1)
    ensures Candidate(L.Make(0, true), 2) in Candidates([CubeNotAB, CubeNotAC], 1, 3)
    ensures forall c :: c in CandidatesAsWritten([CubeNotAB, CubeNotAC], 1, 3) ==> c.lit != L.Make(0, true)
  {
    var s: Cover := [CubeNotAB, CubeNotAC];
    var l := L.Make(0, true);
    assert Shape(1, 3);
    assert LitOps.Blk(l) == 0 && LitOps.Idx(l) == 31;
    assert LitOps.LitWord(l) == 0x4000_0000_0000_0000;
    assert LitOps.InCube(CubeNotAB, l) && LitOps.InCube(CubeNotAC, l);
    assert s[..1][..0] == [] && s[..1] == [CubeNotAB] && s[1] == CubeNotAC;
    assert LitOps.CountLit(s[..1], l) == 1;
    assert LitOps.CountLit(s, l) == 2;
    CandidatesIff(s, 1, 3, Candidate(l, 2));
    forall c | c in CandidatesAsWritten(s, 1, 3)
      ensures c.lit != l
    {
      EntriesAsWrittenIff(s, 1, 3, 3, c);
    }
  }

  /** The common cube of b + c has no literal, and dividing by it leaves the cover as it is. */
  lemma CubeFreeExample()
    ensures LitOps.AndFold([D.CubeB, D.CubeC], 1) == [0]
    ensures CubeFree([D.CubeB, D.CubeC], 1) == [D.CubeB, D.CubeC]
  {
    var cof: Cover := [D.CubeB, D.CubeC];
    assert cof[..1] == [D.CubeB];
    assert AndCube(D.CubeB, D.CubeC) == [0];
    var t: Cover := [[0]];
    D.OneWord(D.CubeB, [0]);
    D.OneWord(D.CubeC, [0]);
    assert D.FirstCover(D.CubeB, t, 0) == 0 && D.FirstCover(D.CubeC, t, 0) == 0;
    var qs := D.Quots(cof, t, 1);
    D.QuotsAt(cof, t, 1, 0);
    D.QuotsAt(cof, t, 1, 1);
    assert qs == [T.Some(D.CubeB), T.Some(D.CubeC)];
    assert qs[0..] == qs && qs[1..] == [T.Some(D.CubeC)] && qs[2..] == [];
    assert D.Count(qs[1..], D.CubeC) == 1 && D.Count(qs[0..], D.CubeB) == 1;
    assert D.Emitted(qs, 1, 1) == [D.CubeB];
  }

  /** The cofactor of a b + a c by a is b + c. */
  lemma CofactorExample()
    ensures LitOps.Blk(L.Make(0, false)) == 0
    ensures D.LitQuotients([D.CubeAB, D.CubeAC], 1, L.Make(0, false)) == [D.CubeB, D.CubeC]
    ensures CP.LitCube(1, L.Make(0, false)) == D.CubeA
  {
    var f: Cover := [D.CubeAB, D.CubeAC];
    var l := L.Make(0, false);
    assert LitOps.Blk(l) == 0 && LitOps.Idx(l) == 31;
    assert LitOps.LitWord(l) == 0x8000_0000_0000_0000;
    assert CP.FieldMask(l) == 0xC000_0000_0000_0000;
    assert D.HoldsLit(D.CubeAB, l) && D.HoldsLit(D.CubeAC, l);
    assert D.DropLit(D.CubeAB, l) == D.CubeB && D.DropLit(D.CubeAC, l) == D.CubeC;
    assert f[..1][..0] == [] && f[..1] == [D.CubeAB];
    assert OrWord(0, LitOps.LitWord(l)) == 0x8000_0000_0000_0000;
  }

  /**
   * In a b + a c the literal a gives the kernel b + c with common cube 1.
   * The co-kernel as written is that common cube times the enclosing
   * co-kernel, 1 again, and b + c times 1 is not in the cover; with the
   * literal put back the co-kernel is a, and a (b + c) is the cover.
   */
  lemma CokernelFinding()
    ensures TurnOf([D.CubeAB, D.CubeAC], 1, L.Make(0, false), [0], [0]) == Take([D.CubeB, D.CubeC], D.CubeA)
    ensures CokernelAsWritten([0], [0]) == [0] && !Divides([D.CubeAB, D.CubeAC], [0], [D.CubeB, D.CubeC])
    ensures Divides([D.CubeAB, D.CubeAC], D.CubeA, [D.CubeB, D.CubeC])
  {
    CofactorExample();
    CubeFreeExample();
    CokernelWords();
  }

  /** The cube products of the co-kernel example, word by word. */
  lemma CokernelWords()
    ensures !Intersects([0], [0]) && Times([0], D.CubeA) == D.CubeA && Times(D.CubeA, [0]) == D.CubeA
    ensures OrCube(D.CubeB, [0]) == D.CubeB && OrCube(D.CubeC, [0]) == D.CubeC
    ensures OrCube(D.CubeB, D.CubeA) == D.CubeAB && OrCube(D.CubeC, D.CubeA) == D.CubeAC
  {
    assert OrWord(0, 0x8000_0000_0000_0000) == 0x8000_0000_0000_0000;
    assert OrWord(0x8000_0000_0000_0000, 0) == 0x8000_0000_0000_0000;
  }

  // ---------------------------------------------------------------------
  // The manager
  // ---------------------------------------------------------------------

  /** AlgKernelMgr: the kernels and co-kernels of the last find_kernels. */
  class KernelMgr {
    const nb: nat
    const varNum: nat
    var kernelList: seq<Cover>
    var cokernelList: seq<Cover>
    var kernelHash: map<Cover, nat>

    /** The fields as one table. */
    function State(): Table
      reads this
    {
      Table(kernelList, cokernelList, kernelHash)
    }

    ghost predicate Valid()
      reads this
    {
      Shape(nb, varNum) && TableOk(State())
    }

    /** The constructor: no kernels yet, for the manager's variables. */
    constructor (m: M.AlgMgr)
      requires m.Valid()
      ensures Valid() && nb == m.nb && varNum == m.varNum && State() == EmptyTable()
    {
      nb := m.nb;
      varNum := m.varNum;
      kernelList := [];
      cokernelList := [];
      kernelHash := map[];
    }

    /** kernel_num(): the number of kernels, which is also that of co-kernel covers. */
    function KernelNum(): (n: nat)
      reads this
      requires Valid()
      ensures n == |cokernelList|
    {
      |kernelList|
    }

    /** kernel(pos): the kernel at pos, which the hash maps back to pos. */
    function Kernel(pos: nat): (k: Cover)
      reads this
      requires Valid() && pos < KernelNum()
      ensures k in kernelHash && kernelHash[k] == pos
    {
      kernelList[pos]
    }

    /** cokernel(pos): the co-kernels of kernel pos, as one non-empty sorted cover. */
    function CokernelCover(pos: nat): (c: Cover)
      reads this
      requires Valid() && pos < KernelNum()
      ensures |c| > 0 && Desc(c)
    {
      cokernelList[pos]
    }

    /** _clear as intended: no kernel, no co-kernel, an empty hash. */
    method Clear()
      requires Valid()
      modifies this
      ensures Valid() && State() == EmptyTable()
    {
      kernelList := [];
      cokernelList := [];
      kernelHash := map[];
    }

    /**
     * _clear as written: the objects are deleted and the hash emptied, but
     * the two lists keep their entries, so kernel_num() keeps its value.
     */
    method ClearAsWritten()
      requires Valid()
      modifies this
      ensures kernelList == old(kernelList) && cokernelList == old(cokernelList) && kernelHash == map[]
      ensures old(|kernelList|) > 0 ==> !Valid()
    {
      kernelHash := map[];
      assert |kernelList| > 0 ==> kernelList[0] !in kernelHash;
    }

    /** Lines 112-123 on the fields. */
    method AddKernel(k: Cover, c: Cube)
      requires Valid()
      modifies this
      ensures Valid() && State() == Record(old(State()), k, c)
    {
      RecordOk(State(), k, c);
      if k in kernelHash {
        var kid := kernelHash[k];
        cokernelList := cokernelList[kid := Merge(cokernelList[kid], [c])];
      } else {
        var kid := |kernelList|;
        kernelHash := kernelHash[k := kid];
        kernelList := kernelList + [k];
        cokernelList := cokernelList + [[c]];
      }
    }

    /** find_kernels(cover): clear, list and sort the candidates, walk them. */
    method FindKernels(s: Cover)
      requires Valid() && Uniform(s, nb)
      modifies this
      ensures Valid() && State() == Kernels(s, nb, varNum)
      ensures CubesWellFormed(s) ==> Sound(s, nb, State())
    {
      Clear();
      var list := CollectCandidates(s, nb, varNum);
      list := SortByCount(list);
      SortedFit(s, nb, varNum);
      var ckcube0 := ZeroCube(nb);
      var skipCube0 := ZeroCube(nb);
      KernelSub(s, list, 0, ckcube0, skipCube0);
      if CubesWellFormed(s) {
        KernelsSound(s, nb, varNum);
      }
    }

    /** _kernel_sub(cover, lit_list, pos, ckcube, skip_cube): the walk from the current table ends in the new one. */
    method KernelSub(s: Cover, list: seq<Candidate>, pos: nat, ck: Cube, skip: Cube)
      requires Valid() && SubArgs(s, nb, list, ck, skip) && pos <= |list|
      modifies this
      ensures Valid() && Reaches(old(State()), s, nb, list, pos, pos, ck, skip, skip, State())
      decreases |list| - pos, 2
    {
      ghost var goal := ReachesSome(State(), s, nb, list, pos, pos, ck, skip, skip);
      var skip1 := skip;
      var i := pos;
      while i < |list|
        invariant pos <= i <= |list| && |skip1| == nb && Valid()
        invariant Reaches(State(), s, nb, list, pos, i, ck, skip, skip1, goal)
        decreases |list| - i
      {
        ghost var before := State();
        ghost var sk := skip1;
        skip1 := KernelStep(s, list, pos, i, ck, skip, skip1);
        ReachesStep(before, State(), s, nb, list, pos, i, ck, skip, sk, skip1, goal);
        i := i + 1;
        assert Reaches(State(), s, nb, list, pos, i, ck, skip, skip1, goal);
      }
      ReachesEnd(State(), s, nb, list, pos, ck, skip, skip1, goal);
    }

    /** One turn of the loop of _kernel_sub, for candidate i. */
    method KernelStep(s: Cover, list: seq<Candidate>, pos: nat, i: nat, ck: Cube, skip: Cube, skip1: Cube)
      returns (skip2: Cube)
      requires Valid() && SubArgs(s, nb, list, ck, skip) && |skip1| == nb && pos <= i < |list|
      modifies this
      ensures Valid() && |skip2| == nb
      ensures KernelsFrom(State(), s, nb, list, pos, i + 1, ck, skip, skip2) ==
              KernelsFrom(old(State()), s, nb, list, pos, i, ck, skip, skip1)
      decreases |list| - pos, 1
    {
      var lit := list[i].lit;
      var turn := TurnOf(s, nb, lit, ck, skip);
      if turn.Pass? {
        KernelsFromPass(State(), s, nb, list, pos, i, ck, skip, skip1);
        return skip1;
      }
      KernelsFromTake(State(), s, nb, list, pos, i, ck, skip, skip1, turn.kernel, turn.cokernel);
      AddKernel(turn.kernel, turn.cokernel);
      skip2 := Times(skip1, CP.LitCube(nb, lit));
      KernelSub(turn.kernel, list, pos + 1, turn.cokernel, skip2);
    }
  }
}
