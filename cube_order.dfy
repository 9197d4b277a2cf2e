/**
 * The order on cubes and covers, and the value-level meaning of the
 * order-based cover operations.
 *
 * cube_compare reads two cubes word by word as unsigned 64-bit numbers
 * and answers -1, 0 or 1 at the first word where they differ. A cover is
 * kept in strictly descending order of that comparison, so it never holds
 * the same cube twice; sum and diff are merges over two such covers.
 */
module CubeOrder {
  import opened CubeBits
  import opened CubeView

  // ---------------------------------------------------------------------
  // Comparing cubes
  // ---------------------------------------------------------------------

  /**
   * The unsigned comparison of two words, stated on their values as
   * natural numbers.
   */
  function WordOrder(a: Word, b: Word): (r: int)
    ensures -1 <= r <= 1
    ensures r == 0 <==> a == b
  {
    WordNatInj(a, b);
    if a as nat < b as nat then -1 else if a as nat > b as nat then 1 else 0
  }

  /** Two words with the same value are the same word. */
  lemma WordNatInj(a: Word, b: Word)
    ensures a as nat == b as nat ==> a == b
  {
    WordNatRound(a);
    WordNatRound(b);
  }

  lemma WordNatRound(a: Word)
    ensures (a as nat) as Word == a
  {
  }

  /**
   * Lexicographic comparison of two word sequences. On cubes of one
   * cover both have nb words; the shorter-is-smaller rule only makes the
   * order total on all sequences.
   */
  function CubeCompare(x: Cube, y: Cube): (r: int)
    ensures -1 <= r <= 1
  {
    if |x| == 0 && |y| == 0 then 0
    else if |x| == 0 then -1
    else if |y| == 0 then 1
    else if WordOrder(x[0], y[0]) != 0 then WordOrder(x[0], y[0])
    else CubeCompare(x[1..], y[1..])
  }

  lemma {:induction false} CompareZeroIff(x: Cube, y: Cube)
    ensures CubeCompare(x, y) == 0 <==> x == y
  {
    if |x| > 0 && |y| > 0 && x[0] == y[0] {
      CompareZeroIff(x[1..], y[1..]);
      if x[1..] == y[1..] {
        assert x == [x[0]] + x[1..] && y == [y[0]] + y[1..];
      }
    }
  }

  lemma {:induction false} CompareAntisym(x: Cube, y: Cube)
    ensures CubeCompare(x, y) == -CubeCompare(y, x)
  {
    if |x| > 0 && |y| > 0 && x[0] == y[0] {
      CompareAntisym(x[1..], y[1..]);
    }
  }

  lemma {:induction false} CompareTrans(x: Cube, y: Cube, z: Cube)
    requires CubeCompare(x, y) > 0 && CubeCompare(y, z) > 0
    ensures CubeCompare(x, z) > 0
  {
    if |x| > 0 && |y| > 0 && |z| > 0 && x[0] == y[0] && y[0] == z[0] {
      CompareTrans(x[1..], y[1..], z[1..]);
    }
  }

  /** After a common prefix of i words the comparison is that of the rest. */
  lemma {:induction false} CompareSkip(x: Cube, y: Cube, i: nat)
    requires i <= |x| && i <= |y| && x[..i] == y[..i]
    ensures CubeCompare(x, y) == CubeCompare(x[i..], y[i..])
  {
    if i > 0 {
      assert x[0] == x[..i][0] && y[0] == y[..i][0];
      assert x[1..][..i - 1] == x[..i][1..] && y[1..][..i - 1] == y[..i][1..];
      CompareSkip(x[1..], y[1..], i - 1);
      assert x[1..][i - 1..] == x[i..] && y[1..][i - 1..] == y[i..];
    }
  }

  /** x comes strictly before y in a cover: x is the greater cube. */
  predicate Above(x: Cube, y: Cube)
  {
    CubeCompare(x, y) > 0
  }

  // ---------------------------------------------------------------------
  // Sorted covers
  // ---------------------------------------------------------------------

  /** Strictly descending: the order every cover body is kept in. */
  predicate Desc(s: Cover)
  {
    forall i, j :: 0 <= i < j < |s| ==> Above(s[i], s[j])
  }

  /** No cube occurs twice. */
  predicate Distinct(s: Cover)
  {
    forall i, j :: 0 <= i < j < |s| ==> s[i] != s[j]
  }

  lemma DescDistinct(s: Cover)
    requires Desc(s)
    ensures Distinct(s)
  {
    forall i, j | 0 <= i < j < |s|
      ensures s[i] != s[j]
    {
      CompareZeroIff(s[i], s[j]);
    }
  }

  /** x lies above every cube of s. */
  predicate AboveAll(x: Cube, s: Cover)
  {
    forall j :: 0 <= j < |s| ==> Above(x, s[j])
  }

  lemma DescCons(x: Cube, s: Cover)
    requires Desc(s) && AboveAll(x, s)
    ensures Desc([x] + s)
  {
    var t := [x] + s;
    forall i, j | 0 <= i < j < |t|
      ensures Above(t[i], t[j])
    {
      if i > 0 {
        assert t[i] == s[i - 1] && t[j] == s[j - 1];
      } else {
        assert t[j] == s[j - 1];
      }
    }
  }

  /** The head of a descending cover lies above everything in its tail. */
  lemma DescHead(s: Cover)
    requires Desc(s) && |s| > 0
    ensures AboveAll(s[0], s[1..])
  {
    forall j | 0 <= j < |s| - 1
      ensures Above(s[0], s[1..][j])
    {
      assert s[1..][j] == s[j + 1];
    }
  }

  lemma DescTail(s: Cover)
    requires Desc(s) && |s| > 0
    ensures Desc(s[1..])
  {
    forall i, j | 0 <= i < j < |s| - 1
      ensures Above(s[1..][i], s[1..][j])
    {
      assert s[1..][i] == s[i + 1] && s[1..][j] == s[j + 1];
    }
  }

  /** A cube above the head of a descending cover is above all of it. */
  lemma AboveHead(x: Cube, s: Cover)
    requires Desc(s) && |s| > 0 && Above(x, s[0])
    ensures AboveAll(x, s)
  {
    forall j | 0 <= j < |s|
      ensures Above(x, s[j])
    {
      if j > 0 {
        CompareTrans(x, s[0], s[j]);
      }
    }
  }

  // ---------------------------------------------------------------------
  // sum: merging two descending covers
  // ---------------------------------------------------------------------

  /**
   * The cover sum computes: walk both covers from the front, emit the
   * greater head, and a cube present in both only once.
   */
  function Merge(s: Cover, t: Cover): Cover
    decreases |s| + |t|
  {
    if |s| == 0 then t
    else if |t| == 0 then s
    else if CubeCompare(s[0], t[0]) > 0 then [s[0]] + Merge(s[1..], t)
    else if CubeCompare(s[0], t[0]) < 0 then [t[0]] + Merge(s, t[1..])
    else [s[0]] + Merge(s[1..], t[1..])
  }

  /** One step of the merge, read at positions i and j of the two covers. */
  lemma MergeStep(s: Cover, t: Cover, i: nat, j: nat)
    requires i < |s| && j < |t|
    ensures Merge(s[i..], t[j..]) ==
      if CubeCompare(s[i], t[j]) > 0 then [s[i]] + Merge(s[i + 1..], t[j..])
      else if CubeCompare(s[i], t[j]) < 0 then [t[j]] + Merge(s[i..], t[j + 1..])
      else [s[i]] + Merge(s[i + 1..], t[j + 1..])
  {
    assert s[i..][0] == s[i] && s[i..][1..] == s[i + 1..];
    assert t[j..][0] == t[j] && t[j..][1..] == t[j + 1..];
  }

  /**
   * The merge loop's invariant: the cubes written so far followed by the
   * merge of what is left is the whole merge; one step keeps it.
   */
  lemma MergeAdvance(s: Cover, t: Cover, i: nat, j: nat, done: Cover)
    requires i < |s| && j < |t| && done + Merge(s[i..], t[j..]) == Merge(s, t)
    ensures CubeCompare(s[i], t[j]) > 0 ==> (done + [s[i]]) + Merge(s[i + 1..], t[j..]) == Merge(s, t)
    ensures CubeCompare(s[i], t[j]) < 0 ==> (done + [t[j]]) + Merge(s[i..], t[j + 1..]) == Merge(s, t)
    ensures CubeCompare(s[i], t[j]) == 0 ==> (done + [s[i]]) + Merge(s[i + 1..], t[j + 1..]) == Merge(s, t)
  {
    MergeStep(s, t, i, j);
    var c := CubeCompare(s[i], t[j]);
    if c > 0 {
      Regroup(done, s[i], Merge(s[i + 1..], t[j..]), Merge(s, t));
    } else if c < 0 {
      Regroup(done, t[j], Merge(s[i..], t[j + 1..]), Merge(s, t));
    } else {
      Regroup(done, s[i], Merge(s[i + 1..], t[j + 1..]), Merge(s, t));
    }
  }

  /** Moving the next cube from the rest to the output keeps the whole. */
  lemma Regroup(done: Cover, x: Cube, rest: Cover, whole: Cover)
    requires done + ([x] + rest) == whole
    ensures (done + [x]) + rest == whole
  {
    assert done + ([x] + rest) == (done + [x]) + rest;
  }

  /** Once one cover is used up, the merge is the rest of the other. */
  lemma MergeRest(s: Cover, t: Cover, i: nat, j: nat)
    requires i <= |s| && j <= |t| && (i == |s| || j == |t|)
    ensures Merge(s[i..], t[j..]) == s[i..] + t[j..]
  {
    if i == |s| {
      assert s[i..] + t[j..] == t[j..];
    } else {
      assert s[i..] + t[j..] == s[i..];
    }
  }

  /**
   * The merge loop's invariant with the merge of the rest kept behind a
   * quantifier, so that the loop itself never unfolds it.
   */
  ghost predicate MergeInv(done: Cover, s: Cover, t: Cover, i: nat, j: nat)
    requires i <= |s| && j <= |t|
  {
    forall rest :: rest == Merge(s[i..], t[j..]) ==> done + rest == Merge(s, t)
  }

  lemma MergeInvIff(done: Cover, s: Cover, t: Cover, i: nat, j: nat)
    requires i <= |s| && j <= |t|
    ensures MergeInv(done, s, t, i, j) <==> done + Merge(s[i..], t[j..]) == Merge(s, t)
  {
  }

  /** What is left to merge once one side is used up. */
  lemma MergeFinish(s: Cover, t: Cover, i: nat, j: nat, done: Cover)
    requires i <= |s| && j <= |t| && (i == |s| || j == |t|) && done + Merge(s[i..], t[j..]) == Merge(s, t)
    ensures (done + s[i..]) + t[j..] == Merge(s, t)
  {
    MergeRest(s, t, i, j);
    assert done + (s[i..] + t[j..]) == (done + s[i..]) + t[j..];
  }

  /** The difference loop's invariant, kept by one step. */
  lemma DiffAdvance(s: Cover, t: Cover, i: nat, j: nat, done: Cover)
    requires i < |s| && j < |t| && done + Diff(s[i..], t[j..]) == Diff(s, t)
    ensures CubeCompare(s[i], t[j]) > 0 ==> (done + [s[i]]) + Diff(s[i + 1..], t[j..]) == Diff(s, t)
    ensures CubeCompare(s[i], t[j]) < 0 ==> done + Diff(s[i..], t[j + 1..]) == Diff(s, t)
    ensures CubeCompare(s[i], t[j]) == 0 ==> done + Diff(s[i + 1..], t[j + 1..]) == Diff(s, t)
  {
    DiffStep(s, t, i, j);
    if CubeCompare(s[i], t[j]) > 0 {
      Regroup(done, s[i], Diff(s[i + 1..], t[j..]), Diff(s, t));
    }
  }

  /** The difference loop's invariant, kept behind a quantifier like MergeInv. */
  ghost predicate DiffInv(done: Cover, s: Cover, t: Cover, i: nat, j: nat)
    requires i <= |s| && j <= |t|
  {
    forall rest :: rest == Diff(s[i..], t[j..]) ==> done + rest == Diff(s, t)
  }

  lemma DiffInvIff(done: Cover, s: Cover, t: Cover, i: nat, j: nat)
    requires i <= |s| && j <= |t|
    ensures DiffInv(done, s, t, i, j) <==> done + Diff(s[i..], t[j..]) == Diff(s, t)
  {
  }

  /**
   * One round of the difference loop keeps its invariant: a greater cube of
   * s is written and passed, a smaller one of t is passed, an equal pair is
   * passed together.
   */
  lemma DiffInvStep(done: Cover, s: Cover, t: Cover, i: nat, j: nat, done': Cover, i': nat, j': nat)
    requires i < |s| && j < |t| && DiffInv(done, s, t, i, j)
    requires CubeCompare(s[i], t[j]) > 0 ==> done' == done + [s[i]] && i' == i + 1 && j' == j
    requires CubeCompare(s[i], t[j]) < 0 ==> done' == done && i' == i && j' == j + 1
    requires CubeCompare(s[i], t[j]) == 0 ==> done' == done && i' == i + 1 && j' == j + 1
    ensures i' <= |s| && j' <= |t| && DiffInv(done', s, t, i', j')
  {
    DiffInvIff(done, s, t, i, j);
    DiffAdvance(s, t, i, j, done);
    DiffInvIff(done', s, t, i', j');
  }

  /** Once t is used up, the difference is the rest of s. */
  lemma DiffRest(s: Cover, t: Cover, i: nat, j: nat)
    requires i <= |s| && j <= |t| && (i == |s| || j == |t|)
    ensures Diff(s[i..], t[j..]) == s[i..]
  {
  }



  /** The merge holds exactly the cubes of both covers. */
  lemma {:induction false} MergeMembers(s: Cover, t: Cover, x: Cube)
    ensures x in Merge(s, t) <==> x in s || x in t
    decreases |s| + |t|
  {
    if |s| > 0 && |t| > 0 {
      assert s == [s[0]] + s[1..] && t == [t[0]] + t[1..];
      if CubeCompare(s[0], t[0]) > 0 {
        MergeMembers(s[1..], t, x);
      } else if CubeCompare(s[0], t[0]) < 0 {
        MergeMembers(s, t[1..], x);
      } else {
        CompareZeroIff(s[0], t[0]);
        MergeMembers(s[1..], t[1..], x);
      }
    }
  }

  /** The merge of two descending covers is descending. */
  lemma {:induction false} MergeDesc(s: Cover, t: Cover)
    requires Desc(s) && Desc(t)
    ensures Desc(Merge(s, t))
    decreases |s| + |t|
  {
    if |s| > 0 && |t| > 0 {
      DescTail(s);
      DescTail(t);
      DescHead(s);
      DescHead(t);
      var c := CubeCompare(s[0], t[0]);
      CompareAntisym(s[0], t[0]);
      if c > 0 {
        MergeDesc(s[1..], t);
        AboveHead(s[0], t);
        MergeAbove(s[0], s[1..], t);
        DescCons(s[0], Merge(s[1..], t));
      } else if c < 0 {
        MergeDesc(s, t[1..]);
        AboveHead(t[0], s);
        MergeAbove(t[0], s, t[1..]);
        DescCons(t[0], Merge(s, t[1..]));
      } else {
        CompareZeroIff(s[0], t[0]);
        MergeDesc(s[1..], t[1..]);
        MergeAbove(s[0], s[1..], t[1..]);
        DescCons(s[0], Merge(s[1..], t[1..]));
      }
    }
  }

  /** A cube above both covers is above their merge. */
  lemma MergeAbove(x: Cube, s: Cover, t: Cover)
    requires AboveAll(x, s) && AboveAll(x, t)
    ensures AboveAll(x, Merge(s, t))
  {
    var m := Merge(s, t);
    forall j | 0 <= j < |m|
      ensures Above(x, m[j])
    {
      MergeMembers(s, t, m[j]);
    }
  }

  /** The merge is never longer than both covers together. */
  lemma {:induction false} MergeLength(s: Cover, t: Cover)
    ensures |Merge(s, t)| <= |s| + |t|
    ensures |Merge(s, t)| >= |s| && |Merge(s, t)| >= |t|
    decreases |s| + |t|
  {
    if |s| > 0 && |t| > 0 {
      if CubeCompare(s[0], t[0]) > 0 {
        MergeLength(s[1..], t);
      } else if CubeCompare(s[0], t[0]) < 0 {
        MergeLength(s, t[1..]);
      } else {
        MergeLength(s[1..], t[1..]);
      }
    }
  }

  /** Merging keeps the cube width. */
  lemma MergeUniform(s: Cover, t: Cover, nb: nat)
    requires Uniform(s, nb) && Uniform(t, nb)
    ensures Uniform(Merge(s, t), nb)
  {
    var m := Merge(s, t);
    forall j | 0 <= j < |m|
      ensures |m[j]| == nb
    {
      MergeMembers(s, t, m[j]);
    }
  }

  // ---------------------------------------------------------------------
  // diff: removing the cubes of one descending cover from another
  // ---------------------------------------------------------------------

  /** The cover diff computes: drop from s every cube that t also holds. */
  function Diff(s: Cover, t: Cover): Cover
    decreases |s| + |t|
  {
    if |s| == 0 then []
    else if |t| == 0 then s
    else if CubeCompare(s[0], t[0]) > 0 then [s[0]] + Diff(s[1..], t)
    else if CubeCompare(s[0], t[0]) < 0 then Diff(s, t[1..])
    else Diff(s[1..], t[1..])
  }

  /** One step of the difference, read at positions i and j. */
  lemma DiffStep(s: Cover, t: Cover, i: nat, j: nat)
    requires i < |s| && j < |t|
    ensures Diff(s[i..], t[j..]) ==
      if CubeCompare(s[i], t[j]) > 0 then [s[i]] + Diff(s[i + 1..], t[j..])
      else if CubeCompare(s[i], t[j]) < 0 then Diff(s[i..], t[j + 1..])
      else Diff(s[i + 1..], t[j + 1..])
  {
    assert s[i..][0] == s[i] && s[i..][1..] == s[i + 1..];
    assert t[j..][0] == t[j] && t[j..][1..] == t[j + 1..];
  }

  /** Only cubes of s reach the difference. */
  lemma {:induction false} DiffSubset(s: Cover, t: Cover, x: Cube)
    requires x in Diff(s, t)
    ensures x in s
    decreases |s| + |t|
  {
    if |s| > 0 && |t| > 0 {
      var c := CubeCompare(s[0], t[0]);
      if c > 0 {
        if x != s[0] {
          DiffSubset(s[1..], t, x);
        }
      } else if c < 0 {
        DiffSubset(s, t[1..], x);
      } else {
        DiffSubset(s[1..], t[1..], x);
      }
    }
  }

  /**
   * On descending covers the difference holds exactly the cubes of s that
   * t does not hold.
   */
  lemma {:induction false} DiffMembers(s: Cover, t: Cover, x: Cube)
    requires Desc(s) && Desc(t)
    ensures x in Diff(s, t) <==> x in s && x !in t
    decreases |s| + |t|
  {
    if |s| > 0 && |t| > 0 {
      DescTail(s);
      DescTail(t);
      DescHead(s);
      DescHead(t);
      assert s == [s[0]] + s[1..] && t == [t[0]] + t[1..];
      var c := CubeCompare(s[0], t[0]);
      CompareAntisym(s[0], t[0]);
      if c > 0 {
        DiffMembers(s[1..], t, x);
        if x == s[0] {
          AboveHead(s[0], t);
          NotInBelow(s[0], t);
        }
      } else if c < 0 {
        DiffMembers(s, t[1..], x);
        if x == t[0] {
          AboveHead(t[0], s);
          NotInBelow(t[0], s);
        }
      } else {
        CompareZeroIff(s[0], t[0]);
        DiffMembers(s[1..], t[1..], x);
        if x == s[0] {
          NotInBelow(s[0], s[1..]);
          NotInBelow(s[0], t[1..]);
        }
      }
    }
  }

  /** A cube above every cube of s is not one of them. */
  lemma NotInBelow(x: Cube, s: Cover)
    requires AboveAll(x, s)
    ensures x !in s
  {
    if x in s {
      var j :| 0 <= j < |s| && s[j] == x;
      CompareZeroIff(x, x);
    }
  }

  /** The difference keeps the order of s. */
  lemma {:induction false} DiffDesc(s: Cover, t: Cover)
    requires Desc(s)
    ensures Desc(Diff(s, t))
    decreases |s| + |t|
  {
    if |s| > 0 && |t| > 0 {
      DescTail(s);
      var c := CubeCompare(s[0], t[0]);
      if c > 0 {
        DiffDesc(s[1..], t);
        DescHead(s);
        var d := Diff(s[1..], t);
        forall j | 0 <= j < |d|
          ensures Above(s[0], d[j])
        {
          DiffSubset(s[1..], t, d[j]);
        }
        DescCons(s[0], d);
      } else if c < 0 {
        DiffDesc(s, t[1..]);
      } else {
        DiffDesc(s[1..], t[1..]);
      }
    }
  }

  // ---------------------------------------------------------------------
  // Comparing covers
  // ---------------------------------------------------------------------

  /**
   * compare: the covers are compared cube by cube; at the first difference
   * the cube comparison decides, and otherwise the cover with cubes left
   * over is the greater.
   */
  function CoverCompare(s: Cover, t: Cover): (r: int)
    ensures -1 <= r <= 1
  {
    if |s| == 0 && |t| == 0 then 0
    else if |s| == 0 then -1
    else if |t| == 0 then 1
    else if CubeCompare(s[0], t[0]) != 0 then CubeCompare(s[0], t[0])
    else CoverCompare(s[1..], t[1..])
  }

  lemma {:induction false} CoverCompareZeroIff(s: Cover, t: Cover)
    ensures CoverCompare(s, t) == 0 <==> s == t
  {
    if |s| > 0 && |t| > 0 {
      CompareZeroIff(s[0], t[0]);
      if s[0] == t[0] {
        CoverCompareZeroIff(s[1..], t[1..]);
        if s[1..] == t[1..] {
          assert s == [s[0]] + s[1..] && t == [t[0]] + t[1..];
        }
      }
    }
  }

  lemma {:induction false} CoverCompareAntisym(s: Cover, t: Cover)
    ensures CoverCompare(s, t) == -CoverCompare(t, s)
  {
    if |s| > 0 && |t| > 0 {
      CompareAntisym(s[0], t[0]);
      if CubeCompare(s[0], t[0]) == 0 {
        CoverCompareAntisym(s[1..], t[1..]);
      }
    }
  }

  lemma {:induction false} CoverCompareTrans(s: Cover, t: Cover, u: Cover)
    requires CoverCompare(s, t) > 0 && CoverCompare(t, u) > 0
    ensures CoverCompare(s, u) > 0
  {
    if |s| > 0 && |t| > 0 && |u| > 0 {
      var a := CubeCompare(s[0], t[0]);
      var b := CubeCompare(t[0], u[0]);
      CompareZeroIff(s[0], t[0]);
      CompareZeroIff(t[0], u[0]);
      if a == 0 && b == 0 {
        CoverCompareTrans(s[1..], t[1..], u[1..]);
      } else if a == 0 {
        assert s[0] == t[0];
      } else if b == 0 {
        assert t[0] == u[0];
      } else {
        CompareTrans(s[0], t[0], u[0]);
      }
    }
  }

  /** After i equal cubes the comparison is that of the rest. */
  lemma {:induction false} CoverCompareSkip(s: Cover, t: Cover, i: nat)
    requires i <= |s| && i <= |t| && s[..i] == t[..i]
    ensures CoverCompare(s, t) == CoverCompare(s[i..], t[i..])
  {
    if i > 0 {
      assert s[0] == s[..i][0] && t[0] == t[..i][0];
      CompareZeroIff(s[0], t[0]);
      assert s[1..][..i - 1] == s[..i][1..] && t[1..][..i - 1] == t[..i][1..];
      CoverCompareSkip(s[1..], t[1..], i - 1);
      assert s[1..][i - 1..] == s[i..] && t[1..][i - 1..] == t[i..];
    }
  }
}
