/**
 * The text form of covers (c++-srcs/AlgMgr.cc): the characters parse
 * accepts (is_validchar, isspace), the literal list parse produces from a
 * string, and the string print writes for a run of cubes. The round trip
 * parse(print(cover)) is proved here on these functions; the manager's
 * Parse and Print methods are proved to compute them.
 */
module SopText {
  import opened CubeBits
  import opened CubeView
  import opened AlgLiterals
  import opened SopPrint
  import LitOps

  datatype Option<T> = None | Some(value: T)

  // ---------------------------------------------------------------------
  // Characters
  // ---------------------------------------------------------------------

  /** The table of is_validchar, sixteen codes per row. */
  const ValidCharRows: seq<seq<bool>> := [
    [false, false, false, false, false, false, false, false, false, false, false, false, false, false, false, false],
    [false, false, false, false, false, false, false, false, false, false, false, false, false, false, false, false],
    [false, false, false, false, false, false, false, false, false, false, false, false, false, false, false, false],
    [true , true , true , true , true , true , true , true , true , true , false, false, false, false, false, false],
    [false, true , true , true , true , true , true , true , true , true , true , true , true , true , true , true ],
    [true , true , true , true , true , true , true , true , true , true , true , false, false, false, false, true ],
    [false, true , true , true , true , true , true , true , true , true , true , true , true , true , true , true ],
    [true , true , true , true , true , true , true , true , true , true , true , false, false, false, false, false],
    [false, false, false, false, false, false, false, false, false, false, false, false, false, false, false, false],
    [false, false, false, false, false, false, false, false, false, false, false, false, false, false, false, false],
    [false, false, false, false, false, false, false, false, false, false, false, false, false, false, false, false],
    [false, false, false, false, false, false, false, false, false, false, false, false, false, false, false, false],
    [false, false, false, false, false, false, false, false, false, false, false, false, false, false, false, false],
    [false, false, false, false, false, false, false, false, false, false, false, false, false, false, false, false],
    [false, false, false, false, false, false, false, false, false, false, false, false, false, false, false, false],
    [false, false, false, false, false, false, false, false, false, false, false, false, false, false, false, false]
  ]

  /** The codes of [0-9A-Za-z_]. */
  predicate NameCode(k: int)
  {
    '0' as int <= k <= '9' as int || 'A' as int <= k <= 'Z' as int || 'a' as int <= k <= 'z' as int || k == '_' as int
  }

  /** Row y of the table marks exactly the name characters among codes 16 * y to 16 * y + 15. */
  lemma ValidRow(y: nat)
    requires y < 16
    ensures |ValidCharRows| == 16 && |ValidCharRows[y]| == 16
    ensures forall x :: 0 <= x < 16 ==> (ValidCharRows[y][x] <==> NameCode(16 * y + x))
  {
    if y == 3 {
    } else if y == 4 {
    } else if y == 5 {
    } else if y == 6 {
    } else if y == 7 {
    } else {
    }
  }

  /**
   * is_validchar: a table lookup. Codes from 128 on find false entries (the
   * source indexes with a plain char; they are read here as their code).
   */
  function IsValidChar(c: char): (r: bool)
    ensures r == NameChar(c)
  {
    var k := c as int;
    if k < 256 then ValidRow(k / 16); ValidCharRows[k / 16][k % 16] else false
  }

  /** The characters of [0-9A-Za-z_]. */
  predicate NameChar(c: char)
  {
    '0' <= c <= '9' || 'A' <= c <= 'Z' || 'a' <= c <= 'z' || c == '_'
  }

  /** isspace in the C locale: space, \t, \n, \v, \f and \r. */
  predicate IsSpace(c: char)
  {
    c == ' ' || c == '\t' || c == '\n' || c as int == 11 || c as int == 12 || c == '\r'
  }

  /** A name the parser reads back as one token: non-empty, all name characters. */
  predicate IsName(w: string)
  {
    |w| >= 1 && forall k :: 0 <= k < |w| ==> NameChar(w[k])
  }

  // ---------------------------------------------------------------------
  // parse
  // ---------------------------------------------------------------------

  /** The length of the run of name characters at the front of s. */
  function NameLen(s: string): (n: nat)
    ensures n <= |s|
    ensures forall k :: 0 <= k < n ==> NameChar(s[k])
    ensures n == |s| || !NameChar(s[n])
    decreases |s|
  {
    if |s| == 0 || !NameChar(s[0]) then 0 else 1 + NameLen(s[1..])
  }

  /** Every variable number of the name table fits a literal. */
  predicate Bounded(names: map<string, nat>)
  {
    forall n :: n in names ==> names[n] < 0x8000_0000
  }

  /** pre put in front of a successful result; an error stays an error. */
  function Prepend(pre: seq<AlgLiteral>, r: Option<seq<AlgLiteral>>): (q: Option<seq<AlgLiteral>>)
    ensures q.Some? <==> r.Some?
    ensures r.Some? ==> q.value == pre + r.value
  {
    match r
    case None => None
    case Some(t) => Some(pre + t)
  }

  /**
   * The literal list parse builds from s in its state 0, or None for its
   * error state. A name is the longest run of name characters; a quote
   * right after it makes the literal negative; a name missing from the
   * table, a stray character or a quote anywhere else is an error;
   * whitespace is skipped; '+' is a cube separator (the undefined
   * literal); the end of the string or a NUL ends the parse.
   */
  function Scan(s: string, names: map<string, nat>): Option<seq<AlgLiteral>>
    requires Bounded(names)
    decreases |s|
  {
    if |s| == 0 || s[0] == '\0' then Some([])
    else if IsSpace(s[0]) then Scan(s[1..], names)
    else if NameChar(s[0]) then
      var n := NameLen(s);
      if s[..n] !in names then None
      else if n < |s| && s[n] == '\'' then Prepend([Make(names[s[..n]], true)], Scan(s[n + 1..], names))
      else Prepend([Make(names[s[..n]], false)], Scan(s[n..], names))
    else if s[0] == '+' then Prepend([Undef()], Scan(s[1..], names))
    else None
  }

  // ---------------------------------------------------------------------
  // print
  // ---------------------------------------------------------------------

  /** The words of ws with sep between each two. */
  function Join(ws: seq<string>, sep: string): string
    decreases |ws|
  {
    if |ws| == 0 then ""
    else if |ws| == 1 then ws[0]
    else Join(ws[..|ws| - 1], sep) + sep + ws[|ws| - 1]
  }

  /**
   * The literals of variables below nv that the cube x holds, in variable
   * order: the ones print writes.
   */
  function CubeLits(x: Cube, nv: nat): (r: seq<AlgLiteral>)
    requires nv < 0x8000_0000 && CubeSize(nv) <= |x|
    ensures forall i :: 0 <= i < |r| ==> VarId(r[i]) < nv
    decreases nv
  {
    if nv == 0 then []
    else
      BlockInCube(nv, nv - 1);
      assert CubeSize(nv - 1) <= CubeSize(nv);
      CubeLits(x, nv - 1) + FieldLit(x, nv - 1)
  }

  /** The literals print writes for a cube come in strictly increasing variable order. */
  lemma {:induction false} CubeLitsSorted(x: Cube, nv: nat)
    requires nv < 0x8000_0000 && CubeSize(nv) <= |x|
    ensures forall i, j :: 0 <= i < j < |CubeLits(x, nv)| ==> VarId(CubeLits(x, nv)[i]) < VarId(CubeLits(x, nv)[j])
    decreases nv
  {
    if nv > 0 {
      BlockInCube(nv, nv - 1);
      assert CubeSize(nv - 1) <= CubeSize(nv);
      CubeLitsSorted(x, nv - 1);
      var r := CubeLits(x, nv - 1);
      var f := FieldLit(x, nv - 1);
      assert CubeLits(x, nv) == r + f;
      forall i, j | 0 <= i < j < |r + f|
        ensures VarId((r + f)[i]) < VarId((r + f)[j])
      {
        assert (r + f)[i] == r[i];
        assert VarId(r[i]) < nv - 1;
        if j >= |r| {
          assert (r + f)[j] == f[j - |r|];
          assert VarId(f[j - |r|]) == nv - 1;
        } else {
          assert (r + f)[j] == r[j];
        }
      }
    }
  }

  /**
   * The literal the field of variable v stands for: the positive literal
   * for kAlgPolP, the negative one for kAlgPolN, none otherwise.
   */
  function FieldLit(x: Cube, v: nat): (r: seq<AlgLiteral>)
    requires v < 0x8000_0000 && BlockPos(v) < |x|
    ensures |r| <= 1 && (|r| == 1 <==> FieldOf(x, v) == 1 || FieldOf(x, v) == 2)
    ensures forall i :: 0 <= i < |r| ==> VarId(r[i]) == v && (IsNegative(r[i]) <==> FieldOf(x, v) == 1)
  {
    var f := FieldOf(x, v);
    if f == 2 then [Make(v, false)] else if f == 1 then [Make(v, true)] else []
  }

  /** The polarity code a literal has in its field: kAlgPolN when negative, kAlgPolP otherwise. */
  function PolOf(l: AlgLiteral): Word
  {
    if IsNegative(l) then 1 else 2
  }

  /** A literal is listed exactly when its variable is below nv and its field holds its polarity. */
  lemma {:induction false} CubeLitsMembers(x: Cube, nv: nat, l: AlgLiteral)
    requires nv < 0x8000_0000 && CubeSize(nv) <= |x|
    ensures l in CubeLits(x, nv) <==> VarId(l) < nv && BlockPos(VarId(l)) < |x| && FieldOf(x, VarId(l)) == PolOf(l)
    decreases nv
  {
    if nv > 0 {
      var v := nv - 1;
      BlockInCube(nv, v);
      assert CubeSize(v) <= CubeSize(nv);
      CubeLitsMembers(x, v, l);
      FieldLitMembers(x, v, l);
      assert CubeLits(x, nv) == CubeLits(x, v) + FieldLit(x, v);
      assert l in CubeLits(x, nv) <==> l in CubeLits(x, v) || l in FieldLit(x, v);
    }
  }

  /** The field of v lists l exactly when l is of variable v and the field holds its polarity. */
  lemma FieldLitMembers(x: Cube, v: nat, l: AlgLiteral)
    requires v < 0x8000_0000 && BlockPos(v) < |x|
    ensures l in FieldLit(x, v) <==> VarId(l) == v && FieldOf(x, v) == PolOf(l)
  {
    MakeRoundTrip(l);
    MakeVarId(v, true);
    MakeVarId(v, false);
  }

  /** A literal as print writes it: its variable's name, then a quote when negative. */
  function LitText(l: AlgLiteral, names: seq<string>): string
    requires VarId(l) < |names|
  {
    names[VarId(l)] + (if IsNegative(l) then "'" else "")
  }

  /** Every literal of ls names a variable of names. */
  predicate Named(ls: seq<AlgLiteral>, names: seq<string>)
  {
    forall i :: 0 <= i < |ls| ==> VarId(ls[i]) < |names|
  }

  /** The text of each literal. */
  function LitWords(ls: seq<AlgLiteral>, names: seq<string>): (r: seq<string>)
    requires Named(ls, names)
    ensures |r| == |ls|
  {
    seq(|ls|, i requires 0 <= i < |ls| => LitText(ls[i], names))
  }

  /** The text of one cube: its literals separated by a space. */
  function CubeText(ls: seq<AlgLiteral>, names: seq<string>): string
    requires Named(ls, names)
  {
    Join(LitWords(ls, names), " ")
  }

  /** Every cube of cs names variables of names. */
  predicate AllNamed(cs: seq<seq<AlgLiteral>>, names: seq<string>)
  {
    forall i :: 0 <= i < |cs| ==> Named(cs[i], names)
  }

  /** The text of each cube. */
  function CubeWords(cs: seq<seq<AlgLiteral>>, names: seq<string>): (r: seq<string>)
    requires AllNamed(cs, names)
    ensures |r| == |cs|
  {
    seq(|cs|, i requires 0 <= i < |cs| => CubeText(cs[i], names))
  }

  /** The text print writes for the cubes cs: their texts separated by " + ". */
  function CoverText(cs: seq<seq<AlgLiteral>>, names: seq<string>): string
    requires AllNamed(cs, names)
  {
    Join(CubeWords(cs, names), " + ")
  }

  /** The literal list of cubes cs with an undefined literal between each two, as parse reads it. */
  function Flatten(cs: seq<seq<AlgLiteral>>): seq<AlgLiteral>
    decreases |cs|
  {
    if |cs| == 0 then []
    else if |cs| == 1 then cs[0]
    else cs[0] + [Undef()] + Flatten(cs[1..])
  }

  // ---------------------------------------------------------------------
  // The round trip
  // ---------------------------------------------------------------------

  /** The name table reads each name of names back as its own variable. */
  predicate NameTable(names: seq<string>, m: map<string, nat>)
  {
    Bounded(m) &&
    forall v :: 0 <= v < |names| ==> IsName(names[v]) && names[v] in m && m[names[v]] == v
  }

  /** A position where a name ends and no quote follows. */
  predicate Boundary(t: string)
  {
    |t| == 0 || (!NameChar(t[0]) && t[0] != '\'')
  }

  /** Join read from the front. */
  lemma {:induction false} JoinCons(w: string, ws: seq<string>, sep: string)
    requires |ws| >= 1
    ensures Join([w] + ws, sep) == w + sep + Join(ws, sep)
    decreases |ws|
  {
    var v := [w] + ws;
    if |ws| == 1 {
      assert v[..1] == [w];
    } else {
      assert v[..|v| - 1] == [w] + ws[..|ws| - 1];
      JoinCons(w, ws[..|ws| - 1], sep);
    }
  }

  /** A name followed by a non-name character is read as exactly that name. */
  lemma {:induction false} NameLenOf(w: string, t: string)
    requires forall k :: 0 <= k < |w| ==> NameChar(w[k])
    requires |t| == 0 || !NameChar(t[0])
    ensures NameLen(w + t) == |w|
    decreases |w|
  {
    if |w| > 0 {
      assert (w + t)[1..] == w[1..] + t;
      NameLenOf(w[1..], t);
    }
  }

  lemma ScanSpace(t: string, names: map<string, nat>)
    requires Bounded(names)
    ensures Scan(" " + t, names) == Scan(t, names)
  {
    assert (" " + t)[1..] == t;
  }

  lemma ScanPlus(t: string, names: map<string, nat>)
    requires Bounded(names)
    ensures Scan(" + " + t, names) == Prepend([Undef()], Scan(t, names))
  {
    assert (" + " + t)[1..] == "+ " + t;
    assert ("+ " + t)[1..] == " " + t;
    ScanSpace(t, names);
  }

  /** One literal's text is read back as that literal. */
  lemma ScanLit(l: AlgLiteral, names: seq<string>, m: map<string, nat>, t: string)
    requires NameTable(names, m) && VarId(l) < |names| && Boundary(t)
    ensures Scan(LitText(l, names) + t, m) == Prepend([l], Scan(t, m))
  {
    MakeRoundTrip(l);
    var w := names[VarId(l)];
    if IsNegative(l) {
      assert LitText(l, names) + t == w + ("'" + t);
      ScanName(w, m, "'" + t, true);
      assert ("'" + t)[1..] == t;
    } else {
      assert LitText(l, names) + t == w + t;
      ScanName(w, m, t, false);
    }
  }

  /** A known name followed by u: a negative literal when u starts with a quote. */
  lemma ScanName(w: string, m: map<string, nat>, u: string, neg: bool)
    requires Bounded(m) && IsName(w) && w in m
    requires neg <==> |u| > 0 && u[0] == '\''
    requires |u| == 0 || !NameChar(u[0])
    ensures Scan(w + u, m) == Prepend([Make(m[w], neg)], Scan(if neg then u[1..] else u, m))
  {
    var s := w + u;
    NameLenOf(w, u);
    assert s[..|w|] == w;
    if neg {
      assert s[|w| + 1..] == u[1..];
    } else {
      assert s[|w|..] == u;
    }
  }

  lemma PrependTwice(l: AlgLiteral, rest: seq<AlgLiteral>, r: Option<seq<AlgLiteral>>)
    ensures Prepend([l], Prepend(rest, r)) == Prepend([l] + rest, r)
  {
    if r.Some? {
      assert [l] + (rest + r.value) == ([l] + rest) + r.value;
    }
  }

  /** The text of a cube of several literals: the first literal's text, a space, the rest. */
  lemma CubeTextCons(l: AlgLiteral, rest: seq<AlgLiteral>, names: seq<string>)
    requires Named([l] + rest, names) && |rest| >= 1
    ensures VarId(l) < |names| && Named(rest, names)
    ensures CubeText([l] + rest, names) == LitText(l, names) + " " + CubeText(rest, names)
  {
    assert ([l] + rest)[0] == l;
    forall i | 0 <= i < |rest|
      ensures VarId(rest[i]) < |names|
    {
      assert rest[i] == ([l] + rest)[i + 1];
    }
    assert LitWords([l] + rest, names) == [LitText(l, names)] + LitWords(rest, names);
    JoinCons(LitText(l, names), LitWords(rest, names), " ");
  }

  /** The first literal of a cube of several is read, then the rest after the space. */
  lemma ScanCubeStep(l: AlgLiteral, rest: seq<AlgLiteral>, names: seq<string>, m: map<string, nat>, t: string)
    requires NameTable(names, m) && Named([l] + rest, names) && |rest| >= 1 && Boundary(t)
    ensures Named(rest, names)
    ensures Scan(CubeText([l] + rest, names) + t, m) == Prepend([l], Scan(CubeText(rest, names) + t, m))
  {
    CubeTextCons(l, rest, names);
    var u := CubeText(rest, names) + t;
    assert CubeText([l] + rest, names) + t == LitText(l, names) + (" " + u);
    ScanLit(l, names, m, " " + u);
    ScanSpace(u, m);
  }

  /** A cube's text is read back as its literals. */
  lemma {:induction false} ScanCube(ls: seq<AlgLiteral>, names: seq<string>, m: map<string, nat>, t: string)
    requires NameTable(names, m) && Named(ls, names) && Boundary(t)
    ensures Scan(CubeText(ls, names) + t, m) == Prepend(ls, Scan(t, m))
    decreases |ls|
  {
    if |ls| == 0 {
      assert CubeText(ls, names) + t == t;
      assert Scan(t, m).Some? ==> [] + Scan(t, m).value == Scan(t, m).value;
    } else if |ls| == 1 {
      assert CubeText(ls, names) == LitText(ls[0], names);
      ScanLit(ls[0], names, m, t);
      assert [ls[0]] == ls;
    } else {
      ScanCubeStep(ls[0], ls[1..], names, m, t);
      ScanCube(ls[1..], names, m, t);
      PrependTwice(ls[0], ls[1..], Scan(t, m));
      assert [ls[0]] + ls[1..] == ls;
    }
  }

  /** The text of several cubes: the first cube's text, " + ", the rest. */
  lemma CoverTextCons(c: seq<AlgLiteral>, rest: seq<seq<AlgLiteral>>, names: seq<string>)
    requires AllNamed([c] + rest, names) && |rest| >= 1
    ensures Named(c, names) && AllNamed(rest, names)
    ensures CoverText([c] + rest, names) == CubeText(c, names) + " + " + CoverText(rest, names)
  {
    assert ([c] + rest)[0] == c;
    forall i | 0 <= i < |rest|
      ensures Named(rest[i], names)
    {
      assert rest[i] == ([c] + rest)[i + 1];
    }
    assert CubeWords([c] + rest, names) == [CubeText(c, names)] + CubeWords(rest, names);
    JoinCons(CubeText(c, names), CubeWords(rest, names), " + ");
  }

  /** The first cube of several is read, then the separator, then the rest. */
  lemma ScanCoverStep(c: seq<AlgLiteral>, rest: seq<seq<AlgLiteral>>, names: seq<string>, m: map<string, nat>,
                      f: seq<AlgLiteral>)
    requires NameTable(names, m) && AllNamed([c] + rest, names) && |rest| >= 1
    requires AllNamed(rest, names) ==> Scan(CoverText(rest, names), m) == Some(f)
    ensures AllNamed(rest, names)
    ensures Scan(CoverText([c] + rest, names), m) == Some(c + [Undef()] + f)
  {
    CoverTextCons(c, rest, names);
    var u := CoverText(rest, names);
    assert CoverText([c] + rest, names) == CubeText(c, names) + (" + " + u);
    ScanCube(c, names, m, " + " + u);
    ScanPlus(u, m);
    assert c + ([Undef()] + f) == (c + [Undef()]) + f;
  }

  /**
   * parse reads what print writes: the text of the cubes cs is read back as
   * their literals with a separator between each two cubes, provided every
   * variable name is a name the parser reads as one token and the table maps
   * it back to its variable.
   */
  lemma {:induction false} ScanCover(cs: seq<seq<AlgLiteral>>, names: seq<string>, m: map<string, nat>)
    requires NameTable(names, m) && AllNamed(cs, names)
    ensures Scan(CoverText(cs, names), m) == Some(Flatten(cs))
    decreases |cs|
  {
    if |cs| == 0 {
    } else if |cs| == 1 {
      assert CoverText(cs, names) == CubeText(cs[0], names) + "";
      ScanCube(cs[0], names, m, "");
      assert cs[0] + [] == cs[0];
    } else {
      var rest := cs[1..];
      assert [cs[0]] + rest == cs;
      CoverTextCons(cs[0], rest, names);
      ScanCover(rest, names, m);
      ScanCoverStep(cs[0], rest, names, m, Flatten(rest));
    }
  }

  /** One more literal written after the literals ls, as print's inner loop does. */
  lemma CubeTextSnoc(ls: seq<AlgLiteral>, l: AlgLiteral, names: seq<string>)
    requires Named(ls + [l], names)
    ensures Named(ls, names) && VarId(l) < |names|
    ensures CubeText(ls + [l], names) == if |ls| == 0 then LitText(l, names) else CubeText(ls, names) + " " + LitText(l, names)
  {
    assert (ls + [l])[|ls|] == l;
    forall i | 0 <= i < |ls|
      ensures VarId(ls[i]) < |names|
    {
      assert ls[i] == (ls + [l])[i];
    }
    var ws := LitWords(ls + [l], names);
    assert ws == LitWords(ls, names) + [LitText(l, names)];
    assert ws[..|ws| - 1] == LitWords(ls, names);
  }

  /** One more cube written after the cubes cs, as print's outer loop does. */
  lemma CoverTextSnoc(cs: seq<seq<AlgLiteral>>, c: seq<AlgLiteral>, names: seq<string>)
    requires AllNamed(cs + [c], names)
    ensures AllNamed(cs, names) && Named(c, names)
    ensures CoverText(cs + [c], names) == if |cs| == 0 then CubeText(c, names) else CoverText(cs, names) + " + " + CubeText(c, names)
  {
    assert (cs + [c])[|cs|] == c;
    forall i | 0 <= i < |cs|
      ensures Named(cs[i], names)
    {
      assert cs[i] == (cs + [c])[i];
    }
    var ws := CubeWords(cs + [c], names);
    assert ws == CubeWords(cs, names) + [CubeText(c, names)];
    assert ws[..|ws| - 1] == CubeWords(cs, names);
  }

  /** The inner loop writes the literals of the cube, in variable order, separated by a space. */
  lemma {:induction false} CubeOutText(x: Cube, j: nat, names: seq<string>)
    requires j <= |names| < 0x8000_0000 && CubeSize(j) <= |x|
    ensures Named(CubeLits(x, j), names)
    ensures HasLit(x, j) <==> |CubeLits(x, j)| > 0
    ensures CubeOut(x, j, names) == CubeText(CubeLits(x, j), names)
    decreases j
  {
    if j > 0 {
      var v := j - 1;
      BlockInCube(j, v);
      assert CubeSize(v) <= CubeSize(j);
      CubeOutText(x, v, names);
      var ls := CubeLits(x, v);
      assert CubeLits(x, j) == ls + FieldLit(x, v);
      FieldText(ls, x, v, names);
    }
  }

  /** The text of a cube's literals with the literal of variable j's field after them. */
  lemma FieldText(ls: seq<AlgLiteral>, x: Cube, j: nat, names: seq<string>)
    requires Named(ls, names) && j < |names| && j < 0x8000_0000 && BlockPos(j) < |x|
    ensures Named(ls + FieldLit(x, j), names)
    ensures CubeText(ls + FieldLit(x, j), names) == CubeText(ls, names) + FieldOut(FieldOf(x, j), names[j], |ls| > 0)
  {
    var fl := FieldLit(x, j);
    if |fl| == 1 {
      var l := fl[0];
      assert fl == [l];
      CubeTextSnoc(ls, l, names);
      if |ls| == 0 {
        assert LitWords(ls, names) == [];
      }
    } else {
      assert ls + fl == ls;
    }
  }

  // ---------------------------------------------------------------------
  // Counting the cubes read back
  // ---------------------------------------------------------------------

  /** The number of cubes of cs that hold some literal. */
  function NonEmpty(cs: seq<seq<AlgLiteral>>): (n: nat)
    ensures n <= |cs|
    decreases |cs|
  {
    if |cs| == 0 then 0 else (if |cs[0]| > 0 then 1 else 0) + NonEmpty(cs[1..])
  }

  /** No literal of ls is the separator. */
  predicate NoSeparator(ls: seq<AlgLiteral>)
  {
    forall i :: 0 <= i < |ls| ==> ls[i] != Undef()
  }

  /** A run of literals adds one run when it is non-empty and starts a new one. */
  lemma {:induction false} RunsOfCube(first: bool, c: seq<AlgLiteral>, rest: seq<AlgLiteral>)
    requires NoSeparator(c)
    ensures LitOps.Runs(first, c + rest) == (if first && |c| > 0 then 1 else 0) + LitOps.Runs(first && |c| == 0, rest)
    decreases |c|
  {
    if |c| > 0 {
      assert (c + rest)[1..] == c[1..] + rest;
      assert (c + rest)[0] == c[0];
      RunsOfCube(false, c[1..], rest);
    } else {
      assert c + rest == rest;
    }
  }

  /**
   * The count parse returns for the flattened cubes is the number of
   * non-empty cubes: an empty cube leaves two separators side by side and
   * is not counted.
   */
  lemma {:induction false} FlattenRuns(cs: seq<seq<AlgLiteral>>)
    requires forall i :: 0 <= i < |cs| ==> NoSeparator(cs[i])
    ensures LitOps.RunCount(Flatten(cs)) == NonEmpty(cs)
    decreases |cs|
  {
    if |cs| == 1 {
      RunsOfCube(true, cs[0], []);
      assert cs[0] + [] == cs[0];
      assert cs[1..] == [];
    } else if |cs| > 1 {
      var rest := cs[1..];
      var f := Flatten(rest);
      assert Flatten(cs) == cs[0] + ([Undef()] + f);
      RunsOfCube(true, cs[0], [Undef()] + f);
      assert ([Undef()] + f)[1..] == f;
      FlattenRuns(rest);
    }
  }

  // ---------------------------------------------------------------------
  // The cubes of a buffer as text
  // ---------------------------------------------------------------------

  /** The literal lists print writes for cubes lo .. hi of a buffer a of a manager of nv variables. */
  function BufferLits(a: seq<Word>, nv: nat, lo: nat, hi: nat): (r: seq<seq<AlgLiteral>>)
    requires nv < 0x8000_0000 && lo <= hi && Base(hi, CubeSize(nv)) <= |a|
    ensures |r| == hi - lo
    decreases hi - lo
  {
    if hi == lo then []
    else BufferLits(a, nv, lo, hi - 1) + [CubeLits(CubeAt(a, CubeSize(nv), hi - 1), nv)]
  }

  /** The i-th list is the literals of cube lo + i of the buffer. */
  lemma {:induction false} BufferLitsAt(a: seq<Word>, nv: nat, lo: nat, hi: nat, i: nat)
    requires nv < 0x8000_0000 && lo <= hi && Base(hi, CubeSize(nv)) <= |a| && i < hi - lo
    ensures Base(lo + i, CubeSize(nv)) + CubeSize(nv) <= |a|
    ensures BufferLits(a, nv, lo, hi)[i] == CubeLits(CubeAt(a, CubeSize(nv), lo + i), nv)
    decreases hi - lo
  {
    var nb := CubeSize(nv);
    CubeInside(lo + i, hi, nb);
    var ls := BufferLits(a, nv, lo, hi - 1);
    var c := CubeLits(CubeAt(a, nb, hi - 1), nv);
    assert BufferLits(a, nv, lo, hi) == ls + [c];
    if lo + i < hi - 1 {
      BufferLitsAt(a, nv, lo, hi - 1, i);
      assert (ls + [c])[i] == ls[i];
    } else {
      assert (ls + [c])[i] == c;
    }
  }

  /** Every literal print writes names a variable below nv and none is the separator. */
  lemma {:induction false} BufferNamed(a: seq<Word>, nv: nat, lo: nat, hi: nat, names: seq<string>)
    requires nv < 0x8000_0000 && |names| == nv && lo <= hi && Base(hi, CubeSize(nv)) <= |a|
    ensures AllNamed(BufferLits(a, nv, lo, hi), names)
    ensures forall i :: 0 <= i < hi - lo ==> NoSeparator(BufferLits(a, nv, lo, hi)[i])
    decreases hi - lo
  {
    if hi > lo {
      BufferNamed(a, nv, lo, hi - 1, names);
      var ls := BufferLits(a, nv, lo, hi - 1);
      var c := CubeLits(CubeAt(a, CubeSize(nv), hi - 1), nv);
      assert BufferLits(a, nv, lo, hi) == ls + [c];
      forall i | 0 <= i < hi - lo
        ensures Named((ls + [c])[i], names) && NoSeparator((ls + [c])[i])
      {
        if i < |ls| {
          assert (ls + [c])[i] == ls[i];
        } else {
          assert (ls + [c])[i] == c;
        }
      }
    }
  }

  /** print's text is the cube texts joined by " + ". */
  lemma {:induction false} BufferTextJoin(a: seq<Word>, nv: nat, lo: nat, hi: nat, names: seq<string>)
    requires nv < 0x8000_0000 && |names| == nv && lo <= hi && Base(hi, CubeSize(nv)) <= |a|
    ensures AllNamed(BufferLits(a, nv, lo, hi), names)
    ensures BufferText(a, nv, lo, hi, names) == CoverText(BufferLits(a, nv, lo, hi), names)
    decreases hi - lo
  {
    BufferNamed(a, nv, lo, hi, names);
    if hi > lo {
      CubeInside(hi - 1, hi, CubeSize(nv));
      var ls := BufferLits(a, nv, lo, hi - 1);
      var x := CubeAt(a, CubeSize(nv), hi - 1);
      var c := CubeLits(x, nv);
      var sep := if hi - 1 == lo then "" else " + ";
      calc {
        BufferText(a, nv, lo, hi, names);
        BufferText(a, nv, lo, hi - 1, names) + sep + CubeOut(x, nv, names);
        { BufferTextJoin(a, nv, lo, hi - 1, names); CubeOutText(x, nv, names); }
        CoverText(ls, names) + sep + CubeText(c, names);
        { CoverTextSnoc(ls, c, names); }
        CoverText(ls + [c], names);
        CoverText(BufferLits(a, nv, lo, hi), names);
      }
    }
  }

  /**
   * print then parse: with a name table that reads every name back as its
   * variable, the text of cubes lo .. hi is parsed into their literal
   * lists with a separator between each two, and the count parse returns
   * is the number of those cubes that hold a literal.
   */
  lemma TextRoundTrip(a: seq<Word>, lo: nat, hi: nat, names: seq<string>, m: map<string, nat>)
    requires |names| < 0x8000_0000 && lo <= hi && Base(hi, CubeSize(|names|)) <= |a|
    requires NameTable(names, m)
    ensures Scan(BufferText(a, |names|, lo, hi, names), m) == Some(Flatten(BufferLits(a, |names|, lo, hi)))
    ensures LitOps.RunCount(Flatten(BufferLits(a, |names|, lo, hi))) == NonEmpty(BufferLits(a, |names|, lo, hi))
  {
    var ls := BufferLits(a, |names|, lo, hi);
    BufferNamed(a, |names|, lo, hi, names);
    BufferTextJoin(a, |names|, lo, hi, names);
    ScanCover(ls, names, m);
    FlattenRuns(ls);
  }

  // ---------------------------------------------------------------------
  // parse, one state at a time
  // ---------------------------------------------------------------------

  /** State 0 at the end of the string or a NUL: nothing more is read. */
  lemma ScanEndAt(s: string, p: nat, m: map<string, nat>)
    requires Bounded(m) && p <= |s| && (p == |s| || s[p] == '\0')
    ensures Scan(s[p..], m) == Some([])
  {
  }

  /** State 0 at whitespace: it is skipped. */
  lemma ScanSpaceAt(s: string, p: nat, m: map<string, nat>)
    requires Bounded(m) && p < |s| && IsSpace(s[p])
    ensures Scan(s[p..], m) == Scan(s[p + 1..], m)
  {
    assert s[p..][1..] == s[p + 1..];
  }

  /** State 0 at '+': a separator is read. */
  lemma ScanPlusAt(s: string, p: nat, m: map<string, nat>)
    requires Bounded(m) && p < |s| && s[p] == '+'
    ensures Scan(s[p..], m) == Prepend([Undef()], Scan(s[p + 1..], m))
  {
    assert s[p..][1..] == s[p + 1..];
  }

  /** State 0 at any other character that starts no name: the error state. */
  lemma ScanBadAt(s: string, p: nat, m: map<string, nat>)
    requires Bounded(m) && p < |s| && s[p] != '\0' && !IsSpace(s[p]) && !NameChar(s[p]) && s[p] != '+'
    ensures Scan(s[p..], m) == None
  {
  }

  /**
   * State 1 after the name s[p0..p]: an unknown name is an error; a quote
   * makes the literal negative and is consumed.
   */
  lemma ScanNameAt(s: string, p0: nat, p: nat, m: map<string, nat>)
    requires Bounded(m) && p0 < p <= |s|
    requires forall k :: p0 <= k < p ==> NameChar(s[k])
    requires p == |s| || !NameChar(s[p])
    ensures s[p0..p] !in m ==> Scan(s[p0..], m) == None
    ensures s[p0..p] in m && p < |s| && s[p] == '\'' ==>
              Scan(s[p0..], m) == Prepend([Make(m[s[p0..p]], true)], Scan(s[p + 1..], m))
    ensures s[p0..p] in m && !(p < |s| && s[p] == '\'') ==>
              Scan(s[p0..], m) == Prepend([Make(m[s[p0..p]], false)], Scan(s[p..], m))
  {
    var u := s[p0..];
    var w := s[p0..p];
    assert u == w + s[p..];
    NameLenOf(w, s[p..]);
    assert u[..p - p0] == w;
    assert u[p - p0..] == s[p..];
    if p < |s| {
      assert u[p - p0 + 1..] == s[p + 1..];
    }
  }

  /** Nothing read yet. */
  lemma PrependNone(r: Option<seq<AlgLiteral>>)
    ensures Prepend([], r) == r
  {
    if r.Some? {
      assert [] + r.value == r.value;
    }
  }

  /** Literals read one after another. */
  lemma PrependSnoc(pre: seq<AlgLiteral>, l: AlgLiteral, r: Option<seq<AlgLiteral>>)
    ensures Prepend(pre, Prepend([l], r)) == Prepend(pre + [l], r)
  {
    if r.Some? {
      assert pre + ([l] + r.value) == (pre + [l]) + r.value;
    }
  }
}
