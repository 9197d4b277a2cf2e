/**
 * Algebraic division of covers (c++-srcs/AlgMgr.cc:486-580).
 *
 * division(f, d) divides every cube of f by the first cube of d it
 * contains and calls that the cube's quotient. A quotient is emitted at the
 * position from which exactly |d| cubes of f still share it. division(f,
 * lit) keeps the cubes that hold the literal, with the literal removed.
 */
module CoverDivision {
  import opened CubeBits
  import opened CubeView
  import opened CubeAlgebra
  import opened CubeOrder
  import opened LitOps
  import L = AlgLiterals
  import T = SopText
  import CP = CoverProduct
  import CubeOps
  import CubeBuffer

  type Quot = T.Option<Cube>

  // ---------------------------------------------------------------------
  // The quotient of one cube
  // ---------------------------------------------------------------------

  /** The index of the first cube of t from j on that x contains, or |t|. */
  function FirstCover(x: Cube, t: Cover, j: nat): (r: nat)
    requires Uniform(t, |x|) && j <= |t|
    ensures j <= r <= |t|
    ensures r < |t| ==> Covers(x, t[r])
    ensures forall k :: j <= k < r ==> !Covers(x, t[k])
    decreases |t| - j
  {
    if j == |t| then |t| else if Covers(x, t[j]) then j else FirstCover(x, t, j + 1)
  }

  /** The quotient the first pass records for x: x divided by the first cube of t it contains. */
  function FirstQuot(x: Cube, t: Cover): (r: Quot)
    requires Uniform(t, |x|)
  {
    var j := FirstCover(x, t, 0);
    if j < |t| then T.Some(QuotCube(x, t[j])) else T.None
  }

  /** The quotients of the cubes of s by t, position by position. */
  function Quots(s: Cover, t: Cover, nb: nat): (r: seq<Quot>)
    requires Uniform(s, nb) && Uniform(t, nb)
    ensures |r| == |s|
  {
    seq(|s|, i requires 0 <= i < |s| => FirstQuot(s[i], t))
  }

  lemma FirstQuotIff(x: Cube, t: Cover)
    requires Uniform(t, |x|)
    ensures FirstQuot(x, t).Some? <==> exists j :: 0 <= j < |t| && Covers(x, t[j])
    ensures FirstQuot(x, t).Some? ==> |FirstQuot(x, t).value| == |x|
  {
    var j := FirstCover(x, t, 0);
    if j == |t| {
      assert forall k :: 0 <= k < |t| ==> !Covers(x, t[k]);
    }
  }

  // ---------------------------------------------------------------------
  // Emission
  // ---------------------------------------------------------------------

  /** The number of positions of qs that hold the quotient v. */
  function Count(qs: seq<Quot>, v: Cube): (r: nat)
    ensures r <= |qs|
  {
    if |qs| == 0 then 0 else (if qs[0] == T.Some(v) then 1 else 0) + Count(qs[1..], v)
  }

  /** Position i emits its quotient: exactly n positions from i on hold it. */
  predicate EmitAt(qs: seq<Quot>, i: nat, n: nat)
    requires i < |qs|
  {
    qs[i].Some? && Count(qs[i..], qs[i].value) == n
  }

  /** The quotients emitted by the positions before i, in position order. */
  function Emitted(qs: seq<Quot>, n: nat, i: nat): (r: Cover)
    requires i <= |qs|
    ensures |r| <= i
  {
    if i == 0 then [] else Emitted(qs, n, i - 1) + if EmitAt(qs, i - 1, n) then [qs[i - 1].value] else []
  }

  /** division(s, t): the quotients of s by t emitted over all of s. */
  function Division(s: Cover, t: Cover, nb: nat): (r: Cover)
    requires Uniform(s, nb) && Uniform(t, nb)
  {
    Emitted(Quots(s, t, nb), |t|, |s|)
  }

  lemma CountSuffix(qs: seq<Quot>, i: nat, v: Cube)
    requires i < |qs|
    ensures Count(qs[i..], v) == (if qs[i] == T.Some(v) then 1 else 0) + Count(qs[i + 1..], v)
  {
    assert qs[i..][1..] == qs[i + 1..];
  }

  lemma {:induction false} CountSuffixMono(qs: seq<Quot>, i: nat, j: nat, v: Cube)
    requires i <= j <= |qs|
    ensures Count(qs[j..], v) <= Count(qs[i..], v)
    decreases j - i
  {
    if i < j {
      CountSuffix(qs, i, v);
      CountSuffixMono(qs, i + 1, j, v);
    }
  }

  /** From a suffix holding v at least n >= 1 times, some position emits v. */
  lemma {:induction false} EmitExists(qs: seq<Quot>, n: nat, i: nat, v: Cube)
    requires 1 <= n && i <= |qs| && Count(qs[i..], v) >= n
    ensures exists k :: i <= k < |qs| && EmitAt(qs, k, n) && qs[k].value == v
    decreases |qs| - i
  {
    CountSuffix(qs, i, v);
    if !(qs[i] == T.Some(v) && Count(qs[i..], v) == n) {
      EmitExists(qs, n, i + 1, v);
    }
  }

  /** v is emitted before i exactly when some position before i emits it. */
  lemma {:induction false} EmittedIn(qs: seq<Quot>, n: nat, i: nat, v: Cube)
    requires i <= |qs|
    ensures v in Emitted(qs, n, i) <==> exists k :: 0 <= k < i && EmitAt(qs, k, n) && qs[k].value == v
  {
    if i > 0 {
      EmittedIn(qs, n, i - 1, v);
    }
  }

  /** A quotient is emitted exactly when at least n >= 1 positions hold it. */
  lemma EmittedMembers(qs: seq<Quot>, n: nat, v: Cube)
    requires 1 <= n
    ensures v in Emitted(qs, n, |qs|) <==> Count(qs, v) >= n
  {
    assert qs[0..] == qs;
    EmittedIn(qs, n, |qs|, v);
    if Count(qs, v) >= n {
      EmitExists(qs, n, 0, v);
    }
    if v in Emitted(qs, n, |qs|) {
      var k :| 0 <= k < |qs| && EmitAt(qs, k, n) && qs[k].value == v;
      CountSuffixMono(qs, 0, k, v);
    }
  }

  /** No quotient is emitted twice. */
  lemma {:induction false} EmittedDistinct(qs: seq<Quot>, n: nat, i: nat)
    requires i <= |qs|
    ensures Distinct(Emitted(qs, n, i))
  {
    if i > 0 {
      EmittedDistinct(qs, n, i - 1);
      if EmitAt(qs, i - 1, n) {
        var v := qs[i - 1].value;
        EmittedIn(qs, n, i - 1, v);
        EmitOnce(qs, n, i - 1);
        DistinctSnoc(Emitted(qs, n, i - 1), v);
      }
    }
  }

  /** A position that emits has no earlier position emitting the same quotient. */
  lemma EmitOnce(qs: seq<Quot>, n: nat, i: nat)
    requires i < |qs| && EmitAt(qs, i, n)
    ensures forall k :: 0 <= k < i && qs[k] == qs[i] ==> !EmitAt(qs, k, n)
  {
    var v := qs[i].value;
    forall k | 0 <= k < i && qs[k] == qs[i]
      ensures Count(qs[k..], v) > n
    {
      CountSuffix(qs, k, v);
      CountSuffixMono(qs, k + 1, i, v);
    }
  }

  lemma DistinctSnoc(e: Cover, v: Cube)
    requires Distinct(e) && v !in e
    ensures Distinct(e + [v])
  {
    var e' := e + [v];
    forall i, j | 0 <= i < j < |e'|
      ensures e'[i] != e'[j]
    {
      if j == |e| {
        assert e'[i] == e[i];
      } else {
        assert e'[i] == e[i] && e'[j] == e[j];
      }
    }
  }

  /** With an empty divisor nothing is emitted: a position always holds its own quotient. */
  lemma {:induction false} NothingByZero(qs: seq<Quot>, i: nat)
    requires i <= |qs|
    ensures Emitted(qs, 0, i) == []
  {
    if i > 0 {
      NothingByZero(qs, i - 1);
      if qs[i - 1].Some? {
        CountSuffix(qs, i - 1, qs[i - 1].value);
      }
    }
  }

  lemma DivisionByEmpty(s: Cover, nb: nat)
    requires Uniform(s, nb)
    ensures Division(s, [], nb) == []
  {
    NothingByZero(Quots(s, [], nb), |s|);
  }

  // ---------------------------------------------------------------------
  // The size of the quotient
  // ---------------------------------------------------------------------

  /** qs with the positions holding v removed. */
  function Without(qs: seq<Quot>, v: Cube): (r: seq<Quot>)
  {
    if |qs| == 0 then [] else (if qs[0] == T.Some(v) then [] else [qs[0]]) + Without(qs[1..], v)
  }

  lemma {:induction false} WithoutCounts(qs: seq<Quot>, v: Cube, w: Cube)
    ensures |Without(qs, v)| == |qs| - Count(qs, v)
    ensures Count(Without(qs, v), w) == if w == v then 0 else Count(qs, w)
  {
    if |qs| > 0 {
      WithoutCounts(qs[1..], v, w);
      var r := Without(qs, v);
      var r1 := Without(qs[1..], v);
      if qs[0] != T.Some(v) {
        assert r == [qs[0]] + r1 && r[1..] == r1;
      } else {
        assert r == r1;
      }
    }
  }

  /** Distinct quotients each held at least n times take at least n positions each. */
  lemma {:induction false} DistinctCounts(e: Cover, qs: seq<Quot>, n: nat)
    requires Distinct(e) && forall k :: 0 <= k < |e| ==> Count(qs, e[k]) >= n
    ensures |e| * n <= |qs|
  {
    if |e| > 0 {
      var qs' := Without(qs, e[0]);
      WithoutCounts(qs, e[0], e[0]);
      forall k | 0 <= k < |e| - 1
        ensures Count(qs', e[1..][k]) >= n
      {
        assert e[1..][k] == e[k + 1] != e[0];
        WithoutCounts(qs, e[0], e[k + 1]);
      }
      assert Distinct(e[1..]) by {
        forall i, j | 0 <= i < j < |e| - 1
          ensures e[1..][i] != e[1..][j]
        {
          assert e[1..][i] == e[i + 1] && e[1..][j] == e[j + 1];
        }
      }
      DistinctCounts(e[1..], qs', n);
      assert |e| * n == (|e| - 1) * n + n;
    }
  }

  /** At most |qs| / n quotients are emitted: each takes n positions of its own. */
  lemma EmittedLength(qs: seq<Quot>, n: nat)
    requires 1 <= n
    ensures |Emitted(qs, n, |qs|)| * n <= |qs|
  {
    var e := Emitted(qs, n, |qs|);
    EmittedDistinct(qs, n, |qs|);
    forall k | 0 <= k < |e|
      ensures Count(qs, e[k]) >= n
    {
      EmittedMembers(qs, n, e[k]);
    }
    DistinctCounts(e, qs, n);
  }

  /** The quotient of nc1 cubes by nc2 >= 1 cubes has at most nc1 / nc2 cubes, the room operator/ gives it. */
  lemma DivisionLength(s: Cover, t: Cover, nb: nat)
    requires Uniform(s, nb) && Uniform(t, nb) && |t| >= 1
    ensures |Division(s, t, nb)| * |t| <= |s|
    ensures |Division(s, t, nb)| <= |s| / |t|
  {
    EmittedLength(Quots(s, t, nb), |t|);
    DivBound(|Division(s, t, nb)|, |t|, |s|);
  }

  lemma DivBound(a: nat, b: nat, c: nat)
    requires b >= 1 && a * b <= c
    ensures a <= c / b
  {
    var q, r := c / b, c % b;
    assert c == q * b + r && r < b;
    assert a * b < (q + 1) * b;
    LessTimes(a, q + 1, b);
  }

  lemma LessTimes(x: nat, y: nat, b: nat)
    requires b >= 1 && x * b < y * b
    ensures x < y
  {
    if y <= x {
      MulMono(y, x, b);
    }
  }

  lemma MulMono(x: nat, y: nat, b: nat)
    requires x <= y
    ensures x * b <= y * b
  {
  }

  // ---------------------------------------------------------------------
  // Soundness: quotient times divisor lies in the dividend
  // ---------------------------------------------------------------------

  /** The divisor index that the first pass used for cube k of s. */
  function DivisorOf(s: Cover, t: Cover, nb: nat, k: nat): nat
  {
    if k < |s| && Uniform(s, nb) && Uniform(t, nb) then FirstCover(s[k], t, 0) else 0
  }

  /** The positions from i on that hold v, in increasing order. */
  function Positions(qs: seq<Quot>, v: Cube, i: nat): (r: seq<nat>)
    requires i <= |qs|
    decreases |qs| - i
  {
    if i == |qs| then [] else (if qs[i] == T.Some(v) then [i] else []) + Positions(qs, v, i + 1)
  }

  /** The positions from i on that hold v are listed once each, and number Count(qs[i..], v). */
  lemma {:induction false} PositionsFacts(qs: seq<Quot>, v: Cube, i: nat)
    requires i <= |qs|
    ensures |Positions(qs, v, i)| == Count(qs[i..], v)
    ensures forall m :: 0 <= m < |Positions(qs, v, i)| ==>
              i <= Positions(qs, v, i)[m] < |qs| && qs[Positions(qs, v, i)[m]] == T.Some(v)
    ensures NoRepeat(Positions(qs, v, i))
    decreases |qs| - i
  {
    if i < |qs| {
      PositionsFacts(qs, v, i + 1);
      CountSuffix(qs, i, v);
      var p := Positions(qs, v, i + 1);
      if qs[i] == T.Some(v) {
        var r := [i] + p;
        assert Positions(qs, v, i) == r;
        forall a, b | 0 <= a < b < |r|
          ensures r[a] != r[b]
        {
          assert r[b] == p[b - 1];
          if a > 0 {
            assert r[a] == p[a - 1];
          }
        }
      }
    } else {
      assert qs[i..] == [];
    }
  }

  /** A list of naturals without repeats. */
  predicate NoRepeat(xs: seq<nat>)
  {
    forall a, b :: 0 <= a < b < |xs| ==> xs[a] != xs[b]
  }

  /** The members of a list of naturals. */
  function Members(xs: seq<nat>): (r: set<nat>)
  {
    if |xs| == 0 then {} else {xs[0]} + Members(xs[1..])
  }

  lemma {:induction false} MembersIn(xs: seq<nat>, x: nat)
    ensures x in Members(xs) <==> x in xs
  {
    if |xs| > 0 {
      MembersIn(xs[1..], x);
      assert x in xs <==> x == xs[0] || x in xs[1..];
    }
  }

  lemma {:induction false} NoRepeatSize(xs: seq<nat>)
    requires NoRepeat(xs)
    ensures |Members(xs)| == |xs|
  {
    if |xs| > 0 {
      var r := xs[1..];
      assert NoRepeat(r) by {
        forall a, b | 0 <= a < b < |r|
          ensures r[a] != r[b]
        {
          assert r[a] == xs[a + 1] && r[b] == xs[b + 1];
        }
      }
      NoRepeatSize(r);
      MembersIn(r, xs[0]);
      assert xs[0] !in r by {
        forall m | 0 <= m < |r|
          ensures r[m] != xs[0]
        {
          assert r[m] == xs[m + 1];
        }
      }
    }
  }

  /** The naturals below n. */
  function Range(n: nat): (r: set<nat>)
  {
    if n == 0 then {} else Range(n - 1) + {n - 1}
  }

  lemma {:induction false} RangeIn(n: nat, x: nat)
    ensures x in Range(n) <==> x < n
  {
    if n > 0 {
      RangeIn(n - 1, x);
    }
  }

  lemma {:induction false} RangeSize(n: nat)
    ensures |Range(n)| == n
  {
    if n > 0 {
      RangeSize(n - 1);
      RangeIn(n - 1, n - 1);
    }
  }

  /** A set of naturals below n with at least n members holds each of them. */
  lemma FullRange(a: set<nat>, n: nat, j: nat)
    requires forall x :: x in a ==> x < n
    requires |a| >= n && j < n
    ensures j in a
  {
    RangeSize(n);
    RangeIn(n, j);
    var b := Range(n) - {j};
    if j !in a {
      forall x | x in a
        ensures x in b
      {
        RangeIn(n, x);
      }
      SubsetSize(a, b);
    }
  }

  lemma SubsetSize(a: set<nat>, b: set<nat>)
    requires a <= b
    ensures |a| <= |b|
  {
    assert b == a + (b - a);
  }

  /** Every quotient has the dividend's size. */
  lemma {:induction false} EmittedUniform(s: Cover, t: Cover, nb: nat, i: nat)
    requires Uniform(s, nb) && Uniform(t, nb) && i <= |s|
    ensures Uniform(Emitted(Quots(s, t, nb), |t|, i), nb)
  {
    var qs := Quots(s, t, nb);
    forall k | 0 <= k < |qs| && qs[k].Some?
      ensures |qs[k].value| == nb
    {
      QuotsAt(s, t, nb, k);
      FirstQuotIff(s[k], t);
    }
    EmittedSized(qs, |t|, nb, i);
  }

  lemma QuotsAt(s: Cover, t: Cover, nb: nat, k: nat)
    requires Uniform(s, nb) && Uniform(t, nb) && k < |s|
    ensures Quots(s, t, nb)[k] == FirstQuot(s[k], t)
  {
  }

  /** Quotients of nb words are emitted as cubes of nb words. */
  lemma {:induction false} EmittedSized(qs: seq<Quot>, n: nat, nb: nat, i: nat)
    requires i <= |qs| && forall k :: 0 <= k < |qs| && qs[k].Some? ==> |qs[k].value| == nb
    ensures Uniform(Emitted(qs, n, i), nb)
  {
    if i > 0 {
      EmittedSized(qs, n, nb, i - 1);
    }
  }

  /** What the first pass knows about a position that holds q. */
  lemma HoldingQuot(s: Cover, t: Cover, nb: nat, k: nat, q: Cube)
    requires Uniform(s, nb) && Uniform(t, nb) && k < |s| && Quots(s, t, nb)[k] == T.Some(q)
    ensures DivisorOf(s, t, nb, k) < |t|
    ensures OrCube(q, t[DivisorOf(s, t, nb, k)]) == s[k] && !Intersects(q, t[DivisorOf(s, t, nb, k)])
  {
    var j := FirstCover(s[k], t, 0);
    assert FirstQuot(s[k], t) == T.Some(q);
    QuotTimesDivisor(s[k], t[j]);
    QuotApart(s[k], t[j]);
  }

  lemma WordQuotApart(a: Word, b: Word)
    ensures !WordMeets(QuotWord(a, b), b)
  {
  }

  /** A cube divided by y shares no literal with y. */
  lemma QuotApart(x: Cube, y: Cube)
    requires |x| == |y|
    ensures !Intersects(QuotCube(x, y), y)
  {
    forall i | 0 <= i < |x|
      ensures !WordMeets(QuotCube(x, y)[i], y[i])
    {
      WordQuotApart(x[i], y[i]);
    }
  }

  /** The divisor indexes the first pass used at the positions p. */
  function DivisorsAt(s: Cover, t: Cover, nb: nat, p: seq<nat>): (r: seq<nat>)
    ensures |r| == |p|
  {
    seq(|p|, m requires 0 <= m < |p| => DivisorOf(s, t, nb, p[m]))
  }

  /** Distinct positions holding the same quotient used distinct divisor cubes, each below |t|. */
  lemma DivisorsApart(s: Cover, t: Cover, nb: nat, q: Cube, p: seq<nat>)
    requires Uniform(s, nb) && Uniform(t, nb) && Distinct(s) && NoRepeat(p)
    requires forall m :: 0 <= m < |p| ==> p[m] < |s| && Quots(s, t, nb)[p[m]] == T.Some(q)
    ensures NoRepeat(DivisorsAt(s, t, nb, p))
    ensures forall m :: 0 <= m < |p| ==> DivisorsAt(s, t, nb, p)[m] < |t|
  {
    var js := DivisorsAt(s, t, nb, p);
    forall m | 0 <= m < |p|
      ensures js[m] < |t| && OrCube(q, t[js[m]]) == s[p[m]]
    {
      HoldingQuot(s, t, nb, p[m], q);
    }
    forall a, b | 0 <= a < b < |js|
      ensures js[a] != js[b]
    {
      assert p[a] != p[b];
      if p[a] < p[b] {
        assert s[p[a]] != s[p[b]];
      } else {
        assert s[p[b]] != s[p[a]];
      }
    }
  }

  /**
   * For a cover without repeated cubes every emitted quotient q times every
   * divisor cube is a cube of the dividend: the n positions holding q used
   * n different divisor cubes, which are then all of them.
   */
  lemma DivisionSound(s: Cover, t: Cover, nb: nat, q: Cube, j: nat)
    requires Uniform(s, nb) && Uniform(t, nb) && Distinct(s)
    requires q in Division(s, t, nb) && j < |t|
    ensures |q| == nb && OrCube(q, t[j]) in s && !Intersects(q, t[j])
  {
    var qs := Quots(s, t, nb);
    EmittedMembers(qs, |t|, q);
    assert qs[0..] == qs;
    PositionsFacts(qs, q, 0);
    var p := Positions(qs, q, 0);
    DivisorsApart(s, t, nb, q, p);
    var js := DivisorsAt(s, t, nb, p);
    NoRepeatSize(js);
    forall x | x in Members(js)
      ensures x < |t|
    {
      MembersIn(js, x);
    }
    FullRange(Members(js), |t|, j);
    MembersIn(js, j);
    var m :| 0 <= m < |js| && js[m] == j;
    HoldingQuot(s, t, nb, p[m], q);
  }

  /** Every product of the quotient with the divisor is a cube of the dividend. */
  lemma DivisionTimesDivisor(s: Cover, t: Cover, nb: nat, z: Cube)
    requires Uniform(s, nb) && Uniform(t, nb) && Distinct(s)
    requires z in CP.Products(Division(s, t, nb), t)
    ensures z in s
  {
    var e := Division(s, t, nb);
    CP.ProductsMembers(e, t, z);
    var i, j :| 0 <= i < |e| && 0 <= j < |t| && CP.Multiplies(e[i], t[j]) && z == OrCube(e[i], t[j]);
    DivisionSound(s, t, nb, e[i], j);
  }

  // ---------------------------------------------------------------------
  // Completeness: every quotient that divides is found
  // ---------------------------------------------------------------------

  /**
   * No cube of t contains a cube that comes before it. This is what the
   * first-success scan of pass one needs; it holds for any divisor whose
   * cubes do not contain one another, and also for sorted divisors such
   * as a b + a.
   */
  predicate NoLaterCovers(t: Cover, nb: nat)
    requires Uniform(t, nb)
  {
    forall j, k :: 0 <= j < k < |t| ==> !Covers(t[k], t[j])
  }

  /** q shares no literal with any cube of t, and q times each of them is a cube of s. */
  predicate DividesBy(s: Cover, t: Cover, nb: nat, q: Cube)
    requires Uniform(t, nb) && |q| == nb
  {
    forall j :: 0 <= j < |t| ==> !Intersects(q, t[j]) && OrCube(q, t[j]) in s
  }

  /** The position of the first occurrence of x in s. */
  function IndexIn(s: Cover, x: Cube): (i: nat)
    requires x in s
    ensures i < |s| && s[i] == x
  {
    if s[0] == x then 0 else 1 + IndexIn(s[1..], x)
  }

  lemma WordOrApart(a: Word, b: Word)
    requires !WordMeets(a, b)
    ensures WordCovers(OrWord(a, b), b) && QuotWord(OrWord(a, b), b) == a
  {
  }

  lemma WordCoversApart(a: Word, b: Word, c: Word)
    requires !WordMeets(a, c)
    ensures WordCovers(OrWord(a, b), c) ==> WordCovers(b, c)
  {
  }

  /** q times y, for q apart from y, contains y, and dividing it by y gives q back. */
  lemma TimesApart(q: Cube, y: Cube)
    requires |q| == |y| && !Intersects(q, y)
    ensures Covers(OrCube(q, y), y) && QuotCube(OrCube(q, y), y) == q
  {
    forall i | 0 <= i < |q|
      ensures WordCovers(OrCube(q, y)[i], y[i]) && QuotCube(OrCube(q, y), y)[i] == q[i]
    {
      assert !WordMeets(q[i], y[i]);
      WordOrApart(q[i], y[i]);
    }
  }

  /** A cube z apart from q that q times y contains is contained in y. */
  lemma CoversApart(q: Cube, y: Cube, z: Cube)
    requires |q| == |y| == |z| && !Intersects(q, z)
    ensures Covers(OrCube(q, y), z) ==> Covers(y, z)
  {
    if Covers(OrCube(q, y), z) {
      forall i | 0 <= i < |q|
        ensures WordCovers(y[i], z[i])
      {
        assert !WordMeets(q[i], z[i]) && WordCovers(OrCube(q, y)[i], z[i]);
        WordCoversApart(q[i], y[i], z[i]);
      }
    }
  }

  /**
   * For a q apart from every cube of t, the first pass divides q t[j] by
   * t[j] and records q: an earlier cube of t that q t[j] contained would
   * be contained in t[j].
   */
  lemma FirstDivisor(q: Cube, t: Cover, nb: nat, j: nat)
    requires Uniform(t, nb) && |q| == nb && NoLaterCovers(t, nb) && j < |t|
    requires forall k :: 0 <= k < |t| ==> !Intersects(q, t[k])
    ensures FirstQuot(OrCube(q, t[j]), t) == T.Some(q)
  {
    var x := OrCube(q, t[j]);
    TimesApart(q, t[j]);
    forall k | 0 <= k < j
      ensures !Covers(x, t[k])
    {
      CoversApart(q, t[j], t[k]);
    }
    assert FirstCover(x, t, 0) == j;
  }

  /** The products of q with two different cubes of t differ. */
  lemma ProductsApart(q: Cube, t: Cover, nb: nat, a: nat, b: nat)
    requires Uniform(t, nb) && |q| == nb && NoLaterCovers(t, nb) && a < b < |t|
    requires !Intersects(q, t[a]) && !Intersects(q, t[b])
    ensures OrCube(q, t[a]) != OrCube(q, t[b])
  {
    TimesApart(q, t[a]);
    CoversApart(q, t[b], t[a]);
  }

  /** Every position from i on that holds v is listed. */
  lemma {:induction false} PositionsHas(qs: seq<Quot>, v: Cube, i: nat, p: nat)
    requires i <= p < |qs| && qs[p] == T.Some(v)
    ensures p in Positions(qs, v, i)
    decreases p - i
  {
    if i < p {
      PositionsHas(qs, v, i + 1, p);
    }
  }

  /**
   * division finds every quotient: when no cube of t contains an earlier
   * one, a cube q apart
   * from every cube of t with q times each of them in s is in the
   * quotient, since each such product records q and they are n different
   * positions.
   */
  lemma DivisionComplete(s: Cover, t: Cover, nb: nat, q: Cube)
    requires Uniform(s, nb) && Uniform(t, nb) && |q| == nb && 1 <= |t|
    requires NoLaterCovers(t, nb) && DividesBy(s, t, nb, q)
    ensures q in Division(s, t, nb)
  {
    var qs := Quots(s, t, nb);
    var n := |t|;
    var pos := seq(n, j requires 0 <= j < n => IndexIn(s, OrCube(q, t[j])));
    PositionsFacts(qs, q, 0);
    var ps := Positions(qs, q, 0);
    forall m | 0 <= m < n
      ensures pos[m] in ps
    {
      QuotsAt(s, t, nb, pos[m]);
      FirstDivisor(q, t, nb, m);
      PositionsHas(qs, q, 0, pos[m]);
    }
    assert NoRepeat(pos) by {
      forall a, b | 0 <= a < b < n
        ensures pos[a] != pos[b]
      {
        ProductsApart(q, t, nb, a, b);
      }
    }
    NoRepeatSize(pos);
    NoRepeatSize(ps);
    forall x | x in Members(pos)
      ensures x in Members(ps)
    {
      MembersIn(pos, x);
      MembersIn(ps, x);
    }
    SubsetSize(Members(pos), Members(ps));
    assert qs[0..] == qs;
    EmittedMembers(qs, n, q);
  }

  /**
   * For a dividend without repeated cubes and a divisor in which no cube
   * contains an earlier one, the quotient is exactly the set of cubes that
   * divide: apart from every divisor cube, with every product in s.
   */
  lemma DivisionIff(s: Cover, t: Cover, nb: nat, q: Cube)
    requires Uniform(s, nb) && Uniform(t, nb) && |q| == nb && 1 <= |t| && Distinct(s) && NoLaterCovers(t, nb)
    ensures q in Division(s, t, nb) <==> DividesBy(s, t, nb, q)
  {
    if q in Division(s, t, nb) {
      forall j | 0 <= j < |t|
        ensures !Intersects(q, t[j]) && OrCube(q, t[j]) in s
      {
        DivisionSound(s, t, nb, q, j);
      }
    }
    if DividesBy(s, t, nb, q) {
      DivisionComplete(s, t, nb, q);
    }
  }

  // ---------------------------------------------------------------------
  // Pass one: the quotient of every cube into the work buffer
  // ---------------------------------------------------------------------

  /**
   * Positions 0 .. i - 1 are done: mark[k] says whether cube k has a
   * quotient, and cube k of the work buffer a then holds it; the marks from
   * i on are still clear.
   */
  ghost predicate Recorded(a: seq<Word>, nb: nat, mark: seq<bool>, qs: seq<Quot>, i: nat)
  {
    i <= |mark| == |qs| &&
    (forall k :: 0 <= k < i ==>
       mark[k] == qs[k].Some? && (mark[k] ==> Base(k, nb) + nb <= |a| && CubeAt(a, nb, k) == qs[k].value)) &&
    (forall k :: i <= k < |mark| ==> !mark[k])
  }

  /**
   * Divides cube i of buf1 by the cubes of buf2 in turn, into cube i of tmp,
   * until one division succeeds.
   */
  method QuotOne(nb: nat, tmp: array<Word>, i: nat, buf1: array<Word>, nc2: nat, buf2: array<Word>,
                 ghost x: Cube, ghost t: Cover) returns (ok: bool)
    requires Base(i, nb) + nb <= tmp.Length && Base(i, nb) + nb <= buf1.Length && Base(nc2, nb) <= buf2.Length
    requires tmp != buf1 && tmp != buf2
    requires x == CubeAt(buf1[..], nb, i) && t == Cubes(buf2[..], nb, 0, nc2) && Uniform(t, nb)
    modifies tmp
    ensures ok == FirstQuot(x, t).Some?
    ensures ok ==> CubeAt(tmp[..], nb, i) == FirstQuot(x, t).value
    ensures forall k :: 0 <= k < tmp.Length && !(Base(i, nb) <= k < Base(i, nb) + nb) ==> tmp[k] == old(tmp[k])
  {
    ok := false;
    var j := 0;
    while j < nc2
      invariant j <= nc2 && !ok
      invariant forall k :: 0 <= k < j ==> !Covers(x, t[k])
      invariant forall k :: 0 <= k < tmp.Length && !(Base(i, nb) <= k < Base(i, nb) + nb) ==> tmp[k] == old(tmp[k])
    {
      CubesAt(buf2[..], nb, 0, nc2, j);
      ghost var a := tmp[..];
      ok := CubeOps.CubeDivision(nb, tmp, i, buf1, i, buf2, j);
      if ok {
        assert FirstCover(x, t, 0) == j;
        CubeAtSplice(a, nb, i, i, QuotCube(x, t[j]));
        return;
      }
      j := j + 1;
    }
    assert FirstCover(x, t, 0) == |t|;
  }

  /** One position of pass one: the new marks and work buffer keep Recorded. */
  lemma RecordedNext(a: seq<Word>, b: seq<Word>, nb: nat, mark: seq<bool>, qs: seq<Quot>, i: nat, ok: bool)
    requires Recorded(a, nb, mark, qs, i) && i < |mark| && Base(i, nb) + nb <= |a| == |b|
    requires forall k :: 0 <= k < |b| && !(Base(i, nb) <= k < Base(i, nb) + nb) ==> b[k] == a[k]
    requires ok == qs[i].Some? && (ok ==> CubeAt(b, nb, i) == qs[i].value)
    ensures Recorded(b, nb, if ok then mark[i := true] else mark, qs, i + 1)
  {
    var m := if ok then mark[i := true] else mark;
    forall k | 0 <= k < i && mark[k]
      ensures CubeAt(b, nb, k) == CubeAt(a, nb, k)
    {
      CubeAtOutside(a, b, nb, i, k);
    }
    assert forall k :: 0 <= k < i ==> m[k] == mark[k];
  }

  /** Position i of pass one. */
  method QuotNext(nb: nat, tmp: array<Word>, nc1: nat, buf1: array<Word>, nc2: nat, buf2: array<Word>,
                  mark: seq<bool>, i: nat, ghost s: Cover, ghost t: Cover) returns (mark': seq<bool>)
    requires i < nc1 && Base(nc1, nb) <= tmp.Length && Base(nc1, nb) <= buf1.Length && Base(nc2, nb) <= buf2.Length
    requires tmp != buf1 && tmp != buf2
    requires s == Cubes(buf1[..], nb, 0, nc1) && t == Cubes(buf2[..], nb, 0, nc2)
    requires Uniform(s, nb) && Uniform(t, nb)
    requires Recorded(tmp[..], nb, mark, Quots(s, t, nb), i)
    modifies tmp
    ensures Recorded(tmp[..], nb, mark', Quots(s, t, nb), i + 1)
  {
    BaseMono(i + 1, nc1, nb);
    CubesAt(buf1[..], nb, 0, nc1, i);
    ghost var a := tmp[..];
    var ok := QuotOne(nb, tmp, i, buf1, nc2, buf2, s[i], t);
    mark' := mark;
    if ok {
      mark' := mark[i := true];
    }
    RecordedNext(a, tmp[..], nb, mark, Quots(s, t, nb), i, ok);
  }

  /** Pass one of division: the quotient of every cube of buf1 by buf2, into tmp. */
  method QuotPass(nb: nat, tmp: array<Word>, nc1: nat, buf1: array<Word>, nc2: nat, buf2: array<Word>,
                  ghost s: Cover, ghost t: Cover) returns (mark: seq<bool>)
    requires Base(nc1, nb) <= tmp.Length && Base(nc1, nb) <= buf1.Length && Base(nc2, nb) <= buf2.Length
    requires tmp != buf1 && tmp != buf2
    requires s == Cubes(buf1[..], nb, 0, nc1) && t == Cubes(buf2[..], nb, 0, nc2)
    requires Uniform(s, nb) && Uniform(t, nb)
    modifies tmp
    ensures Recorded(tmp[..], nb, mark, Quots(s, t, nb), nc1)
  {
    mark := seq(nc1, _ => false);
    for i := 0 to nc1
      invariant Recorded(tmp[..], nb, mark, Quots(s, t, nb), i)
    {
      mark := QuotNext(nb, tmp, nc1, buf1, nc2, buf2, mark, i, s, t);
    }
  }

  // ---------------------------------------------------------------------
  // Pass two: the positions that emit a quotient
  // ---------------------------------------------------------------------

  /**
   * Pass two has looked at positions 0 .. i - 1: a mark from i on is set
   * exactly when its position holds a quotient not emitted yet.
   */
  ghost predicate Pending(qs: seq<Quot>, n: nat, mark: seq<bool>, i: nat)
  {
    i <= |qs| == |mark| &&
    forall k :: i <= k < |qs| ==> mark[k] == (qs[k].Some? && qs[k].value !in Emitted(qs, n, i))
  }

  /** pos lists, in order, the position of every quotient emitted before i. */
  ghost predicate Listed(qs: seq<Quot>, n: nat, pos: seq<nat>, i: nat)
  {
    i <= |qs| && |pos| == |Emitted(qs, n, i)| &&
    forall m :: 0 <= m < |pos| ==> pos[m] < i && qs[pos[m]] == T.Some(Emitted(qs, n, i)[m])
  }

  /** A quotient emitted before i is not emitted again at i. */
  lemma NotEmittedAgain(qs: seq<Quot>, n: nat, i: nat)
    requires i < |qs| && qs[i].Some? && qs[i].value in Emitted(qs, n, i)
    ensures !EmitAt(qs, i, n)
  {
    var v := qs[i].value;
    EmittedIn(qs, n, i, v);
    var k :| 0 <= k < i && EmitAt(qs, k, n) && qs[k].value == v;
    CountSuffix(qs, k, v);
    CountSuffixMono(qs, k + 1, i, v);
  }

  /** An unmarked position emits nothing and leaves the marks as they are. */
  lemma SkipStep(qs: seq<Quot>, n: nat, mark: seq<bool>, i: nat)
    requires Pending(qs, n, mark, i) && i < |qs| && !mark[i]
    ensures Emitted(qs, n, i + 1) == Emitted(qs, n, i)
    ensures Pending(qs, n, mark, i + 1)
  {
    if qs[i].Some? {
      NotEmittedAgain(qs, n, i);
    }
  }

  /** A marked position held fewer or more than n times from there on emits nothing. */
  lemma KeepStep(qs: seq<Quot>, n: nat, mark: seq<bool>, i: nat)
    requires Pending(qs, n, mark, i) && i < |qs| && mark[i] && Count(qs[i..], qs[i].value) != n
    ensures Emitted(qs, n, i + 1) == Emitted(qs, n, i)
    ensures Pending(qs, n, mark, i + 1)
  {
  }

  /**
   * A marked position held exactly n times from there on emits its quotient,
   * whose later positions are unmarked.
   */
  lemma EmitStep(qs: seq<Quot>, n: nat, mark: seq<bool>, mark': seq<bool>, i: nat)
    requires Pending(qs, n, mark, i) && i < |qs| && mark[i] && Count(qs[i..], qs[i].value) == n
    requires |mark'| == |mark| && forall k :: i < k < |qs| ==> mark'[k] == (mark[k] && qs[k] != qs[i])
    ensures Emitted(qs, n, i + 1) == Emitted(qs, n, i) + [qs[i].value]
    ensures Pending(qs, n, mark', i + 1)
  {
    var e := Emitted(qs, n, i);
    var v := qs[i].value;
    forall k | i + 1 <= k < |qs|
      ensures mark'[k] == (qs[k].Some? && qs[k].value !in e + [v])
    {
      assert qs[k].Some? && qs[k].value == v ==> qs[k] == qs[i];
    }
  }

  lemma ListedKeep(qs: seq<Quot>, n: nat, pos: seq<nat>, i: nat)
    requires Listed(qs, n, pos, i) && i < |qs| && Emitted(qs, n, i + 1) == Emitted(qs, n, i)
    ensures Listed(qs, n, pos, i + 1)
  {
  }

  lemma ListedEmit(qs: seq<Quot>, n: nat, pos: seq<nat>, i: nat)
    requires Listed(qs, n, pos, i) && i < |qs| && qs[i].Some?
    requires Emitted(qs, n, i + 1) == Emitted(qs, n, i) + [qs[i].value]
    ensures Listed(qs, n, pos + [i], i + 1)
  {
  }

  /**
   * At a marked position i, pass one's work buffer holds the quotient of
   * i and of every marked later position, and every later position holding
   * the same quotient is marked.
   */
  lemma ScanReady(a: seq<Word>, nb: nat, mark0: seq<bool>, mark: seq<bool>, qs: seq<Quot>, n: nat, i: nat)
    requires Recorded(a, nb, mark0, qs, |qs|) && Pending(qs, n, mark, i) && i < |qs| && mark[i]
    ensures qs[i].Some? && Base(i, nb) + nb <= |a| && CubeAt(a, nb, i) == qs[i].value
    ensures forall k :: i < k < |qs| ==>
              (mark[k] ==> qs[k].Some? && Base(k, nb) + nb <= |a| && CubeAt(a, nb, k) == qs[k].value) &&
              (qs[k] == qs[i] ==> mark[k])
  {
  }

  /** The positions after i and before i2 that hold v, in order. */
  function Later(qs: seq<Quot>, v: Cube, i: nat, i2: nat): (r: seq<nat>)
    requires i2 <= |qs|
  {
    if i2 <= i + 1 then [] else Later(qs, v, i, i2 - 1) + if qs[i2 - 1] == T.Some(v) then [i2 - 1] else []
  }

  lemma {:induction false} LaterIn(qs: seq<Quot>, v: Cube, i: nat, i2: nat)
    requires i2 <= |qs|
    ensures forall k :: k in Later(qs, v, i, i2) <==> i < k < i2 && qs[k] == T.Some(v)
    ensures forall j :: 0 <= j < |Later(qs, v, i, i2)| ==> Later(qs, v, i, i2)[j] < i2
  {
    if i2 > i + 1 {
      LaterIn(qs, v, i, i2 - 1);
    }
  }

  /**
   * The scan from a marked position i: c counts the positions from i on
   * holding its quotient v, and tmpList lists the later ones.
   */
  method ScanSame(nb: nat, tmp: array<Word>, nc1: nat, mark: seq<bool>, i: nat, ghost qs: seq<Quot>, ghost v: Cube)
    returns (c: nat, tmpList: seq<nat>)
    requires i < nc1 == |mark| == |qs| && Base(nc1, nb) <= tmp.Length
    requires qs[i] == T.Some(v) && Base(i, nb) + nb <= tmp.Length && CubeAt(tmp[..], nb, i) == v
    requires forall k :: i < k < nc1 ==>
               (mark[k] ==> qs[k].Some? && Base(k, nb) + nb <= tmp.Length && CubeAt(tmp[..], nb, k) == qs[k].value) &&
               (qs[k] == T.Some(v) ==> mark[k])
    ensures c == Count(qs[i..], v)
    ensures tmpList == Later(qs, v, i, nc1)
  {
    c := 1;
    tmpList := [];
    CountSuffix(qs, i, v);
    for i2 := i + 1 to nc1
      invariant c + Count(qs[i2..], v) == Count(qs[i..], v)
      invariant tmpList == Later(qs, v, i, i2)
    {
      CountSuffix(qs, i2, v);
      c, tmpList := ScanStep(nb, tmp, mark, i, i2, c, tmpList, qs, v);
    }
    assert qs[nc1..] == [];
  }

  /** Position i2 of the scan from i. */
  method ScanStep(nb: nat, tmp: array<Word>, mark: seq<bool>, i: nat, i2: nat, c: nat, tmpList: seq<nat>,
                  ghost qs: seq<Quot>, ghost v: Cube) returns (c': nat, tmpList': seq<nat>)
    requires i < i2 < |mark| == |qs|
    requires Base(i, nb) + nb <= tmp.Length && CubeAt(tmp[..], nb, i) == v
    requires mark[i2] ==> qs[i2].Some? && Base(i2, nb) + nb <= tmp.Length && CubeAt(tmp[..], nb, i2) == qs[i2].value
    requires qs[i2] == T.Some(v) ==> mark[i2]
    ensures c' == c + (if qs[i2] == T.Some(v) then 1 else 0)
    ensures tmpList' == tmpList + (if qs[i2] == T.Some(v) then [i2] else [])
  {
    c', tmpList' := c, tmpList;
    if mark[i2] {
      var r := CubeBuffer.CubeCompareAt(nb, tmp, i, tmp, i2);
      CompareZeroIff(CubeAt(tmp[..], nb, i), CubeAt(tmp[..], nb, i2));
      if r == 0 {
        c' := c + 1;
        tmpList' := tmpList + [i2];
      }
    }
  }

  /** Clears the marks of the positions in list. */
  method Unmark(mark: seq<bool>, list: seq<nat>) returns (r: seq<bool>)
    requires forall j :: 0 <= j < |list| ==> list[j] < |mark|
    ensures |r| == |mark| && forall k :: 0 <= k < |mark| ==> r[k] == (mark[k] && k !in list)
  {
    r := mark;
    for j := 0 to |list|
      invariant |r| == |mark| && forall k :: 0 <= k < |mark| ==> r[k] == (mark[k] && k !in list[..j])
    {
      assert list[..j + 1] == list[..j] + [list[j]];
      r := r[list[j] := false];
    }
    assert list[..|list|] == list;
  }

  /** Position i of pass two. */
  method EmitNext(nb: nat, tmp: array<Word>, nc1: nat, n: nat, mark: seq<bool>, pos: seq<nat>, i: nat,
                  ghost qs: seq<Quot>, ghost mark0: seq<bool>) returns (mark': seq<bool>, pos': seq<nat>)
    requires i < nc1 == |qs| && Base(nc1, nb) <= tmp.Length && Recorded(tmp[..], nb, mark0, qs, nc1)
    requires Pending(qs, n, mark, i) && Listed(qs, n, pos, i)
    ensures Pending(qs, n, mark', i + 1) && Listed(qs, n, pos', i + 1)
  {
    mark', pos' := mark, pos;
    if !mark[i] {
      SkipStep(qs, n, mark, i);
      ListedKeep(qs, n, pos, i);
      return;
    }
    ghost var v := qs[i].value;
    ScanReady(tmp[..], nb, mark0, mark, qs, n, i);
    var c, tmpList := ScanSame(nb, tmp, nc1, mark, i, qs, v);
    LaterIn(qs, v, i, nc1);
    if c == n {
      pos' := pos + [i];
      mark' := Unmark(mark, tmpList);
      EmitStep(qs, n, mark, mark', i);
      ListedEmit(qs, n, pos, i);
    } else {
      KeepStep(qs, n, mark, i);
      ListedKeep(qs, n, pos, i);
    }
  }

  /** Pass two of division: the work buffer positions of the emitted quotients. */
  method EmitPass(nb: nat, tmp: array<Word>, nc1: nat, n: nat, mark0: seq<bool>, ghost qs: seq<Quot>)
    returns (pos: seq<nat>)
    requires nc1 == |qs| && Base(nc1, nb) <= tmp.Length && Recorded(tmp[..], nb, mark0, qs, nc1)
    ensures |pos| == |Emitted(qs, n, nc1)|
    ensures forall m :: 0 <= m < |pos| ==>
              Base(pos[m], nb) + nb <= tmp.Length && CubeAt(tmp[..], nb, pos[m]) == Emitted(qs, n, nc1)[m]
  {
    var mark := mark0;
    pos := [];
    for i := 0 to nc1
      invariant Pending(qs, n, mark, i) && Listed(qs, n, pos, i)
    {
      mark, pos := EmitNext(nb, tmp, nc1, n, mark, pos, i, qs, mark0);
    }
  }

  // ---------------------------------------------------------------------
  // Pass three and the whole of division
  // ---------------------------------------------------------------------

  /** Pass three: copies the cubes of tmp at pos to the front of dst, in order. */
  method CopyPass(nb: nat, dst: array<Word>, tmp: array<Word>, pos: seq<nat>, ghost e: Cover)
    requires dst != tmp && Base(|pos|, nb) <= dst.Length && |e| == |pos|
    requires forall m :: 0 <= m < |pos| ==> Base(pos[m], nb) + nb <= tmp.Length && CubeAt(tmp[..], nb, pos[m]) == e[m]
    modifies dst
    ensures Cubes(dst[..], nb, 0, |pos|) == e
  {
    for i := 0 to |pos|
      invariant Base(i, nb) <= dst.Length && Cubes(dst[..], nb, 0, i) == e[..i]
    {
      BaseMono(i + 1, |pos|, nb);
      CubeBuffer.CubeAppend(nb, dst, i, tmp, pos[i], e[..i]);
      assert e[..i + 1] == e[..i] + [e[i]];
    }
    assert e[..|pos|] == e;
  }

  /**
   * division(f, d) over buffers with the work buffer tmp: the quotient
   * cubes at the front of dst, which may be either operand.
   */
  method DivisionLoops(nb: nat, dst: array<Word>, tmp: array<Word>, nc1: nat, buf1: array<Word>, nc2: nat, buf2: array<Word>)
    returns (nc: nat)
    requires Base(nc1, nb) <= tmp.Length && Base(nc1, nb) <= buf1.Length && Base(nc2, nb) <= buf2.Length
    requires tmp != buf1 && tmp != buf2 && dst != tmp
    requires nc2 > 0 ==> Base(nc1 / nc2, nb) <= dst.Length
    modifies tmp, dst
    ensures Uniform(old(Cubes(buf1[..], nb, 0, nc1)), nb) && Uniform(old(Cubes(buf2[..], nb, 0, nc2)), nb)
    ensures Base(nc, nb) <= dst.Length
    ensures Cubes(dst[..], nb, 0, nc) == Division(old(Cubes(buf1[..], nb, 0, nc1)), old(Cubes(buf2[..], nb, 0, nc2)), nb)
  {
    ghost var s := Cubes(buf1[..], nb, 0, nc1);
    ghost var t := Cubes(buf2[..], nb, 0, nc2);
    CubesUniform(buf1[..], nb, 0, nc1);
    CubesUniform(buf2[..], nb, 0, nc2);
    ghost var qs := Quots(s, t, nb);
    var mark := QuotPass(nb, tmp, nc1, buf1, nc2, buf2, s, t);
    var pos := EmitPass(nb, tmp, nc1, nc2, mark, qs);
    ghost var e := Emitted(qs, nc2, nc1);
    assert e == Division(s, t, nb);
    if nc2 > 0 {
      DivisionLength(s, t, nb);
      BaseMono(|pos|, nc1 / nc2, nb);
    } else {
      assert t == [];
      DivisionByEmpty(s, nb);
    }
    CopyPass(nb, dst, tmp, pos, e);
    nc := |pos|;
  }

  // ---------------------------------------------------------------------
  // division(cover, lit)
  // ---------------------------------------------------------------------

  /** The test of division(lit): the literal's field holds exactly the literal. */
  predicate HoldsLit(x: Cube, l: L.AlgLiteral)
    requires Blk(l) < |x|
  {
    AndWord(x[Blk(l)], CP.FieldMask(l)) == LitWord(l)
  }

  /** The quotient division(lit) writes: the literal's field cleared (&= nmask). */
  function DropLit(x: Cube, l: L.AlgLiteral): (r: Cube)
    requires Blk(l) < |x|
    ensures |r| == |x|
  {
    x[Blk(l) := QuotWord(x[Blk(l)], CP.FieldMask(l))]
  }

  /** division(cover, lit): each cube holding the literal, in order, with the literal removed. */
  function LitQuotients(s: Cover, nb: nat, l: L.AlgLiteral): (r: Cover)
    requires Uniform(s, nb) && Blk(l) < nb
    ensures |r| <= |s|
  {
    if |s| == 0 then []
    else
      var r0 := LitQuotients(s[..|s| - 1], nb, l);
      var x := s[|s| - 1];
      if HoldsLit(x, l) then r0 + [DropLit(x, l)] else r0
  }

  /** division(lit) keeps every cube that holds the literal, with the literal removed. */
  lemma {:induction false} LitQuotientsComplete(s: Cover, nb: nat, l: L.AlgLiteral, x: Cube)
    requires Uniform(s, nb) && Blk(l) < nb && x in s && HoldsLit(x, l)
    ensures DropLit(x, l) in LitQuotients(s, nb, l)
  {
    var i := |s| - 1;
    if s[i] != x {
      assert x in s[..i] by {
        var k :| 0 <= k < |s| && s[k] == x;
        assert s[..i][k] == x;
      }
      LitQuotientsComplete(s[..i], nb, l, x);
    }
  }

  lemma LitQuotientsSnoc(s: Cover, nb: nat, l: L.AlgLiteral, x: Cube)
    requires Uniform(s, nb) && Blk(l) < nb && |x| == nb
    ensures Uniform(s + [x], nb)
    ensures LitQuotients(s + [x], nb, l) == LitQuotients(s, nb, l) + if HoldsLit(x, l) then [DropLit(x, l)] else []
  {
    assert (s + [x])[..|s|] == s;
  }

  /** The mask of a literal's field is three in that field. */
  lemma FieldMaskIs(l: L.AlgLiteral)
    ensures CP.FieldMask(l) == 3 << (2 * Idx(l))
  {
  }

  /** A polarity code lies inside the mask of its field. */
  lemma CodeInMask(c: Word, k: bv7)
    requires (c == 1 || c == 2) && k < 32
    ensures (c << (2 * k)) & (3 << (2 * k)) == c << (2 * k)
  {
  }

  /** The literal's pattern lies inside its field's mask. */
  lemma LitInField(l: L.AlgLiteral)
    ensures AndWord(LitWord(l), CP.FieldMask(l)) == LitWord(l)
  {
    FieldMaskIs(l);
    CodeInMask(Code(l), Idx(l));
  }

  lemma CoversPatternIf(w: Word, m: Word)
    ensures WordCovers(w, OrWord(0, m)) ==> MaskIn(w, m)
  {
  }

  lemma CoversPatternOnlyIf(w: Word, m: Word)
    ensures MaskIn(w, m) ==> WordCovers(w, OrWord(0, m))
  {
  }

  /** A field other than 11 that holds a code's bit holds exactly the code. */
  lemma CodeInField(f: Word, c: Word)
    requires f <= 3 && f != 3 && (c == 1 || c == 2)
    ensures f & c == c <==> f == c
  {
  }

  /** division(lit)'s test reads the literal's code in its field. */
  lemma HoldsLitField(w: Word, l: L.AlgLiteral)
    ensures AndWord(w, CP.FieldMask(l)) == LitWord(l) <==> Field(w, Idx(l)) == Code(l)
  {
    FieldMaskIs(l);
    ExactField(w, Code(l), Idx(l));
  }

  /** On a conflict-free word, division(lit)'s test is containment of the literal's pattern. */
  lemma HoldsLitWord(w: Word, l: L.AlgLiteral)
    requires NoConflict(w)
    ensures AndWord(w, CP.FieldMask(l)) == LitWord(l) <==> WordCovers(w, OrWord(0, LitWord(l)))
  {
    CoversPatternIf(w, LitWord(l));
    CoversPatternOnlyIf(w, LitWord(l));
    HasBitField(w, l);
    HoldsLitField(w, l);
    CodeInField(Field(w, Idx(l)), Code(l));
  }

  lemma ClearHeldBits(w: Word, m: Word, p: Word)
    requires w & m == p && p & m == p
    ensures w & !p == w & !m
  {
  }

  /** Clearing the field that holds exactly p is clearing p ... */
  lemma ClearHeld(w: Word, m: Word, p: Word)
    requires AndWord(w, m) == p && AndWord(p, m) == p
    ensures QuotWord(w, OrWord(0, p)) == QuotWord(w, m)
  {
    ClearHeldBits(w, m, p);
    assert OrWord(0, p) == p;
  }

  /** ... and setting p again restores the word. */
  lemma RestoreHeld(w: Word, m: Word, p: Word)
    requires AndWord(w, m) == p && AndWord(p, m) == p
    ensures OrWord(QuotWord(w, m), p) == w
  {
  }

  lemma QuotZero(w: Word)
    ensures QuotWord(w, 0) == w
  {
  }

  /** On a well-formed cube, division(lit)'s test is containment of the literal's cube. */
  lemma HoldsLitCovers(x: Cube, nb: nat, l: L.AlgLiteral)
    requires |x| == nb && Blk(l) < nb && WellFormed(x)
    ensures Covers(x, CP.LitCube(nb, l)) <==> HoldsLit(x, l)
  {
    var y, j := CP.LitCube(nb, l), Blk(l);
    forall i | 0 <= i < nb && i != j
      ensures WordCovers(x[i], y[i])
    {
      assert y[i] == 0;
    }
    HoldsLitWord(x[j], l);
  }

  /** For a cube holding the literal, the cube quotient by the literal's cube is DropLit. */
  lemma DropLitIsQuot(x: Cube, nb: nat, l: L.AlgLiteral)
    requires |x| == nb && Blk(l) < nb && HoldsLit(x, l)
    ensures QuotCube(x, CP.LitCube(nb, l)) == DropLit(x, l)
  {
    var y, j := CP.LitCube(nb, l), Blk(l);
    forall i | 0 <= i < nb
      ensures QuotCube(x, y)[i] == DropLit(x, l)[i]
    {
      if i == j {
        LitInField(l);
        ClearHeld(x[j], CP.FieldMask(l), LitWord(l));
      } else {
        assert y[i] == 0;
        QuotZero(x[i]);
      }
    }
  }

  /** DropLit forgets nothing of a cube holding the literal. */
  lemma DropLitInjective(x: Cube, y: Cube, l: L.AlgLiteral)
    requires |x| == |y| && Blk(l) < |x| && HoldsLit(x, l) && HoldsLit(y, l)
    requires DropLit(x, l) == DropLit(y, l)
    ensures x == y
  {
    var j := Blk(l);
    LitInField(l);
    RestoreHeld(x[j], CP.FieldMask(l), LitWord(l));
    RestoreHeld(y[j], CP.FieldMask(l), LitWord(l));
    assert DropLit(x, l)[j] == DropLit(y, l)[j];
    forall i | 0 <= i < |x|
      ensures x[i] == y[i]
    {
      if i != j {
        assert DropLit(x, l)[i] == DropLit(y, l)[i];
      }
    }
  }

  /** The quotient of a well-formed cube by the literal's cube is DropLit when it holds the literal. */
  lemma LitQuot(x: Cube, nb: nat, l: L.AlgLiteral)
    requires |x| == nb && Blk(l) < nb && WellFormed(x)
    ensures FirstQuot(x, [CP.LitCube(nb, l)]) == if HoldsLit(x, l) then T.Some(DropLit(x, l)) else T.None
  {
    HoldsLitCovers(x, nb, l);
    if HoldsLit(x, l) {
      DropLitIsQuot(x, nb, l);
    }
  }

  /** No position from j on holds v. */
  lemma {:induction false} CountAbsent(qs: seq<Quot>, v: Cube, j: nat)
    requires j <= |qs| && forall k :: j <= k < |qs| ==> qs[k] != T.Some(v)
    ensures Count(qs[j..], v) == 0
    decreases |qs| - j
  {
    if j < |qs| {
      CountSuffix(qs, j, v);
      CountAbsent(qs, v, j + 1);
    } else {
      assert qs[j..] == [];
    }
  }

  /**
   * Dividing by the cube of a literal, a position emits exactly when its
   * cube holds the literal: distinct cubes give distinct quotients.
   */
  lemma SingleEmits(s: Cover, nb: nat, l: L.AlgLiteral, i: nat)
    requires Uniform(s, nb) && Blk(l) < nb && Distinct(s) && forall k :: 0 <= k < |s| ==> WellFormed(s[k])
    requires i < |s|
    ensures EmitAt(Quots(s, [CP.LitCube(nb, l)], nb), i, 1) <==> HoldsLit(s[i], l)
    ensures HoldsLit(s[i], l) ==> Quots(s, [CP.LitCube(nb, l)], nb)[i] == T.Some(DropLit(s[i], l))
  {
    var qs := Quots(s, [CP.LitCube(nb, l)], nb);
    LitQuot(s[i], nb, l);
    if HoldsLit(s[i], l) {
      var v := DropLit(s[i], l);
      forall k | i + 1 <= k < |qs|
        ensures qs[k] != T.Some(v)
      {
        LitQuot(s[k], nb, l);
        if HoldsLit(s[k], l) && DropLit(s[k], l) == v {
          DropLitInjective(s[k], s[i], l);
        }
      }
      CountSuffix(qs, i, v);
      CountAbsent(qs, v, i + 1);
    }
  }

  /** The prefix form of LitQuotientsIsDivision. */
  lemma {:induction false} LitQuotientsEmitted(s: Cover, nb: nat, l: L.AlgLiteral, i: nat)
    requires Uniform(s, nb) && Blk(l) < nb && Distinct(s) && forall k :: 0 <= k < |s| ==> WellFormed(s[k])
    requires i <= |s|
    ensures LitQuotients(s[..i], nb, l) == Emitted(Quots(s, [CP.LitCube(nb, l)], nb), 1, i)
  {
    if i == 0 {
      assert s[..0] == [];
    } else {
      var qs := Quots(s, [CP.LitCube(nb, l)], nb);
      LitQuotientsEmitted(s, nb, l, i - 1);
      SingleEmits(s, nb, l, i - 1);
      LitQuotientsPrefix(s, nb, l, i);
      EmittedNext(qs, 1, i);
      UniformPrefix(s, nb, i - 1);
      var v := if qs[i - 1].Some? then qs[i - 1].value else [];
      SnocAgree(LitQuotients(s[..i - 1], nb, l), Emitted(qs, 1, i - 1), HoldsLit(s[i - 1], l), EmitAt(qs, i - 1, 1),
                DropLit(s[i - 1], l), v);
    }
  }

  lemma UniformPrefix(s: Cover, nb: nat, i: nat)
    requires Uniform(s, nb) && i <= |s|
    ensures Uniform(s[..i], nb)
  {
  }

  lemma SnocAgree(a: Cover, e: Cover, b1: bool, b2: bool, v1: Cube, v2: Cube)
    requires a == e && b1 == b2 && (b1 ==> v1 == v2)
    ensures a + (if b1 then [v1] else []) == e + (if b2 then [v2] else [])
  {
  }

  lemma EmittedNext(qs: seq<Quot>, n: nat, i: nat)
    requires 0 < i <= |qs|
    ensures Emitted(qs, n, i) == Emitted(qs, n, i - 1) + if EmitAt(qs, i - 1, n) then [qs[i - 1].value] else []
  {
  }

  lemma LitQuotientsPrefix(s: Cover, nb: nat, l: L.AlgLiteral, i: nat)
    requires Uniform(s, nb) && Blk(l) < nb && 0 < i <= |s|
    ensures LitQuotients(s[..i], nb, l) ==
            LitQuotients(s[..i - 1], nb, l) + if HoldsLit(s[i - 1], l) then [DropLit(s[i - 1], l)] else []
  {
    assert s[..i] == s[..i - 1] + [s[i - 1]];
    LitQuotientsSnoc(s[..i - 1], nb, l, s[i - 1]);
  }

  /**
   * On a cover of distinct well-formed cubes, division(lit) is the general
   * division by the one-cube cover of the literal.
   */
  lemma LitQuotientsIsDivision(s: Cover, nb: nat, l: L.AlgLiteral)
    requires Uniform(s, nb) && Blk(l) < nb && Distinct(s) && forall k :: 0 <= k < |s| ==> WellFormed(s[k])
    ensures LitQuotients(s, nb, l) == Division(s, [CP.LitCube(nb, l)], nb)
  {
    LitQuotientsEmitted(s, nb, l, |s|);
    assert s[..|s|] == s;
  }

  /** The copy of division(lit): cube r of src into cube w, then the literal's field cleared there. */
  method DropCube(nb: nat, dst: array<Word>, w: nat, src: array<Word>, r: nat, lit: L.AlgLiteral, ghost x: Cube)
    requires Blk(lit) < nb && Base(w, nb) + nb <= dst.Length && Base(r, nb) + nb <= src.Length
    requires x == CubeAt(src[..], nb, r)
    modifies dst
    ensures dst[..] == Splice(old(dst[..]), Base(w, nb), DropLit(x, lit))
  {
    ghost var d0 := dst[..];
    CubeBuffer.CubeCopy(nb, dst, w, src, r);
    var p := Base(w, nb) + BlockPos(L.VarId(lit));
    assert dst[..][p] == x[Blk(lit)];
    dst[p] := QuotWord(dst[p], CP.FieldMask(lit));
    SpliceUpdate(d0, Base(w, nb), x, Blk(lit), QuotWord(x[Blk(lit)], CP.FieldMask(lit)));
  }

  /**
   * Cube r of buf1, whose words from cube r on are still those of the
   * snapshot a, is appended as cube w with the literal removed.
   */
  method KeepDropped(nb: nat, dst: array<Word>, w: nat, buf1: array<Word>, r: nat, lit: L.AlgLiteral,
                     ghost a: seq<Word>, ghost done: Cover)
    requires Blk(lit) < nb && Base(w + 1, nb) <= dst.Length && Base(r + 1, nb) <= |a| && |a| == buf1.Length
    requires dst == buf1 ==> w <= r
    requires forall k :: Base(r, nb) <= k < |a| ==> buf1[k] == a[k]
    requires Cubes(dst[..], nb, 0, w) == done
    modifies dst
    ensures forall k :: Base(r + 1, nb) <= k < |a| ==> buf1[k] == a[k]
    ensures Cubes(dst[..], nb, 0, w + 1) == done + [DropLit(CubeAt(a, nb, r), lit)]
  {
    ghost var x := CubeAt(a, nb, r);
    CubeAtAgree(buf1[..], a, nb, r);
    ghost var d0 := dst[..];
    ghost var q := DropLit(x, lit);
    DropCube(nb, dst, w, buf1, r, lit, x);
    CubesAppend(d0, nb, w, q);
    if dst == buf1 {
      BaseMono(w + 1, r + 1, nb);
      SpliceAbove(d0, Base(w, nb), q, Base(r + 1, nb));
    }
  }

  /** One pass of division(lit): cube r is kept, without the literal, when it holds the literal. */
  method DivLitStep(nb: nat, dst: array<Word>, w: nat, buf1: array<Word>, r: nat, lit: L.AlgLiteral,
                    ghost a: seq<Word>, ghost done: Cover)
    returns (w': nat)
    requires Blk(lit) < nb && Base(w + 1, nb) <= dst.Length && Base(r + 1, nb) <= |a| && |a| == buf1.Length
    requires dst == buf1 ==> w <= r
    requires forall k :: Base(r, nb) <= k < |a| ==> buf1[k] == a[k]
    requires Cubes(dst[..], nb, 0, w) == done
    modifies dst
    ensures forall k :: Base(r + 1, nb) <= k < |a| ==> buf1[k] == a[k]
    ensures Base(w', nb) <= dst.Length
    ensures Cubes(dst[..], nb, 0, w') == done + if HoldsLit(CubeAt(a, nb, r), lit) then [DropLit(CubeAt(a, nb, r), lit)] else []
  {
    var rb, blk := Base(r, nb), BlockPos(L.VarId(lit));
    CubeAtIndex(a, nb, r, blk);
    if AndWord(buf1[rb + blk], CP.FieldMask(lit)) != LitWord(lit) {
      return w;
    }
    KeepDropped(nb, dst, w, buf1, r, lit, a, done);
    w' := w + 1;
  }

  /** One pass of the loop of division(cover, lit), on the loop's own terms. */
  method DivLitNext(nb: nat, dst: array<Word>, w: nat, nc1: nat, buf1: array<Word>, r: nat, lit: L.AlgLiteral,
                    ghost a: seq<Word>)
    returns (w': nat)
    requires Blk(lit) < nb && Base(nc1, nb) <= |a| == buf1.Length && Base(nc1, nb) <= dst.Length
    requires w <= r < nc1 && Base(w, nb) <= dst.Length && Base(r, nb) <= |a|
    requires forall k :: Base(r, nb) <= k < |a| ==> buf1[k] == a[k]
    requires Uniform(Cubes(a, nb, 0, r), nb)
    requires Cubes(dst[..], nb, 0, w) == LitQuotients(Cubes(a, nb, 0, r), nb, lit)
    modifies dst
    ensures w' <= r + 1 && Base(w', nb) <= dst.Length && Base(r + 1, nb) <= |a|
    ensures forall k :: Base(r + 1, nb) <= k < |a| ==> buf1[k] == a[k]
    ensures Uniform(Cubes(a, nb, 0, r + 1), nb)
    ensures Cubes(dst[..], nb, 0, w') == LitQuotients(Cubes(a, nb, 0, r + 1), nb, lit)
  {
    BaseMono(r + 1, nc1, nb);
    BaseMono(w + 1, nc1, nb);
    CubesExtend(a, nb, 0, r);
    LitQuotientsSnoc(Cubes(a, nb, 0, r), nb, lit, CubeAt(a, nb, r));
    w' := DivLitStep(nb, dst, w, buf1, r, lit, a, Cubes(dst[..], nb, 0, w));
  }

  /**
   * division(cover, lit): the cubes of buf1 holding the literal, with it
   * removed, at the front of dst. The destination may be the operand
   * itself (the /= operator): the write cursor never passes the read
   * cursor.
   */
  method DivisionLit(nb: nat, dst: array<Word>, nc1: nat, buf1: array<Word>, lit: L.AlgLiteral) returns (w: nat)
    requires Blk(lit) < nb && Base(nc1, nb) <= buf1.Length && Base(nc1, nb) <= dst.Length
    modifies dst
    ensures Uniform(old(Cubes(buf1[..], nb, 0, nc1)), nb)
    ensures w <= nc1 && Base(w, nb) <= dst.Length
    ensures Cubes(dst[..], nb, 0, w) == LitQuotients(old(Cubes(buf1[..], nb, 0, nc1)), nb, lit)
  {
    ghost var a := buf1[..];
    CubesUniform(a, nb, 0, nc1);
    w := 0;
    assert Cubes(dst[..], nb, 0, 0) == [] && Cubes(a, nb, 0, 0) == [];
    for r := 0 to nc1
      invariant w <= r && Base(w, nb) <= dst.Length && Base(r, nb) <= |a|
      invariant forall k :: Base(r, nb) <= k < |a| ==> buf1[k] == a[k]
      invariant Uniform(Cubes(a, nb, 0, r), nb)
      invariant Cubes(dst[..], nb, 0, w) == LitQuotients(Cubes(a, nb, 0, r), nb, lit)
    {
      w := DivLitNext(nb, dst, w, nc1, buf1, r, lit, a);
    }
  }

  // ---------------------------------------------------------------------
  // The division examples of the cover tests (one word per cube; a, b, c
  // are variables 0, 1, 2, so a = P at field 31, and so on)
  // ---------------------------------------------------------------------

  const CubeAB: Cube := [0xA000_0000_0000_0000]
  const CubeAC: Cube := [0x8800_0000_0000_0000]
  const CubeBC: Cube := [0x2800_0000_0000_0000]
  const CubeA: Cube := [0x8000_0000_0000_0000]
  const CubeB: Cube := [0x2000_0000_0000_0000]
  const CubeC: Cube := [0x0800_0000_0000_0000]
  const CubeNotC: Cube := [0x0400_0000_0000_0000]

  /**
   * The sorted divisor a b + a: a b contains a, so its cubes contain one
   * another, yet a does not contain the earlier a b, so DivisionComplete
   * and DivisionIff apply to it.
   */
  lemma SortedDivisorAdmitted()
    ensures Desc([CubeAB, CubeA]) && Covers(CubeAB, CubeA)
    ensures NoLaterCovers([CubeAB, CubeA], 1)
  {
    var t := [CubeAB, CubeA];
    assert CubeCompare(CubeAB, CubeA) == WordOrder(CubeAB[0], CubeA[0]);
    assert !Covers(t[1], t[0]);
  }

  /** Containment and quotient of one-word cubes are those of their words. */
  lemma OneWord(x: Cube, y: Cube)
    requires |x| == 1 && |y| == 1
    ensures Covers(x, y) <==> WordCovers(x[0], y[0])
    ensures QuotCube(x, y) == [QuotWord(x[0], y[0])]
  {
  }

  /** The quotient of a one-word cube by a one-word divisor of two cubes. */
  lemma FirstQuotTwo(x: Cube, y: Cube, z: Cube)
    requires |x| == 1 && |y| == 1 && |z| == 1
    ensures FirstQuot(x, [y, z]) == if WordCovers(x[0], y[0]) then T.Some([QuotWord(x[0], y[0])])
                                    else if WordCovers(x[0], z[0]) then T.Some([QuotWord(x[0], z[0])])
                                    else T.None
  {
    OneWord(x, y);
    OneWord(x, z);
    var t := [y, z];
    assert FirstCover(x, t, 2) == 2;
    assert FirstCover(x, t, 1) == if Covers(x, z) then 1 else 2;
  }

  /** The emitted quotients of three positions, position by position. */
  lemma EmittedThree(qs: seq<Quot>, n: nat)
    requires |qs| == 3
    ensures Emitted(qs, n, 3) == (if EmitAt(qs, 0, n) then [qs[0].value] else [])
                                 + (if EmitAt(qs, 1, n) then [qs[1].value] else [])
                                 + (if EmitAt(qs, 2, n) then [qs[2].value] else [])
  {
    assert Emitted(qs, n, 1) == [] + (if EmitAt(qs, 0, n) then [qs[0].value] else []);
    assert Emitted(qs, n, 2) == Emitted(qs, n, 1) + (if EmitAt(qs, 1, n) then [qs[1].value] else []);
    assert Emitted(qs, n, 3) == Emitted(qs, n, 2) + (if EmitAt(qs, 2, n) then [qs[2].value] else []);
  }

  /** The counts of three quotients from each position on. */
  lemma CountThree(qs: seq<Quot>, v: Cube)
    requires |qs| == 3
    ensures Count(qs[2..], v) == (if qs[2] == T.Some(v) then 1 else 0)
    ensures Count(qs[1..], v) == (if qs[1] == T.Some(v) then 1 else 0) + Count(qs[2..], v)
    ensures Count(qs[0..], v) == (if qs[0] == T.Some(v) then 1 else 0) + Count(qs[1..], v)
  {
    CountSuffix(qs, 0, v);
    CountSuffix(qs, 1, v);
    CountSuffix(qs, 2, v);
    assert qs[3..] == [];
  }

  /** (a b + a c + b c) / (b + c) = a. */
  lemma DivisionExample1()
    ensures Division([CubeAB, CubeAC, CubeBC], [CubeB, CubeC], 1) == [CubeA]
  {
    var s, t := [CubeAB, CubeAC, CubeBC], [CubeB, CubeC];
    var qs := Quots(s, t, 1);
    QuotsAt(s, t, 1, 0);
    QuotsAt(s, t, 1, 1);
    QuotsAt(s, t, 1, 2);
    FirstQuotTwo(CubeAB, CubeB, CubeC);
    FirstQuotTwo(CubeAC, CubeB, CubeC);
    FirstQuotTwo(CubeBC, CubeB, CubeC);
    assert qs == [T.Some(CubeA), T.Some(CubeA), T.Some(CubeC)];
    CountThree(qs, CubeA);
    CountThree(qs, CubeC);
    EmittedThree(qs, 2);
  }

  /** (a b + a c + b c) / (b + c') is empty. */
  lemma DivisionExample2()
    ensures Division([CubeAB, CubeAC, CubeBC], [CubeB, CubeNotC], 1) == []
  {
    var s, t := [CubeAB, CubeAC, CubeBC], [CubeB, CubeNotC];
    var qs := Quots(s, t, 1);
    QuotsAt(s, t, 1, 0);
    QuotsAt(s, t, 1, 1);
    QuotsAt(s, t, 1, 2);
    FirstQuotTwo(CubeAB, CubeB, CubeNotC);
    FirstQuotTwo(CubeAC, CubeB, CubeNotC);
    FirstQuotTwo(CubeBC, CubeB, CubeNotC);
    assert qs == [T.Some(CubeA), T.None, T.Some(CubeC)];
    CountThree(qs, CubeA);
    CountThree(qs, CubeC);
    EmittedThree(qs, 2);
  }

  /** (a b + a c + b c) / (a b + b c) is the cover of the one empty cube. */
  lemma DivisionExample3()
    ensures Division([CubeAB, CubeAC, CubeBC], [CubeAB, CubeBC], 1) == [[0]]
  {
    var s, t := [CubeAB, CubeAC, CubeBC], [CubeAB, CubeBC];
    var qs := Quots(s, t, 1);
    QuotsAt(s, t, 1, 0);
    QuotsAt(s, t, 1, 1);
    QuotsAt(s, t, 1, 2);
    FirstQuotTwo(CubeAB, CubeAB, CubeBC);
    FirstQuotTwo(CubeAC, CubeAB, CubeBC);
    FirstQuotTwo(CubeBC, CubeAB, CubeBC);
    assert qs == [T.Some([0]), T.None, T.Some([0])];
    CountThree(qs, [0]);
    EmittedThree(qs, 2);
  }
}
