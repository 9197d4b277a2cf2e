/**
 * The literal-count table generator (utils/gen_table.py).
 *
 * An 8-bit pattern is read as four 2-bit fields, field i being bits 2i and
 * 2i+1. A field 01 or 10 is a literal, 00 is an absent variable and 11 is a
 * conflict. `count` tells how many literals a pattern holds (0 as soon as one
 * field is a conflict); `gen_table` renders the 256 values as sixteen lines
 * of C array initialiser.
 */
module GenTable {

  /** 4^i, so that p >> 2i is p / Pow4(i) on non-negative integers. */
  function Pow4(i: nat): (r: nat)
    ensures r >= 1
  {
    if i == 0 then 1 else 4 * Pow4(i - 1)
  }

  /** Field i of the pattern p: (p >> (i * 2)) & 3. */
  function Field(p: nat, i: nat): nat
  {
    (p / Pow4(i)) % 4
  }

  /** A field that holds a literal (01 or 10). */
  predicate IsLiteralField(f: nat)
  {
    f == 1 || f == 2
  }

  /** The number of literal fields among fields 0 .. k-1 of p. */
  function LiteralFields(p: nat, k: nat): (r: nat)
    requires k <= 4
    ensures r <= k
  {
    if k == 0 then 0
    else LiteralFields(p, k - 1) + (if IsLiteralField(Field(p, k - 1)) then 1 else 0)
  }

  /** Some field among fields 0 .. k-1 of p is the conflict 11. */
  predicate ConflictBelow(p: nat, k: nat)
    requires k <= 4
  {
    k > 0 && (ConflictBelow(p, k - 1) || Field(p, k - 1) == 3)
  }

  lemma {:induction false} ConflictBelowExists(p: nat, k: nat)
    requires k <= 4
    ensures ConflictBelow(p, k) <==> exists i :: 0 <= i < k && Field(p, i) == 3
  {
    if k > 0 {
      ConflictBelowExists(p, k - 1);
    }
  }

  lemma {:induction false} ConflictMonotone(p: nat, k: nat, k': nat)
    requires k <= k' <= 4 && ConflictBelow(p, k)
    ensures ConflictBelow(p, k')
    decreases k' - k
  {
    if k < k' {
      ConflictMonotone(p, k, k' - 1);
    }
  }

  /** The value count(p) is meant to compute, stated field by field. */
  function Classify(p: nat): (r: nat)
    ensures r <= 4
  {
    if ConflictBelow(p, 4) then 0 else LiteralFields(p, 4)
  }

  /** A conflict field anywhere forces 0, whatever the other fields hold. */
  lemma ConflictGivesZero(p: nat, i: nat)
    requires i < 4 && Field(p, i) == 3
    ensures Classify(p) == 0
  {
    ConflictBelowExists(p, 4);
  }

  /** Without a conflict field, count(p) is the number of literal fields. */
  lemma NoConflictCountsLiterals(p: nat)
    requires forall i :: 0 <= i < 4 ==> Field(p, i) != 3
    ensures Classify(p) == LiteralFields(p, 4)
  {
    ConflictBelowExists(p, 4);
  }

  /**
   * count(pat): add one per literal field, return 0 on the first conflict
   * field. Fields before a conflict have already been added to ans, and
   * fields after it are never looked at; either way the answer is 0.
   */
  method Count(pat: nat) returns (ans: nat)
    ensures ans == Classify(pat)
  {
    ans := 0;
    for i := 0 to 4
      invariant ans == LiteralFields(pat, i)
      invariant !ConflictBelow(pat, i)
    {
      var pat1 := (pat / Pow4(i)) % 4;
      if pat1 == 1 || pat1 == 2 {
        ans := ans + 1;
      } else if pat1 == 3 {
        assert ConflictBelow(pat, i + 1);
        ConflictMonotone(pat, i + 1, 4);
        return 0;
      }
    }
  }

  // ---------------------------------------------------------------------
  // Formatting
  // ---------------------------------------------------------------------

  /** The decimal digit of d. */
  function DigitChar(d: nat): char
    requires d < 10
  {
    "0123456789"[d]
  }

  /** The value of a decimal digit character. */
  function DigitValue(c: char): int
  {
    c as int - '0' as int
  }

  /** str(n): the decimal representation of n. */
  function Decimal(n: nat): (s: string)
    ensures |s| >= 1
  {
    if n < 10 then [DigitChar(n)] else Decimal(n / 10) + [DigitChar(n % 10)]
  }

  /**
   * '{:2}'.format(n): n right-aligned in a field of width 2, so a one-digit
   * value gets one leading space and a longer one none.
   */
  function Width2(n: nat): string
  {
    if n < 10 then [' ', DigitChar(n)] else Decimal(n)
  }

  /** The values listed on line y: count(16 * y + x) for x = 0 .. 15. */
  function RowValues(y: nat): (vals: seq<nat>)
    ensures |vals| == 16
    ensures forall x :: 0 <= x < 16 ==> vals[x] <= 4
  {
    var vals := seq(16, x requires 0 <= x < 16 => Classify(16 * y + x));
    assert |vals| == 16;
    forall x | 0 <= x < |vals|
      ensures 0 <= vals[x] <= 4
    {
      assert vals[x] == Classify(16 * y + x);
    }
    vals
  }

  /** Entry x of a line: the separator, a space and the padded value v. */
  function Entry(x: nat, v: nat): string
  {
    (if x == 0 then "" else ",") + " " + Width2(v)
  }

  /** The first k entries of a line listing vals. */
  function Entries(vals: seq<nat>, k: nat): string
    requires k <= |vals|
  {
    if k == 0 then "" else Entries(vals, k - 1) + Entry(k - 1, vals[k - 1])
  }

  /** The line listing vals. */
  function LineOf(vals: seq<nat>): string
    requires |vals| == 16
  {
    "  " + Entries(vals, 16) + ","
  }

  /** Line y of the generated table. */
  function Line(y: nat): string
  {
    LineOf(RowValues(y))
  }

  /** gen_table(): the sixteen lines, the line that print would emit for each y. */
  method GenerateTable() returns (lines: seq<string>)
    ensures |lines| == 16
    ensures forall y :: 0 <= y < 16 ==> lines[y] == Line(y)
  {
    lines := [];
    for y := 0 to 16
      invariant |lines| == y
      invariant forall y' :: 0 <= y' < y ==> lines[y'] == Line(y')
    {
      ghost var vals := RowValues(y);
      assert forall x :: 0 <= x < 16 ==> vals[x] == Classify(y * 16 + x);
      var line := "  ";
      var comma := "";
      for x := 0 to 16
        invariant line == "  " + Entries(vals, x)
        invariant comma == if x == 0 then "" else ","
      {
        var pat := y * 16 + x;
        var num := Count(pat);
        EntriesStep(vals, x, line, comma, num);
        line := line + comma + " " + Width2(num);
        comma := ",";
      }
      line := line + ",";
      assert line == Line(y);
      lines := lines + [line];
    }
  }

  /** One turn of the inner loop of gen_table appends entry x. */
  lemma EntriesStep(vals: seq<nat>, x: nat, line: string, comma: string, num: nat)
    requires x < |vals| && num == vals[x]
    requires line == "  " + Entries(vals, x)
    requires comma == if x == 0 then "" else ","
    ensures line + comma + " " + Width2(num) == "  " + Entries(vals, x + 1)
  {
  }

  /**
   * Where the characters of the first k entries of a line sit: entry x
   * occupies positions 4x-1 .. 4x+2 (the first one 0 .. 2), with the
   * separator at 4x-1 and the digit at 4x+2.
   */
  lemma {:induction false} EntriesLayout(vals: seq<nat>, k: nat)
    requires k <= |vals| && forall i :: 0 <= i < |vals| ==> vals[i] < 10
    ensures |Entries(vals, k)| == if k == 0 then 0 else 4 * k - 1
    ensures forall x :: 0 <= x < k ==>
      Entries(vals, k)[4 * x + 1] == ' ' && Entries(vals, k)[4 * x + 2] == DigitChar(vals[x]) &&
      (x > 0 ==> Entries(vals, k)[4 * x] == ' ' && Entries(vals, k)[4 * x - 1] == ',')
  {
    if k > 0 {
      EntriesLayout(vals, k - 1);
      var prev := Entries(vals, k - 1);
      var e := Entry(k - 1, vals[k - 1]);
      var all := Entries(vals, k);
      assert all == prev + e;
      assert |e| == if k == 1 then 3 else 4;
      forall x | 0 <= x < k
        ensures all[4 * x + 1] == ' ' && all[4 * x + 2] == DigitChar(vals[x])
        ensures x > 0 ==> all[4 * x] == ' ' && all[4 * x - 1] == ','
      {
        if x < k - 1 {
          assert all[4 * x + 1] == prev[4 * x + 1] && all[4 * x + 2] == prev[4 * x + 2];
          if x > 0 {
            assert all[4 * x] == prev[4 * x] && all[4 * x - 1] == prev[4 * x - 1];
          }
        } else if x == 0 {
          assert e == [' ', ' ', DigitChar(vals[x])];
        } else {
          assert e == [',', ' ', ' ', DigitChar(vals[x])];
          assert all[4 * x - 1] == e[0];
        }
      }
    }
  }

  /** The entries of a line start with a space. */
  lemma {:induction false} EntriesFirst(vals: seq<nat>, k: nat)
    requires 0 < k <= |vals| && forall i :: 0 <= i < |vals| ==> vals[i] < 10
    ensures |Entries(vals, k)| > 0 && Entries(vals, k)[0] == ' '
  {
    if k > 1 {
      EntriesFirst(vals, k - 1);
    }
  }

  /**
   * The layout promised for every generated line: two leading spaces, then
   * for each x the separator (none before the first entry), one space and
   * the value right-aligned in width 2, then a trailing comma.
   */
  lemma LineLayout(vals: seq<nat>)
    requires |vals| == 16 && forall i :: 0 <= i < 16 ==> vals[i] < 10
    ensures |LineOf(vals)| == 66
    ensures LineOf(vals)[0] == ' ' && LineOf(vals)[1] == ' ' && LineOf(vals)[2] == ' ' && LineOf(vals)[65] == ','
    ensures forall x :: 0 <= x < 16 ==>
      LineOf(vals)[4 * x + 3] == ' ' &&
      LineOf(vals)[4 * x + 4] == DigitChar(vals[x]) &&
      (x > 0 ==> LineOf(vals)[4 * x + 2] == ' ' && LineOf(vals)[4 * x + 1] == ',')
  {
    EntriesLayout(vals, 16);
    EntriesFirst(vals, 16);
    var e := Entries(vals, 16);
    var line := LineOf(vals);
    assert line == "  " + e + ",";
    forall j | 2 <= j < 65
      ensures line[j] == e[j - 2]
    {
    }
  }

  /** Reads the sixteen values back from a generated line. */
  function DecodeLine(line: string): (vals: seq<int>)
    requires |line| == 66
    ensures |vals| == 16
  {
    seq(16, x requires 0 <= x < 16 => DigitValue(line[4 * x + 4]))
  }

  /** Reading a line back gives the values it was made from. */
  lemma DecodeLineOf(vals: seq<nat>)
    requires |vals| == 16 && forall i :: 0 <= i < 16 ==> vals[i] < 10
    ensures |LineOf(vals)| == 66 && DecodeLine(LineOf(vals)) == vals
  {
    LineLayout(vals);
    var line := LineOf(vals);
    forall x | 0 <= x < 16
      ensures DecodeLine(line)[x] == vals[x]
    {
      assert line[4 * x + 4] == DigitChar(vals[x]);
    }
  }

  /** Line y lists count(16 * y + x) for x = 0 .. 15, in increasing x. */
  lemma DecodeGeneratedLine(y: nat)
    ensures |Line(y)| == 66
    ensures forall x :: 0 <= x < 16 ==> DecodeLine(Line(y))[x] == Classify(16 * y + x)
  {
    DecodeLineOf(RowValues(y));
  }
}
