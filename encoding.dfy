/** The program-line format that `parse_line` reads, written out: register
    fields `R<decimal>`, immediate fields in hexadecimal with or without
    `0x`, comma-separated after the opcode letter.  The lemmas prove that decoding a well-formed line
    gives back the opcode and the operand values it was written from. */
module Encoding {
  import opened Decoder

  /** An operand field as it is written in a program line.  An immediate is
      written in hexadecimal in either case, with or without `0x`. */
  datatype Operand = Reg(index: nat) | Imm(value: nat, upper: bool, prefixed: bool)

  function DecChar(d: int): char
    requires 0 <= d < 10
  {
    ('0' as int + d) as char
  }

  function HexChar(d: int, upper: bool): char
    requires 0 <= d < 16
  {
    if d < 10 then DecChar(d)
    else if upper then ('A' as int + d - 10) as char
    else ('a' as int + d - 10) as char
  }

  /** The decimal digits of `n`, most significant first. */
  function DecDigits(n: nat): seq<char> {
    if n < 10 then [DecChar(n)] else DecDigits(n / 10) + [DecChar(n % 10)]
  }

  /** The hexadecimal digits of `n`, most significant first, in either case. */
  function HexDigits(n: nat, upper: bool): seq<char> {
    if n < 16 then [HexChar(n, upper)] else HexDigits(n / 16, upper) + [HexChar(n % 16, upper)]
  }

  /** The `0x` an immediate may start with; the scan reads it as a leading zero. */
  function HexPrefix(prefixed: bool): (r: seq<char>)
    ensures HexValue(r) == 0
  {
    if prefixed then ['0', 'x'] else []
  }

  function Render(f: Operand): seq<char> {
    match f
    case Reg(i) => ['R'] + DecDigits(i)
    case Imm(v, u, p) => HexPrefix(p) + HexDigits(v, u)
  }

  function Value(f: Operand): int {
    match f
    case Reg(i) => i
    case Imm(v, _, _) => v
  }

  /** A field short enough to be read whole with the default read length. */
  predicate FitsDefault(f: Operand) {
    match f
    case Reg(i) => |DecDigits(i)| <= DefaultLen
    case Imm(v, u, p) => |HexPrefix(p)| + |HexDigits(v, u)| <= DefaultLen
  }

  /** A line with two operand fields. */
  function Line2(letter: char, f0: Operand, f1: Operand): seq<char> {
    [letter, ','] + Render(f0) + [','] + Render(f1)
  }

  /** A line with three operand fields. */
  function Line3(letter: char, f0: Operand, f1: Operand, f2: Operand): seq<char> {
    [letter, ','] + Render(f0) + [','] + Render(f1) + [','] + Render(f2)
  }

  // ---------------------------------------------------------------------
  // Digits
  // ---------------------------------------------------------------------

  lemma HexDigitOfHexChar(d: int, upper: bool)
    requires 0 <= d < 16
    ensures HexDigit(HexChar(d, upper)) == d
    ensures HexChar(d, upper) !in ['x', ',', NUL, 'R']
  {
  }

  /** Reading the decimal digits of `n` in base 10 gives `n`. */
  lemma {:induction false} DecRoundTrip(n: nat)
    ensures DecValue(DecDigits(n)) == n
    ensures 1 <= |DecDigits(n)|
    ensures ',' !in DecDigits(n) && NUL !in DecDigits(n)
  {
    if n >= 10 {
      DecRoundTrip(n / 10);
      var p := DecDigits(n / 10);
      assert (p + [DecChar(n % 10)])[..|p|] == p;
    }
  }

  /** Reading the hexadecimal digits of `n`, in either case, in base 16 gives `n`. */
  lemma {:induction false} HexRoundTrip(n: nat, upper: bool)
    ensures HexValue(HexDigits(n, upper)) == n
    ensures 1 <= |HexDigits(n, upper)|
    ensures ',' !in HexDigits(n, upper) && NUL !in HexDigits(n, upper)
    ensures 'R' !in HexDigits(n, upper)
  {
    HexDigitOfHexChar(n % 16, upper);
    if n >= 16 {
      HexRoundTrip(n / 16, upper);
      var p := HexDigits(n / 16, upper);
      assert (p + [HexChar(n % 16, upper)])[..|p|] == p;
    }
  }

  /** Leading characters that read as 0 do not change what the rest reads as:
      this is why `0x1F` and `1F` (or `1f`) give the same value. */
  lemma {:induction false} HexValueZeroPrefix(p: seq<char>, t: seq<char>)
    requires HexValue(p) == 0
    ensures HexValue(p + t) == HexValue(t)
  {
    if t != [] {
      var t' := t[..|t| - 1];
      assert (p + t)[..|p + t| - 1] == p + t';
      HexValueZeroPrefix(p, t');
    } else {
      assert p + t == p;
    }
  }

  /** Every rendered field is non-empty, free of commas and NULs, and its first
      character tells a register from an immediate. */
  lemma RenderPlain(f: Operand)
    ensures 1 <= |Render(f)|
    ensures ',' !in Render(f) && NUL !in Render(f)
    ensures (Render(f)[0] == 'R') == f.Reg?
  {
    match f
    case Reg(i) => DecRoundTrip(i);
    case Imm(v, u, _) => HexRoundTrip(v, u);
  }

  // ---------------------------------------------------------------------
  // Fields and lines
  // ---------------------------------------------------------------------

  /** A comma-bounded field holding a rendered operand reads as its value. */
  lemma FieldReadsValue(s: seq<char>, start: int, end: int, f: Operand)
    requires 0 <= start < end <= |s|
    requires s[start..end] == Render(f)
    ensures Field(s, start, end) == Value(f)
  {
    RenderPlain(f);
    assert s[start] == Render(f)[0];
    match f
    case Reg(i) =>
      var t := s[start + 1..];
      assert s[start + 1..end] == s[start..end][1..];
      assert t[..end - start - 1] == DecDigits(i);
      ScannedIsPrefix(t, end - start - 1, end - start - 1);
      DecRoundTrip(i);
    case Imm(v, u, p) =>
      var t := s[start..];
      assert t[..end - start] == Render(f);
      ScannedIsPrefix(t, end - start, end - start);
      HexRoundTrip(v, u);
      HexValueZeroPrefix(HexPrefix(p), HexDigits(v, u));
  }

  /** A last field holding a rendered operand that fits the default read
      length reads as its value. */
  lemma LastFieldReadsValue(s: seq<char>, start: int, f: Operand)
    requires 0 <= start <= |s|
    requires s[start..] == Render(f) && FitsDefault(f)
    ensures LastField(s, start) == Value(f)
  {
    RenderPlain(f);
    assert s[start] == Render(f)[0];
    match f
    case Reg(i) =>
      var t := s[start + 1..];
      assert t == DecDigits(i) && t[..|t|] == t;
      ScannedIsPrefix(t, DefaultLen, |t|);
      DecRoundTrip(i);
    case Imm(v, u, p) =>
      var t := s[start..];
      assert t[..|t|] == t;
      ScannedIsPrefix(t, DefaultLen, |t|);
      HexRoundTrip(v, u);
      HexValueZeroPrefix(HexPrefix(p), HexDigits(v, u));
  }

  /** A comma with none before it, back to `from`, is the one `CommaFrom` finds. */
  lemma {:induction false} CommaFromIs(s: seq<char>, from: int, k: int)
    requires 0 <= from <= k < |s| && s[k] == ','
    requires ',' !in s[from..k]
    ensures HasCommaFrom(s, from) && CommaFrom(s, from) == k
    decreases k - from
  {
    if from < k {
      assert s[from] == s[from..k][0] && s[from + 1..k] == s[from..k][1..];
      CommaFromIs(s, from + 1, k);
    }
  }

  /** A comma or the end, with no comma or NUL before it back to `from`, is
      where `StopFrom` stops. */
  lemma {:induction false} StopFromIs(s: seq<char>, from: int, k: int)
    requires 0 <= from <= k <= |s|
    requires k < |s| ==> s[k] == ','
    requires ',' !in s[from..k] && NUL !in s[from..k]
    ensures StopFrom(s, from) == k
    decreases k - from
  {
    if from < k {
      assert s[from] == s[from..k][0] && s[from + 1..k] == s[from..k][1..];
      StopFromIs(s, from + 1, k);
    }
  }

  /** A line whose first field is bounded by the commas at 1 and `c2` and whose
      second field ends at the comma or terminator at `e` is assembled from
      those positions. */
  lemma CommasAt(s: seq<char>, c2: int, e: int)
    requires 3 <= c2 && c2 + 2 <= e <= |s|
    requires s[0] != ',' && s[1] == ',' && s[c2] == ',' && (e < |s| ==> s[e] == ',')
    requires ',' !in s[3..c2] && ',' !in s[c2 + 2..e] && NUL !in s[c2 + 2..e]
    ensures Delimited(s) && Decode(s) == Assemble(s, 1, c2, e)
  {
    CommaFromIs(s, 0, 1);
    CommaFromIs(s, 3, c2);
    StopFromIs(s, c2 + 2, e);
    DecodeAssembles(s, 1, c2, e);
  }

  /** A line with commas at 1, `c2` and `e` reads as its three fields. */
  lemma CommasAt3(s: seq<char>, c2: int, e: int)
    requires 3 <= c2 && c2 + 2 <= e < |s|
    requires s[0] != ',' && s[1] == ',' && s[c2] == ',' && s[e] == ','
    requires ',' !in s[3..c2] && ',' !in s[c2 + 2..e] && NUL !in s[c2 + 2..e]
    ensures Delimited(s)
    ensures Decode(s) == Command(Kind(s[0]), Field(s, 2, c2), Field(s, c2 + 1, e), LastField(s, e + 1))
  {
    CommasAt(s, c2, e);
    AssembleThree(s, 1, c2, e);
  }

  /** A line with commas at 1 and `c2` only reads as its two fields. */
  lemma CommasAt2(s: seq<char>, c2: int)
    requires 3 <= c2 && c2 + 2 <= |s|
    requires s[0] != ',' && s[1] == ',' && s[c2] == ','
    requires ',' !in s[3..c2] && ',' !in s[c2 + 2..] && NUL !in s[c2 + 2..]
    ensures Delimited(s)
    ensures Decode(s) == Command(Kind(s[0]), Field(s, 2, c2), LastField(s, c2 + 1), 0)
  {
    assert s[c2 + 2..] == s[c2 + 2..|s|];
    CommasAt(s, c2, |s|);
    AssembleTwo(s, 1, c2, |s|);
  }

  /** The pieces of a line with three fields `a`, `b` and `c`. */
  lemma PiecesThree(s: seq<char>, letter: char, a: seq<char>, b: seq<char>, c: seq<char>)
    requires s == [letter, ','] + a + [','] + b + [','] + c
    requires 1 <= |a| && 1 <= |b|
    ensures |s| == 4 + |a| + |b| + |c|
    ensures s[0] == letter && s[1] == ',' && s[2 + |a|] == ',' && s[3 + |a| + |b|] == ','
    ensures s[2..2 + |a|] == a && s[3..2 + |a|] == a[1..]
    ensures s[3 + |a|..3 + |a| + |b|] == b && s[4 + |a|..3 + |a| + |b|] == b[1..]
    ensures s[4 + |a| + |b|..] == c
  {
  }

  /** The pieces of a line with two fields `a` and `b`. */
  lemma PiecesTwo(s: seq<char>, letter: char, a: seq<char>, b: seq<char>)
    requires s == [letter, ','] + a + [','] + b
    requires 1 <= |a| && 1 <= |b|
    ensures |s| == 3 + |a| + |b|
    ensures s[0] == letter && s[1] == ',' && s[2 + |a|] == ','
    ensures s[2..2 + |a|] == a && s[3..2 + |a|] == a[1..]
    ensures s[3 + |a|..] == b && s[4 + |a|..] == b[1..]
  {
  }

  /** A line laid out as three rendered fields after the opcode letter reads
      as the command with the fields' values. */
  lemma DecodeFields3(s: seq<char>, f0: Operand, f1: Operand, f2: Operand, c2: int, e: int)
    requires FitsDefault(f2)
    requires 3 <= c2 && c2 + 2 <= e < |s|
    requires s[0] != ',' && s[1] == ',' && s[c2] == ',' && s[e] == ','
    requires ',' !in s[3..c2] && ',' !in s[c2 + 2..e] && NUL !in s[c2 + 2..e]
    requires s[2..c2] == Render(f0) && s[c2 + 1..e] == Render(f1) && s[e + 1..] == Render(f2)
    ensures Delimited(s) && Decode(s) == Command(Kind(s[0]), Value(f0), Value(f1), Value(f2))
  {
    FieldsRead3(s, f0, f1, f2, c2, e);
    CommasAt3(s, c2, e);
  }

  lemma FieldsRead3(s: seq<char>, f0: Operand, f1: Operand, f2: Operand, c2: int, e: int)
    requires FitsDefault(f2)
    requires 2 < c2 < e < |s|
    requires s[2..c2] == Render(f0) && s[c2 + 1..e] == Render(f1) && s[e + 1..] == Render(f2)
    ensures Field(s, 2, c2) == Value(f0) && Field(s, c2 + 1, e) == Value(f1)
    ensures LastField(s, e + 1) == Value(f2)
  {
    FieldReadsValue(s, 2, c2, f0);
    FieldReadsValue(s, c2 + 1, e, f1);
    LastFieldReadsValue(s, e + 1, f2);
  }

  /** A line laid out as two rendered fields after the opcode letter reads as
      the command with the fields' values and a third operand of 0. */
  lemma DecodeFields2(s: seq<char>, f0: Operand, f1: Operand, c2: int)
    requires FitsDefault(f1)
    requires 3 <= c2 && c2 + 2 <= |s|
    requires s[0] != ',' && s[1] == ',' && s[c2] == ','
    requires ',' !in s[3..c2] && ',' !in s[c2 + 2..] && NUL !in s[c2 + 2..]
    requires s[2..c2] == Render(f0) && s[c2 + 1..] == Render(f1)
    ensures Delimited(s) && Decode(s) == Command(Kind(s[0]), Value(f0), Value(f1), 0)
  {
    FieldReadsValue(s, 2, c2, f0);
    LastFieldReadsValue(s, c2 + 1, f1);
    CommasAt2(s, c2);
  }

  /** `parse_line` of a line with three fields gives the opcode its letter
      selects and the three operand values. */
  lemma DecodeLine3(letter: char, f0: Operand, f1: Operand, f2: Operand)
    requires letter != ',' && FitsDefault(f2)
    ensures Delimited(Line3(letter, f0, f1, f2))
    ensures Decode(Line3(letter, f0, f1, f2)) == Command(Kind(letter), Value(f0), Value(f1), Value(f2))
  {
    var a, b := Render(f0), Render(f1);
    RenderPlain(f0);
    RenderPlain(f1);
    RenderPlain(f2);
    assert ',' !in a[1..] && ',' !in b[1..] && NUL !in b[1..];
    PiecesThree(Line3(letter, f0, f1, f2), letter, a, b, Render(f2));
    DecodeFields3(Line3(letter, f0, f1, f2), f0, f1, f2, 2 + |a|, 3 + |a| + |b|);
  }

  /** `parse_line` of a line with two fields gives the opcode its letter
      selects, the two operand values and a third operand of 0. */
  lemma DecodeLine2(letter: char, f0: Operand, f1: Operand)
    requires letter != ',' && FitsDefault(f1)
    ensures Delimited(Line2(letter, f0, f1))
    ensures Decode(Line2(letter, f0, f1)) == Command(Kind(letter), Value(f0), Value(f1), 0)
  {
    var a, b := Render(f0), Render(f1);
    RenderPlain(f0);
    RenderPlain(f1);
    assert ',' !in a[1..] && ',' !in b[1..] && NUL !in b[1..];
    PiecesTwo(Line2(letter, f0, f1), letter, a, b);
    DecodeFields2(Line2(letter, f0, f1), f0, f1, 2 + |a|);
  }

  /** The rendered lines of the next two examples. */
  lemma ExampleLines()
    ensures Line3('A', Reg(1), Reg(2), Reg(3)) == "A,R1,R2,R3"
    ensures Line2('L', Reg(1), Imm(5, false, true)) == "L,R1,0x5"
    ensures FitsDefault(Reg(3)) && FitsDefault(Imm(5, false, true))
  {
    assert DecDigits(1) == "1" && DecDigits(2) == "2" && DecDigits(3) == "3";
    assert HexDigits(5, false) == "5";
  }

  /** A line adding two registers into a third. */
  lemma DecodeAddExample()
    ensures Delimited("A,R1,R2,R3") && Decode("A,R1,R2,R3") == Command(Add, 1, 2, 3)
  {
    assert Kind('A') == Add && Value(Reg(1)) == 1 && Value(Reg(2)) == 2 && Value(Reg(3)) == 3;
    ExampleLines();
    DecodeLine3('A', Reg(1), Reg(2), Reg(3));
  }

  /** A load line, which has no third field: its third operand is 0. */
  lemma DecodeLoadExample()
    ensures Delimited("L,R1,0x5") && Decode("L,R1,0x5") == Command(Load, 1, 5, 0)
  {
    assert Kind('L') == Load && Value(Reg(1)) == 1 && Value(Imm(5, false, true)) == 5;
    ExampleLines();
    DecodeLine2('L', Reg(1), Imm(5, false, true));
  }

  /** The rendered line of the next example. */
  lemma PlainExampleLine()
    ensures Line2('L', Reg(2), Imm(31, false, false)) == "L,R2,1f"
    ensures FitsDefault(Imm(31, false, false))
  {
    assert DecDigits(2) == "2" && HexDigits(31, false) == "1f";
  }

  /** A load line whose immediate has no `0x`. */
  lemma DecodePlainLoadExample()
    ensures Delimited("L,R2,1f") && Decode("L,R2,1f") == Command(Load, 2, 31, 0)
  {
    assert Kind('L') == Load && Value(Reg(2)) == 2 && Value(Imm(31, false, false)) == 31;
    PlainExampleLine();
    DecodeLine2('L', Reg(2), Imm(31, false, false));
  }

  /** `0x1F` and `1f` both read as 31. */
  lemma HexExamples()
    ensures HexValue("0x1F") == 31
    ensures HexValue("1f") == 31
  {
    assert "1F" == HexDigits(31, true);
    assert "1f" == HexDigits(31, false);
    HexRoundTrip(31, true);
    HexRoundTrip(31, false);
    assert "0x1F" == ['0', 'x'] + "1F";
    HexValueZeroPrefix(['0', 'x'], "1F");
  }
}
