/** The instruction decoder of the simulator: `parse_hex`, `parse_dec` and
    `parse_line`, which turn one comma-separated text line into a `Command`.

    A C string is modelled as the sequence of its characters WITHOUT the
    terminating NUL; `At` reads the terminator at index `|s|`.  Integers are
    mathematical: the C `int` overflow of over-long fields is not modelled. */
module Decoder {

  /** The six instruction kinds of `Command::Type`. */
  datatype Opcode = Add | Sub | Mul | Div | Load | Jump

  /** A decoded instruction: its kind and the three operand fields `op[0..2]`. */
  datatype Command = Command(kind: Opcode, op0: int, op1: int, op2: int)

  const NUL: char := '\0'

  /** The read length `parse_hex` and `parse_dec` use when their caller gives none. */
  const DefaultLen: int := 20

  /** Character `i` of the C string `s`, where index `|s|` is its terminator. */
  function At(s: seq<char>, i: int): char
    requires 0 <= i <= |s|
  {
    if i < |s| then s[i] else NUL
  }

  // ---------------------------------------------------------------------
  // parse_hex and parse_dec
  // ---------------------------------------------------------------------

  /** The value `parse_hex` adds for one character other than 'x'
      (exact for the ASCII characters, see README). */
  function HexDigit(c: char): int {
    if c <= '9' then c as int - '0' as int
    else if c <= 'F' then c as int - ('A' as int - 10)
    else c as int - ('a' as int - 10)
  }

  /** A character sequence read in base 16 from left to right, every 'x' skipped. */
  function HexValue(s: seq<char>): int {
    if s == [] then 0
    else if s[|s| - 1] == 'x' then HexValue(s[..|s| - 1])
    else 16 * HexValue(s[..|s| - 1]) + HexDigit(s[|s| - 1])
  }

  /** A character sequence read in base 10 from left to right, every character a digit. */
  function DecValue(s: seq<char>): int {
    if s == [] then 0
    else 10 * DecValue(s[..|s| - 1]) + (s[|s| - 1] as int - '0' as int)
  }

  /** The characters that a parser told to read at most `len` characters of the
      C string `s` consumes: a prefix of `s`, free of NUL, that ends at the first
      NUL, at the end of the string, or after `len` characters. */
  function Scanned(s: seq<char>, len: int): seq<char>
  {
    if len <= 0 || s == [] || s[0] == NUL then [] else [s[0]] + Scanned(s[1..], len - 1)
  }

  /** `parse_hex(str, len)`: fold the characters read in base 16, skipping 'x'. */
  method ParseHex(s: seq<char>, len: int := DefaultLen) returns (r: int)
    ensures r == HexValue(Scanned(s, len))
  {
    r := 0;
    var i := 0;
    while i < len && At(s, i) != NUL
      invariant 0 <= i <= |s|
      invariant i == 0 || i <= len
      invariant NUL !in s[..i]
      invariant r == HexValue(s[..i])
    {
      var c := s[i];
      assert s[..i + 1][..i] == s[..i];
      if c != 'x' {
        r := r * 16 + HexDigit(c);
      }
      i := i + 1;
    }
    ScannedIsPrefix(s, len, i);
  }

  /** `parse_dec(str, len)`: fold the characters read in base 10. */
  method ParseDec(s: seq<char>, len: int := DefaultLen) returns (r: int)
    ensures r == DecValue(Scanned(s, len))
  {
    r := 0;
    var i := 0;
    while i < len && At(s, i) != NUL
      invariant 0 <= i <= |s|
      invariant i == 0 || i <= len
      invariant NUL !in s[..i]
      invariant r == DecValue(s[..i])
    {
      assert s[..i + 1][..i] == s[..i];
      r := r * 10 + (s[i] as int - '0' as int);
      i := i + 1;
    }
    ScannedIsPrefix(s, len, i);
  }

  /** Where a left-to-right scan that stops at NUL or after `len` characters ends. */
  lemma {:induction false} ScannedIsPrefix(s: seq<char>, len: int, i: nat)
    requires i <= |s| && (i == 0 || i <= len)
    requires NUL !in s[..i]
    requires !(i < len && At(s, i) != NUL)
    ensures Scanned(s, len) == s[..i]
  {
    if i > 0 {
      assert s[0] == s[..i][0];
      assert s[1..][..i - 1] == s[1..i];
      assert At(s[1..], i - 1) == At(s, i);
      ScannedIsPrefix(s[1..], len - 1, i - 1);
      assert s[..i] == [s[0]] + s[1..i];
    }
  }

  // ---------------------------------------------------------------------
  // parse_line
  // ---------------------------------------------------------------------

  /** The opcode chosen from the first character of a line. */
  function Kind(c: char): Opcode {
    match c
    case 'A' => Add
    case 'S' => Sub
    case 'M' => Mul
    case 'D' => Div
    case 'L' => Load
    case _ => Jump
  }

  /** Each opcode letter selects its opcode, and every other character a jump. */
  lemma KindByLetter(c: char)
    ensures Kind(c) == Add <==> c == 'A'
    ensures Kind(c) == Sub <==> c == 'S'
    ensures Kind(c) == Mul <==> c == 'M'
    ensures Kind(c) == Div <==> c == 'D'
    ensures Kind(c) == Load <==> c == 'L'
    ensures Kind(c) == Jump <==> c !in ['A', 'S', 'M', 'D', 'L']
  {
  }

  predicate HasCommaFrom(s: seq<char>, from: int) {
    exists k :: 0 <= from <= k < |s| && s[k] == ','
  }

  /** The first comma of `s` at or after `from`. */
  function CommaFrom(s: seq<char>, from: int): (k: nat)
    requires 0 <= from && HasCommaFrom(s, from)
    ensures from <= k < |s| && s[k] == ','
    decreases |s| - from
  {
    if s[from] == ',' then from else CommaFrom(s, from + 1)
  }

  /** No comma at or after `from` comes before the one `CommaFrom` finds. */
  lemma {:induction false} CommaFromLeast(s: seq<char>, from: int, j: int)
    requires 0 <= from <= j < |s| && s[j] == ','
    ensures HasCommaFrom(s, from) && CommaFrom(s, from) <= j
    decreases j - from
  {
    if s[from] != ',' {
      CommaFromLeast(s, from + 1, j);
    }
  }

  /** The first comma or NUL of the C string `s` at or after `from`
      (the terminator at `|s|` when there is none before it). */
  function StopFrom(s: seq<char>, from: int): (k: nat)
    requires 0 <= from <= |s|
    ensures from <= k <= |s|
    ensures k < |s| ==> s[k] == ',' || s[k] == NUL
    decreases |s| - from
  {
    if from == |s| || s[from] == ',' || s[from] == NUL then from else StopFrom(s, from + 1)
  }

  /** No comma, NUL or end at or after `from` comes before where `StopFrom` stops. */
  lemma {:induction false} StopFromLeast(s: seq<char>, from: int, j: int)
    requires 0 <= from <= j <= |s|
    requires j < |s| ==> s[j] == ',' || s[j] == NUL
    ensures StopFrom(s, from) <= j
    decreases j - from
  {
    if from < |s| && s[from] != ',' && s[from] != NUL {
      StopFromLeast(s, from + 1, j);
    }
  }

  /** What `parse_line` needs of its line so that its first two unbounded comma
      scans stay inside the string: a first comma `c1`, a comma at or after
      `c1 + 2` (the second scan pre-increments past `c1 + 1`), and one more
      character after that comma (where the third scan starts). */
  predicate Delimited(s: seq<char>) {
    && HasCommaFrom(s, 0)
    && HasCommaFrom(s, CommaFrom(s, 0) + 2)
    && CommaFrom(s, CommaFrom(s, 0) + 2) + 1 < |s|
  }

  /** A comma-bounded field `s[start..end]`: after an 'R' it is read in base 10,
      otherwise in base 16, each time reading no further than `end`. */
  function Field(s: seq<char>, start: int, end: int): int
    requires 0 <= start < end <= |s|
  {
    if s[start] == 'R' then DecValue(Scanned(s[start + 1..], end - start - 1))
    else HexValue(Scanned(s[start..], end - start))
  }

  /** The last field, starting at `start`: read like `Field`, but with the
      default read length instead of a bound. */
  function LastField(s: seq<char>, start: int): int
    requires 0 <= start <= |s|
  {
    if start < |s| && s[start] == 'R' then DecValue(Scanned(s[start + 1..], DefaultLen))
    else HexValue(Scanned(s[start..], DefaultLen))
  }

  /** The command built from a line whose first two commas are at `c1` and `c2`
      and whose next field ends at `e`: with three fields when a comma ends it,
      and with two fields and a third operand of 0 when a NUL does. */
  function Assemble(s: seq<char>, c1: int, c2: int, e: int): Command
    requires 0 <= c1 && c1 + 1 < c2 && c2 + 2 <= e <= |s|
  {
    if At(s, e) != NUL then
      Command(Kind(s[0]), Field(s, c1 + 1, c2), Field(s, c2 + 1, e), LastField(s, e + 1))
    else
      Command(Kind(s[0]), Field(s, c1 + 1, c2), LastField(s, c2 + 1), 0)
  }

  lemma AssembleThree(s: seq<char>, c1: int, c2: int, e: int)
    requires 0 <= c1 && c1 + 1 < c2 && c2 + 2 <= e <= |s|
    requires At(s, e) != NUL
    ensures Assemble(s, c1, c2, e) ==
            Command(Kind(s[0]), Field(s, c1 + 1, c2), Field(s, c2 + 1, e), LastField(s, e + 1))
  {
  }

  lemma AssembleTwo(s: seq<char>, c1: int, c2: int, e: int)
    requires 0 <= c1 && c1 + 1 < c2 && c2 + 2 <= e <= |s|
    requires At(s, e) == NUL
    ensures Assemble(s, c1, c2, e) == Command(Kind(s[0]), Field(s, c1 + 1, c2), LastField(s, c2 + 1), 0)
  {
  }

  /** The command `parse_line` returns for a delimited line. */
  function Decode(s: seq<char>): Command
    requires Delimited(s)
  {
    var c1 := CommaFrom(s, 0);
    var c2 := CommaFrom(s, c1 + 2);
    Assemble(s, c1, c2, StopFrom(s, c2 + 2))
  }

  /** One comma-bounded field of `parse_line`, read no further than `end`. */
  method ParseField(s: seq<char>, start: int, end: int) returns (v: int)
    requires 0 <= start < end <= |s|
    ensures v == Field(s, start, end)
  {
    if s[start] == 'R' {
      v := ParseDec(s[start + 1..], end - start - 1);
    } else {
      v := ParseHex(s[start..], end - start);
    }
  }

  /** The last field of `parse_line`, read with the default length. */
  method ParseLastField(s: seq<char>, start: int) returns (v: int)
    requires 0 <= start <= |s|
    ensures v == LastField(s, start)
  {
    if At(s, start) == 'R' {
      v := ParseDec(s[start + 1..]);
    } else {
      v := ParseHex(s[start..]);
    }
  }

  /** One of `parse_line`'s scans for a comma: the first comma at or after `from`. */
  method ScanComma(s: seq<char>, from: int) returns (i: int)
    requires 0 <= from && HasCommaFrom(s, from)
    ensures i == CommaFrom(s, from)
  {
    ghost var c := CommaFrom(s, from);
    i := from;
    while At(s, i) != ','
      invariant from <= i <= c
      decreases c - i
    {
      i := i + 1;
    }
    CommaFromLeast(s, from, i);
  }

  /** `parse_line`'s last scan: the first comma or NUL at or after `from`. */
  method ScanStop(s: seq<char>, from: int) returns (i: int)
    requires 0 <= from <= |s|
    ensures i == StopFrom(s, from)
  {
    ghost var e := StopFrom(s, from);
    i := from;
    while At(s, i) != ',' && At(s, i) != NUL
      invariant from <= i <= e
      decreases e - i
    {
      i := i + 1;
    }
    StopFromLeast(s, from, i);
  }

  /** `parse_line`: the opcode from the first character, then the fields, each
      decoded in base 10 after an 'R' and in base 16 otherwise; with only two
      fields the third operand is 0. */
  method ParseLine(s: seq<char>) returns (cmd: Command)
    requires Delimited(s)
    ensures cmd == Decode(s)
  {
    var kind := Kind(s[0]);
    var op0, op1, op2;
    // the first comma ends the opcode field
    var c1 := ScanComma(s, 0);
    var start := c1 + 1;
    // the second scan starts one past the character after the first comma
    var c2 := ScanComma(s, c1 + 2);
    op0 := ParseField(s, start, c2);
    // the third scan also stops at the terminator
    start := c2 + 1;
    var e := ScanStop(s, c2 + 2);
    if At(s, e) != NUL {
      op1 := ParseField(s, start, e);
      op2 := ParseLastField(s, e + 1);
    } else {
      op1 := ParseLastField(s, start);
      op2 := 0;
    }
    cmd := Command(kind, op0, op1, op2);
    DecodeFromScans(s, c1, c2, e, op0, op1, op2);
  }

  /** `Decode` from the positions `parse_line`'s scans find and the fields it
      reads between them. */
  lemma DecodeFromScans(s: seq<char>, c1: int, c2: int, e: int, op0: int, op1: int, op2: int)
    requires Delimited(s)
    requires c1 == CommaFrom(s, 0) && c2 == CommaFrom(s, c1 + 2) && e == StopFrom(s, c2 + 2)
    requires op0 == Field(s, c1 + 1, c2)
    requires At(s, e) != NUL ==> op1 == Field(s, c2 + 1, e) && op2 == LastField(s, e + 1)
    requires At(s, e) == NUL ==> op1 == LastField(s, c2 + 1) && op2 == 0
    ensures Decode(s) == Command(Kind(s[0]), op0, op1, op2)
  {
    DecodeAssembles(s, c1, c2, e);
    if At(s, e) != NUL {
      AssembleThree(s, c1, c2, e);
    } else {
      AssembleTwo(s, c1, c2, e);
    }
  }

  /** `Decode` in terms of the positions of the scans that `parse_line` makes. */
  lemma DecodeAssembles(s: seq<char>, c1: int, c2: int, e: int)
    requires Delimited(s)
    requires c1 == CommaFrom(s, 0) && c2 == CommaFrom(s, c1 + 2) && e == StopFrom(s, c2 + 2)
    ensures Decode(s) == Assemble(s, c1, c2, e)
  {
  }
}
