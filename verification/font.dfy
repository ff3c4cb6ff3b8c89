/** The bitmap font: decoding of the font description lines, grouping of the decoded
    instructions into symbols, and the numbering of the symbol keys.

    Reading the file is outside the model: the description arrives as its sequence of lines. */
module Font {
  import opened Config
  import opened Wrappers

  /** One drawing instruction of a glyph. `yStart`/`yEnd` are stored shifted by +3 so that
      they are non-negative. */
  datatype Instruction = Instruction(
    clear: bool, xStart: nat, xFill: bool, xEnd: nat, yStart: nat, yFill: bool, yEnd: nat)

  type SymbolDescription = seq<Instruction>

  /** A decoded, non-blank description line: its instruction and its start bit. */
  datatype Decoded = Decoded(instruction: Instruction, isStart: bool)

  /** The reasons loading aborts (the program panics with a message for each). */
  datatype FontError =
    | InvalidLine                // a line that is not 18 bytes long
    | InvalidCharacter           // a character other than '0' and '1'
    | XOutOfBounds(x: nat)       // x_start or x_end above 4
    | YOutOfBounds(y: int)       // y_start or y_end outside -3..7
    | InvertedText               // the enable bit is clear
    | XFillWithoutSpan           // x_fill with x_start == x_end
    | YFillWithoutSpan           // y_fill with y_start == y_end
    | NoStartBit                 // an instruction before any start bit
    | NoSymbol                   // no instruction at all (the final `unwrap` fails)
    | WrongSymbolCount(count: nat) // the number of symbols differs from the number of keys

  /** The font as the renderer and the editor use it. */
  datatype Font = Font(
    space: SymbolDescription,
    symbolsByKey: map<char, SymbolDescription>,
    symbolsById: map<byte, SymbolDescription>,
    keysById: map<byte, char>,
    idsByKey: map<char, byte>,
    highestId: byte)

  // ---------------------------------------------------------------------------------------
  // The symbol keys

  /** The `n` consecutive characters from `start` on. */
  function CharRange(start: char, n: nat): (r: string)
    requires start as int + n <= 0xD800
    ensures |r| == n && forall i :: 0 <= i < n ==> r[i] as int == start as int + i
  {
    seq(n, i requires 0 <= i < n => (start as int + i) as char)
  }

  const UPPER: string := CharRange('A', 26)
  const LOWER: string := CharRange('a', 26)
  const PUNCTUATION: string := "?!.,:'\""
  const DIGITS: string := CharRange('0', 10)
  const OPERATORS: string := "+-*/=()\U{2192}\U{2190}\U{2193}\U{2191}"

  /** The keys of the symbols in file order; the i-th gets glyph id i + 1. */
  const KEYS: string := UPPER + LOWER + PUNCTUATION + DIGITS + OPERATORS

  /** Position of a key character in `KEYS`, or -1. */
  function Rank(c: char): int {
    if 'A' <= c <= 'Z' then c as int - 'A' as int
    else if 'a' <= c <= 'z' then 26 + c as int - 'a' as int
    else if '0' <= c <= '9' then 59 + c as int - '0' as int
    else match c
      case '?' => 52 case '!' => 53 case '.' => 54 case ',' => 55 case ':' => 56
      case '\'' => 57 case '"' => 58
      case '+' => 69 case '-' => 70 case '*' => 71 case '/' => 72 case '=' => 73
      case '(' => 74 case ')' => 75
      case '\U{2192}' => 76 case '\U{2190}' => 77 case '\U{2193}' => 78 case '\U{2191}' => 79
      case _ => -1
  }

  /** `Rank` inverts the indexing of `KEYS`. */
  lemma RankOfKeys()
    ensures |KEYS| == 80
    ensures forall i :: 0 <= i < |KEYS| ==> Rank(KEYS[i]) == i
  {
    forall i | 0 <= i < |KEYS|
      ensures Rank(KEYS[i]) == i
    {
      if i < 26 {
        assert KEYS[i] == UPPER[i];
      } else if i < 52 {
        assert KEYS[i] == LOWER[i - 26];
      } else if i < 59 {
        assert KEYS[i] == PUNCTUATION[i - 52];
        var k := i - 52;
        if k == 0 {} else if k == 1 {} else if k == 2 {} else if k == 3 {}
        else if k == 4 {} else if k == 5 {} else {}
      } else if i < 69 {
        assert KEYS[i] == DIGITS[i - 59];
      } else {
        assert KEYS[i] == OPERATORS[i - 69];
        var k := i - 69;
        if k == 0 {} else if k == 1 {} else if k == 2 {} else if k == 3 {}
        else if k == 4 {} else if k == 5 {} else if k == 6 {} else if k == 7 {}
        else if k == 8 {} else if k == 9 {} else {}
      }
    }
  }

  /** No key occurs twice, and the space (which gets id 0) is not among them. */
  lemma KeysDistinct()
    ensures |KEYS| == 80
    ensures forall i, j :: 0 <= i < j < |KEYS| ==> KEYS[i] != KEYS[j]
    ensures ' ' !in KEYS
  {
    RankOfKeys();
    assert Rank(' ') == -1;
  }

  // ---------------------------------------------------------------------------------------
  // Decoding one description line

  /** Bytes a character takes in UTF-8: the program checks the byte length of a line. */
  function Utf8Width(c: char): nat {
    if c as int < 0x80 then 1 else if c as int < 0x800 then 2 else if c as int < 0x1_0000 then 3 else 4
  }

  function Utf8Length(s: string): (n: nat)
    ensures n >= |s|
    ensures (forall i :: 0 <= i < |s| ==> s[i] as int < 0x80) ==> n == |s|
  {
    if |s| == 0 then 0 else Utf8Length(s[..|s| - 1]) + Utf8Width(s[|s| - 1])
  }

  predicate IsBit(c: char) {
    c == '0' || c == '1'
  }

  function Reverse<T>(s: seq<T>): (r: seq<T>)
    ensures |r| == |s|
  {
    seq(|s|, i requires 0 <= i < |s| => s[|s| - 1 - i])
  }

  function Pow2(n: nat): (p: nat)
    ensures p >= 1
  {
    if n == 0 then 1 else 2 * Pow2(n - 1)
  }

  /** Unsigned binary number, most significant bit first (`from_str_radix(_, 2)`). */
  function FromBits(s: string): (v: nat)
    ensures v < Pow2(|s|)
  {
    if |s| == 0 then 0 else 2 * FromBits(s[..|s| - 1]) + (if s[|s| - 1] == '1' then 1 else 0)
  }

  /** The `n`-bit binary spelling of `v`, most significant bit first. */
  function ToBits(v: nat, n: nat): (s: string)
    requires v < Pow2(n)
    ensures |s| == n
    ensures forall i :: 0 <= i < n ==> IsBit(s[i])
  {
    if n == 0 then [] else ToBits(v / 2, n - 1) + [if v % 2 == 1 then '1' else '0']
  }

  lemma {:induction false} FromToBits(v: nat, n: nat)
    requires v < Pow2(n)
    ensures FromBits(ToBits(v, n)) == v
  {
    if n > 0 {
      FromToBits(v / 2, n - 1);
      var s := ToBits(v, n);
      assert s[..n - 1] == ToBits(v / 2, n - 1);
    }
  }

  lemma {:induction false} ToFromBits(s: string)
    requires forall i :: 0 <= i < |s| ==> IsBit(s[i])
    ensures ToBits(FromBits(s), |s|) == s
  {
    if |s| > 0 {
      var n := |s|;
      ToFromBits(s[..n - 1]);
      var v := FromBits(s);
      assert v / 2 == FromBits(s[..n - 1]);
      assert s == s[..n - 1] + [s[n - 1]];
    }
  }

  /** 4-bit two's complement: values 8..15 stand for -8..-1. */
  function SignExtend4(v: nat): (r: int)
    requires v < 16
    ensures -8 <= r < 8
    ensures (r - v) % 16 == 0
    ensures r >= 0 <==> v < 8
  {
    if v >= 0x8 then v - 16 else v
  }

  /** The 4-bit field that sign-extends to `y`. */
  function Nibble(y: int): (v: nat)
    requires -8 <= y < 8
    ensures v < 16 && SignExtend4(v) == y
  {
    if y < 0 then y + 16 else y
  }

  /** What every accepted instruction satisfies. */
  ghost predicate WellFormed(ins: Instruction) {
    && !ins.clear
    && ins.xStart <= 4 && ins.xEnd <= 4
    && ins.yStart <= 10 && ins.yEnd <= 10
    && (ins.xFill ==> ins.xStart != ins.xEnd)
    && (ins.yFill ==> ins.yStart != ins.yEnd)
  }

  function BitChar(b: bool): char {
    if b then '1' else '0'
  }

  /** The raw fields of a line, read from the reversed line: bit 0 is the enable bit,
      bits 1-3 x_start, 4-6 x_end, 7 x_fill, 8-11 y_start, 12-15 y_end (4-bit two's
      complement), 16 y_fill and 17 the start bit. */
  datatype Fields = Fields(
    isEnable: bool, xStart: nat, xEnd: nat, xFill: bool, yStart: int, yEnd: int, yFill: bool,
    isStart: bool)

  function SplitFields(bits: string): (f: Fields)
    requires |bits| == 18
    ensures f.xStart < 8 && f.xEnd < 8
    ensures -8 <= f.yStart < 8 && -8 <= f.yEnd < 8
  {
    Fields(bits[0] == '1', FromBits(bits[1..4]), FromBits(bits[4..7]), bits[7] == '1',
      SignExtend4(FromBits(bits[8..12])), SignExtend4(FromBits(bits[12..16])),
      bits[16] == '1', bits[17] == '1')
  }

  /** The bound checks, in the program's order, and the +3 shift of the y values. */
  function CheckFields(f: Fields): (r: Result<Decoded, FontError>)
    ensures r.Success? ==> WellFormed(r.value.instruction) && r.value.isStart == f.isStart
    ensures r.Success? <==>
      && f.xStart <= 4 && f.xEnd <= 4 && -3 <= f.yStart <= 7 && -3 <= f.yEnd <= 7 && f.isEnable
      && (f.xFill ==> f.xStart != f.xEnd) && (f.yFill ==> f.yStart != f.yEnd)
  {
    if f.xStart > 4 then Failure(XOutOfBounds(f.xStart))
    else if f.xEnd > 4 then Failure(XOutOfBounds(f.xEnd))
    else if f.yStart > 7 || f.yStart < -3 then Failure(YOutOfBounds(f.yStart))
    else if f.yEnd > 7 || f.yEnd < -3 then Failure(YOutOfBounds(f.yEnd))
    else if !f.isEnable then Failure(InvertedText)
    else if f.xFill && f.xStart == f.xEnd then Failure(XFillWithoutSpan)
    else if f.yFill && f.yStart == f.yEnd then Failure(YFillWithoutSpan)
    else
      Success(Decoded(
        Instruction(false, f.xStart, f.xFill, f.xEnd, f.yStart + 3, f.yFill, f.yEnd + 3), f.isStart))
  }

  /** Decodes one line of the font description. A line of 18 zeros is blank and skipped
      (`None`); any other line must be 18 bytes of '0'/'1' whose fields pass the checks. */
  function DecodeLine(line: string): (r: Result<Option<Decoded>, FontError>)
    ensures r == Failure(InvalidLine) <==> Utf8Length(line) != 18
    ensures r.Success? ==> |line| == 18 && forall i :: 0 <= i < 18 ==> IsBit(line[i])
    ensures r == Success(None) <==> |line| == 18 && forall i :: 0 <= i < 18 ==> line[i] == '0'
    ensures r.Success? && r.value.Some? ==> WellFormed(r.value.value.instruction)
  {
    if Utf8Length(line) != 18 then Failure(InvalidLine)
    else if exists i :: 0 <= i < |line| && !IsBit(line[i]) then Failure(InvalidCharacter)
    else if forall i :: 0 <= i < |line| ==> line[i] == '0' then
      assert |line| == 18;
      Success(None)
    else
      assert |line| == 18;
      match CheckFields(SplitFields(Reverse(line)))
      case Success(d) => Success(Some(d))
      case Failure(e) => Failure(e)
  }

  /** The 18 bits of a well-formed instruction in reading order (the reversed line). */
  function EncodeBits(d: Decoded): (bits: string)
    requires WellFormed(d.instruction)
    ensures |bits| == 18 && forall i :: 0 <= i < 18 ==> IsBit(bits[i])
    ensures bits[0] == '1' && bits[7] == BitChar(d.instruction.xFill)
    ensures bits[16] == BitChar(d.instruction.yFill) && bits[17] == BitChar(d.isStart)
    ensures bits[1..4] == ToBits(d.instruction.xStart, 3)
    ensures bits[4..7] == ToBits(d.instruction.xEnd, 3)
    ensures bits[8..12] == ToBits(Nibble(d.instruction.yStart - 3), 4)
    ensures bits[12..16] == ToBits(Nibble(d.instruction.yEnd - 3), 4)
  {
    var ins := d.instruction;
    var xs := ToBits(ins.xStart, 3);
    var xe := ToBits(ins.xEnd, 3);
    var ys := ToBits(Nibble(ins.yStart - 3), 4);
    var ye := ToBits(Nibble(ins.yEnd - 3), 4);
    var head := ['1'] + xs + xe + [BitChar(ins.xFill)];
    var tail := ys + ye + [BitChar(ins.yFill), BitChar(d.isStart)];
    assert |head| == 8 && head[1..4] == xs && head[4..7] == xe;
    assert |tail| == 10 && tail[0..4] == ys && tail[4..8] == ye;
    var bits := head + tail;
    assert bits[1..4] == head[1..4];
    assert bits[4..7] == head[4..7];
    assert bits[8..12] == tail[0..4];
    assert bits[12..16] == tail[4..8];
    bits
  }

  /** The description line of a well-formed instruction: the inverse of `DecodeLine`. */
  function EncodeLine(d: Decoded): (line: string)
    requires WellFormed(d.instruction)
    ensures |line| == 18
  {
    Reverse(EncodeBits(d))
  }

  lemma ReverseReverse<T>(s: seq<T>)
    ensures Reverse(Reverse(s)) == s
  {
  }

  /** A bit string in which the digit at every position is known. */
  lemma BitStringShape(bits: string)
    requires |bits| == 18 && forall i :: 0 <= i < 18 ==> IsBit(bits[i])
    ensures bits == [bits[0]] + bits[1..4] + bits[4..7] + [bits[7]] + bits[8..12] + bits[12..16]
      + [bits[16], bits[17]]
  {
  }

  /** The raw fields an encoded instruction spells out. */
  lemma SplitEncoded(d: Decoded)
    requires WellFormed(d.instruction)
    ensures var ins := d.instruction;
      SplitFields(EncodeBits(d))
        == Fields(true, ins.xStart, ins.xEnd, ins.xFill, ins.yStart - 3, ins.yEnd - 3, ins.yFill, d.isStart)
  {
    var ins := d.instruction;
    var enc := EncodeBits(d);
    assert FromBits(enc[1..4]) == ins.xStart by { FromToBits(ins.xStart, 3); }
    assert FromBits(enc[4..7]) == ins.xEnd by { FromToBits(ins.xEnd, 3); }
    assert FromBits(enc[8..12]) == Nibble(ins.yStart - 3) by { FromToBits(Nibble(ins.yStart - 3), 4); }
    assert FromBits(enc[12..16]) == Nibble(ins.yEnd - 3) by { FromToBits(Nibble(ins.yEnd - 3), 4); }
  }

  /** Encoding a well-formed instruction and decoding the line gives it back. */
  lemma DecodeEncode(d: Decoded)
    requires WellFormed(d.instruction)
    ensures DecodeLine(EncodeLine(d)) == Success(Some(d))
  {
    var line := EncodeLine(d);
    var bits := EncodeBits(d);
    ReverseReverse(bits);
    assert Reverse(line) == bits;
    assert forall i :: 0 <= i < 18 ==> IsBit(line[i]) by {
      forall i | 0 <= i < 18 ensures IsBit(line[i]) {
        assert line[i] == bits[17 - i];
      }
    }
    assert line[17] == '1';
    assert forall i :: 0 <= i < |line| ==> line[i] as int < 0x80;
    assert Utf8Length(line) == 18;
    assert !(exists i :: 0 <= i < |line| && !IsBit(line[i]));
    assert !(forall i :: 0 <= i < |line| ==> line[i] == '0');
    SplitEncoded(d);
    var ins := d.instruction;
    var f := Fields(true, ins.xStart, ins.xEnd, ins.xFill, ins.yStart - 3, ins.yEnd - 3, ins.yFill, d.isStart);
    assert SplitFields(Reverse(line)) == f;
    CheckEncoded(d);
  }

  /** The fields of a well-formed instruction pass every check. */
  lemma CheckEncoded(d: Decoded)
    requires WellFormed(d.instruction)
    ensures var ins := d.instruction;
      CheckFields(Fields(true, ins.xStart, ins.xEnd, ins.xFill, ins.yStart - 3, ins.yEnd - 3, ins.yFill, d.isStart))
        == Success(d)
  {
  }

  /** Every accepted line is the encoding of what it decodes to. */
  lemma EncodeDecode(line: string)
    requires DecodeLine(line).Success? && DecodeLine(line).value.Some?
    ensures EncodeLine(DecodeLine(line).value.value) == line
  {
    var d := DecodeLine(line).value.value;
    var bits := Reverse(line);
    assert CheckFields(SplitFields(bits)) == Success(d);
    assert forall i :: 0 <= i < 18 ==> IsBit(bits[i]) by {
      forall i | 0 <= i < 18 ensures IsBit(bits[i]) {
        assert bits[i] == line[17 - i];
      }
    }
    CheckedFields(SplitFields(bits), d);
    FieldsEncoded(bits, d);
    ReverseReverse(line);
  }

  /** A bit string whose fields pass the checks is the encoding of what they decode to. */
  lemma FieldsEncoded(bits: string, d: Decoded)
    requires |bits| == 18 && forall i :: 0 <= i < 18 ==> IsBit(bits[i])
    requires var f := SplitFields(bits);
      && f.isEnable && -3 <= f.yStart && -3 <= f.yEnd && d.isStart == f.isStart
      && d.instruction == Instruction(false, f.xStart, f.xFill, f.xEnd, f.yStart + 3, f.yFill, f.yEnd + 3)
    requires WellFormed(d.instruction)
    ensures EncodeBits(d) == bits
  {
    var ins := d.instruction;
    var enc := EncodeBits(d);
    FieldRoundTrip(enc, bits, 1, 4, ins.xStart);
    FieldRoundTrip(enc, bits, 4, 7, ins.xEnd);
    FieldRoundTrip(enc, bits, 8, 12, Nibble(ins.yStart - 3));
    FieldRoundTrip(enc, bits, 12, 16, Nibble(ins.yEnd - 3));
    SameFields(enc, bits);
  }

  /** A field spelled by `ToBits` of the value read from the same field of a bit string
      spells that field. */
  lemma FieldRoundTrip(enc: string, bits: string, lo: nat, hi: nat, v: nat)
    requires lo <= hi <= |bits| && hi <= |enc|
    requires forall i :: lo <= i < hi ==> IsBit(bits[i])
    requires v == FromBits(bits[lo..hi]) && enc[lo..hi] == ToBits(v, hi - lo)
    ensures enc[lo..hi] == bits[lo..hi]
  {
    ToFromBits(bits[lo..hi]);
  }

  /** Two 18-bit strings that agree on every field are equal. */
  lemma SameFields(a: string, b: string)
    requires |a| == 18 && |b| == 18
    requires a[0] == b[0] && a[7] == b[7] && a[16] == b[16] && a[17] == b[17]
    requires a[1..4] == b[1..4] && a[4..7] == b[4..7] && a[8..12] == b[8..12] && a[12..16] == b[12..16]
    ensures a == b
  {
    forall i | 0 <= i < 18 ensures a[i] == b[i] {
      if 1 <= i < 4 {
        assert a[i] == a[1..4][i - 1] && b[i] == b[1..4][i - 1];
      } else if 4 <= i < 7 {
        assert a[i] == a[4..7][i - 4] && b[i] == b[4..7][i - 4];
      } else if 8 <= i < 12 {
        assert a[i] == a[8..12][i - 8] && b[i] == b[8..12][i - 8];
      } else if 12 <= i < 16 {
        assert a[i] == a[12..16][i - 12] && b[i] == b[12..16][i - 12];
      }
    }
  }

  /** The instruction the checks accept holds the raw fields, with the y values shifted. */
  lemma CheckedFields(f: Fields, d: Decoded)
    requires CheckFields(f) == Success(d)
    ensures f.isEnable && d.isStart == f.isStart
    ensures d.instruction
      == Instruction(false, f.xStart, f.xFill, f.xEnd, f.yStart + 3, f.yFill, f.yEnd + 3)
    ensures -8 <= f.yStart < 8 && -8 <= f.yEnd < 8
    ensures Nibble(d.instruction.yStart - 3) == Nibble(f.yStart)
    ensures Nibble(d.instruction.yEnd - 3) == Nibble(f.yEnd)
  {
  }

  // ---------------------------------------------------------------------------------------
  // Grouping the decoded lines into symbols

  /** The decoded non-blank lines before the first line that fails, and that line's error. */
  function Scan(lines: seq<string>): (r: (seq<Decoded>, Option<FontError>))
    decreases |lines|
  {
    if |lines| == 0 then ([], None)
    else match DecodeLine(lines[0])
      case Failure(e) => ([], Some(e))
      case Success(None) => Scan(lines[1..])
      case Success(Some(d)) => var rest := Scan(lines[1..]); ([d] + rest.0, rest.1)
  }

  /** The loop of the loader over the remaining lines, with the symbols finished so far and
      the symbol being filled (`None` before the first start bit). */
  function Collect(lines: seq<string>, all: seq<SymbolDescription>, current: Option<SymbolDescription>)
    : Result<seq<SymbolDescription>, FontError>
    decreases |lines|
  {
    if |lines| == 0 then
      if current.None? then Failure(NoSymbol) else Success(all + [current.value])
    else match DecodeLine(lines[0])
      case Failure(e) => Failure(e)
      case Success(None) => Collect(lines[1..], all, current)
      case Success(Some(d)) =>
        var all' := if d.isStart && current.Some? then all + [current.value] else all;
        var current' := if d.isStart then Some([]) else current;
        if current'.None? then Failure(NoStartBit)
        else Collect(lines[1..], all', Some(current'.value + [d.instruction]))
  }

  /** `load_instructions`: the symbols of a font description, in file order. It fails with
      the first line error, with `NoStartBit` when an instruction precedes every start bit,
      and with `NoSymbol` when no line holds an instruction. Otherwise the symbols hold
      exactly the decoded instructions in order, each symbol starts at a start-bit line and
      is non-empty, and there are as many symbols as start-bit lines. */
  function LoadInstructions(lines: seq<string>): (r: Result<seq<SymbolDescription>, FontError>)
    ensures CollectOutcome(Scan(lines).0, Scan(lines).1, r)
    ensures r.Success? ==> |r.value| == CountTrue(Starts(Scan(lines).0))
  {
    var r := Collect(lines, [], None);
    CollectSpec(lines, [], None, []);
    assert [] + Scan(lines).0 == Scan(lines).0;
    if r.Success? then CountMarks(r.value); r else r
  }

  function Flatten(syms: seq<SymbolDescription>): seq<Instruction> {
    if |syms| == 0 then [] else Flatten(syms[..|syms| - 1]) + syms[|syms| - 1]
  }

  /** One flag per instruction of a symbol: set on its first instruction only. */
  function MarkOf(s: SymbolDescription): seq<bool> {
    if |s| == 0 then [] else [true] + seq(|s| - 1, _ => false)
  }

  function Marks(syms: seq<SymbolDescription>): seq<bool> {
    if |syms| == 0 then [] else Marks(syms[..|syms| - 1]) + MarkOf(syms[|syms| - 1])
  }

  function Instructions(ds: seq<Decoded>): seq<Instruction> {
    seq(|ds|, i requires 0 <= i < |ds| => ds[i].instruction)
  }

  function Starts(ds: seq<Decoded>): seq<bool> {
    seq(|ds|, i requires 0 <= i < |ds| => ds[i].isStart)
  }

  function CountTrue(b: seq<bool>): nat {
    if |b| == 0 then 0 else CountTrue(b[..|b| - 1]) + (if b[|b| - 1] then 1 else 0)
  }

  lemma CountTrueAppend(a: seq<bool>, b: seq<bool>)
    ensures CountTrue(a + b) == CountTrue(a) + CountTrue(b)
    decreases |b|
  {
    if |b| > 0 {
      assert (a + b)[..|a + b| - 1] == a + b[..|b| - 1];
      assert (a + b)[|a + b| - 1] == b[|b| - 1];
      CountTrueAppend(a, b[..|b| - 1]);
    } else {
      assert a + b == a;
    }
  }

  lemma CountFalse(n: nat)
    ensures CountTrue(seq(n, _ => false)) == 0
  {
    if n > 0 {
      assert seq(n, _ => false)[..n - 1] == seq(n - 1, _ => false);
      CountFalse(n - 1);
    }
  }

  /** Each non-empty symbol contributes exactly one set flag. */
  lemma {:induction false} CountMarks(syms: seq<SymbolDescription>)
    requires forall k :: 0 <= k < |syms| ==> |syms[k]| > 0
    ensures CountTrue(Marks(syms)) == |syms|
  {
    if |syms| > 0 {
      var last := syms[|syms| - 1];
      CountMarks(syms[..|syms| - 1]);
      CountTrueAppend(Marks(syms[..|syms| - 1]), MarkOf(last));
      CountTrueAppend([true], seq(|last| - 1, _ => false));
      CountFalse(|last| - 1);
      assert CountTrue([true]) == 1;
    }
  }

  lemma AppendSymbol(all: seq<SymbolDescription>, s: SymbolDescription)
    ensures Flatten(all + [s]) == Flatten(all) + s
    ensures Marks(all + [s]) == Marks(all) + MarkOf(s)
  {
    assert (all + [s])[..|all|] == all;
  }

  /** The state the loader's loop keeps: the finished symbols plus the current one hold
      exactly the instructions decoded so far, split at the start bits. */
  ghost predicate CollectInvariant(all: seq<SymbolDescription>, current: Option<SymbolDescription>, ds0: seq<Decoded>) {
    && (current.None? ==> all == [] && ds0 == [])
    && (current.Some? ==>
      && |current.value| > 0 && |ds0| > 0 && ds0[0].isStart
      && Flatten(all + [current.value]) == Instructions(ds0)
      && Marks(all + [current.value]) == Starts(ds0)
      && forall k :: 0 <= k < |all| ==> |all[k]| > 0)
  }

  /** What the loader's outcome is, given the state of its loop. */
  ghost predicate CollectOutcome(ds: seq<Decoded>, err: Option<FontError>, r: Result<seq<SymbolDescription>, FontError>) {
    && (|ds| > 0 && !ds[0].isStart ==> r == Failure(NoStartBit))
    && ((|ds| == 0 || ds[0].isStart) && err.Some? ==> r == Failure(err.value))
    && (|ds| == 0 && err.None? ==> r == Failure(NoSymbol))
    && (|ds| > 0 && ds[0].isStart && err.None? ==>
      && r.Success?
      && Flatten(r.value) == Instructions(ds)
      && Marks(r.value) == Starts(ds)
      && forall k :: 0 <= k < |r.value| ==> |r.value[k]| > 0)
  }

  /** One decoded line keeps the loop state invariant. */
  lemma CollectStep(all: seq<SymbolDescription>, current: Option<SymbolDescription>, ds0: seq<Decoded>, d: Decoded)
    requires CollectInvariant(all, current, ds0)
    requires d.isStart || current.Some?
    ensures var all' := if d.isStart && current.Some? then all + [current.value] else all;
      var next := (if d.isStart then [] else current.value) + [d.instruction];
      CollectInvariant(all', Some(next), ds0 + [d])
  {
    var all' := if d.isStart && current.Some? then all + [current.value] else all;
    var next := (if d.isStart then [] else current.value) + [d.instruction];
    assert Instructions(ds0 + [d]) == Instructions(ds0) + [d.instruction];
    assert Starts(ds0 + [d]) == Starts(ds0) + [d.isStart];
    AppendSymbol(all', next);
    if d.isStart {
      assert MarkOf(next) == [true];
      if current.Some? {
        AppendSymbol(all, current.value);
      }
    } else {
      AppendSymbol(all, current.value);
      assert MarkOf(next) == MarkOf(current.value) + [false];
    }
  }

  lemma {:induction false} CollectSpec(
    lines: seq<string>, all: seq<SymbolDescription>, current: Option<SymbolDescription>, ds0: seq<Decoded>)
    requires CollectInvariant(all, current, ds0)
    ensures CollectOutcome(ds0 + Scan(lines).0, Scan(lines).1, Collect(lines, all, current))
    decreases |lines|
  {
    if |lines| == 0 {
      assert ds0 + Scan(lines).0 == ds0;
    } else {
      var line := DecodeLine(lines[0]);
      if line.Failure? {
        CollectFailedLine(lines, all, current, ds0);
      } else if line.value.None? {
        assert Scan(lines) == Scan(lines[1..]);
        assert Collect(lines, all, current) == Collect(lines[1..], all, current);
        CollectSpec(lines[1..], all, current, ds0);
      } else {
        var d := line.value.value;
        if d.isStart || current.Some? {
          var all' := if d.isStart && current.Some? then all + [current.value] else all;
          var next := (if d.isStart then [] else current.value) + [d.instruction];
          CollectDecodedLine(lines, all, current, ds0);
          CollectStep(all, current, ds0, d);
          CollectSpec(lines[1..], all', Some(next), ds0 + [d]);
        } else {
          CollectOrphanLine(lines, all, current, ds0);
        }
      }
    }
  }

  lemma CollectFailedLine(
    lines: seq<string>, all: seq<SymbolDescription>, current: Option<SymbolDescription>, ds0: seq<Decoded>)
    requires CollectInvariant(all, current, ds0)
    requires |lines| > 0 && DecodeLine(lines[0]).Failure?
    ensures CollectOutcome(ds0 + Scan(lines).0, Scan(lines).1, Collect(lines, all, current))
  {
    var e := DecodeLine(lines[0]).error;
    assert Scan(lines) == ([], Some(e));
    assert Collect(lines, all, current) == Failure(e);
    assert ds0 + Scan(lines).0 == ds0;
  }

  lemma CollectOrphanLine(
    lines: seq<string>, all: seq<SymbolDescription>, current: Option<SymbolDescription>, ds0: seq<Decoded>)
    requires CollectInvariant(all, current, ds0)
    requires |lines| > 0 && DecodeLine(lines[0]).Success? && DecodeLine(lines[0]).value.Some?
    requires !DecodeLine(lines[0]).value.value.isStart && current.None?
    ensures CollectOutcome(ds0 + Scan(lines).0, Scan(lines).1, Collect(lines, all, current))
  {
    var d := DecodeLine(lines[0]).value.value;
    var rest := Scan(lines[1..]);
    assert Scan(lines) == ([d] + rest.0, rest.1);
    assert (ds0 + Scan(lines).0)[0] == d;
    assert Collect(lines, all, current) == Failure(NoStartBit);
  }

  lemma CollectDecodedLine(
    lines: seq<string>, all: seq<SymbolDescription>, current: Option<SymbolDescription>, ds0: seq<Decoded>)
    requires |lines| > 0 && DecodeLine(lines[0]).Success? && DecodeLine(lines[0]).value.Some?
    requires DecodeLine(lines[0]).value.value.isStart || current.Some?
    ensures var d := DecodeLine(lines[0]).value.value;
      var all' := if d.isStart && current.Some? then all + [current.value] else all;
      var next := (if d.isStart then [] else current.value) + [d.instruction];
      && Collect(lines, all, current) == Collect(lines[1..], all', Some(next))
      && ds0 + Scan(lines).0 == (ds0 + [d]) + Scan(lines[1..]).0
      && Scan(lines).1 == Scan(lines[1..]).1
  {
    var d := DecodeLine(lines[0]).value.value;
    var rest := Scan(lines[1..]);
    assert Scan(lines) == ([d] + rest.0, rest.1);
  }

  // ---------------------------------------------------------------------------------------
  // Numbering the symbols

  /** The glyph of the space key: one clearing instruction over the whole cell. */
  function Space(): SymbolDescription {
    [Instruction(true, 0, true, 4, 0, true, 10)]
  }

  /** A numbered font has no glyph and no key under the line-break code: the ids stop at
      `|KEYS|`, which is below it. */
  lemma LineBreakHasNoGlyph(f: Font, symbols: seq<SymbolDescription>)
    requires Numbered(f, symbols)
    ensures NEWLINE !in f.symbolsById && NEWLINE !in f.keysById
  {
  }

  /** The font the editor uses: the space gets id 0 and the i-th key of `KEYS` gets id i + 1
      together with the i-th symbol of the description. */
  ghost predicate Numbered(f: Font, symbols: seq<SymbolDescription>) {
    && |symbols| == |KEYS|
    && f.space == Space()
    && f.highestId as int == |KEYS|
    && (forall k :: k in f.idsByKey <==> k == ' ' || k in KEYS)
    && (forall n: byte :: n in f.keysById <==> n as int <= |KEYS|)
    && f.symbolsByKey.Keys == f.idsByKey.Keys
    && f.symbolsById.Keys == f.keysById.Keys
    && f.idsByKey[' '] == 0 && f.keysById[0] == ' '
    && f.symbolsByKey[' '] == Space() && f.symbolsById[0] == Space()
    && forall i :: 0 <= i < |KEYS| ==>
      && f.idsByKey[KEYS[i]] as int == i + 1
      && f.keysById[(i + 1) as byte] == KEYS[i]
      && f.symbolsByKey[KEYS[i]] == symbols[i]
      && f.symbolsById[(i + 1) as byte] == symbols[i]
  }

  /** The numbering loop of the loader, after the symbol count was checked. */
  method BuildFont(symbols: seq<SymbolDescription>) returns (f: Font)
    requires |symbols| == |KEYS|
    ensures Numbered(f, symbols)
  {
    KeysDistinct();
    var symbolsByKey := map[' ' := Space()];
    var symbolsById := map[0 as byte := Space()];
    var keysById := map[0 as byte := ' '];
    var idsByKey := map[' ' := 0 as byte];
    var counter: byte := 0;
    var i := 0;
    while i < |KEYS|
      invariant 0 <= i <= |KEYS| && counter as int == i
      invariant forall k :: k in idsByKey <==> k == ' ' || k in KEYS[..i]
      invariant forall n: byte :: n in keysById <==> n as int <= i
      invariant symbolsByKey.Keys == idsByKey.Keys && symbolsById.Keys == keysById.Keys
      invariant idsByKey[' '] == 0 && keysById[0] == ' '
      invariant symbolsByKey[' '] == Space() && symbolsById[0] == Space()
      invariant forall j :: 0 <= j < i ==>
        && idsByKey[KEYS[j]] as int == j + 1
        && keysById[(j + 1) as byte] == KEYS[j]
        && symbolsByKey[KEYS[j]] == symbols[j]
        && symbolsById[(j + 1) as byte] == symbols[j]
    {
      var key := KEYS[i];
      counter := counter + 1;
      symbolsByKey := symbolsByKey[key := symbols[i]];
      symbolsById := symbolsById[counter := symbols[i]];
      keysById := keysById[counter := key];
      idsByKey := idsByKey[key := counter];
      assert KEYS[..i + 1] == KEYS[..i] + [key];
      i := i + 1;
    }
    assert KEYS[..i] == KEYS;
    f := Font(Space(), symbolsByKey, symbolsById, keysById, idsByKey, counter);
  }

  /** `load_font`: the description's symbols, checked against the number of keys, then
      numbered. Every loading error is passed on. */
  method LoadFont(lines: seq<string>) returns (r: Result<Font, FontError>)
    ensures LoadInstructions(lines).Failure? ==> r == Failure(LoadInstructions(lines).error)
    ensures LoadInstructions(lines).Success? && |LoadInstructions(lines).value| != |KEYS| ==>
      r == Failure(WrongSymbolCount(|LoadInstructions(lines).value|))
    ensures r.Success? <==> LoadInstructions(lines).Success? && |LoadInstructions(lines).value| == |KEYS|
    ensures r.Success? ==> Numbered(r.value, LoadInstructions(lines).value)
  {
    var symbols := LoadInstructions(lines);
    if symbols.Failure? {
      return Failure(symbols.error);
    }
    if |symbols.value| != |KEYS| {
      return Failure(WrongSymbolCount(|symbols.value|));
    }
    var f := BuildFont(symbols.value);
    return Success(f);
  }

  /** In a numbered font the two key maps are inverse bijections between the keys (with the
      space) and the ids `0..highestId`. */
  lemma NumberedInverse(f: Font, symbols: seq<SymbolDescription>)
    requires Numbered(f, symbols)
    ensures forall k :: k in f.idsByKey ==> f.idsByKey[k] in f.keysById && f.keysById[f.idsByKey[k]] == k
    ensures forall n :: n in f.keysById ==> f.keysById[n] in f.idsByKey && f.idsByKey[f.keysById[n]] == n
    ensures forall k :: k in f.idsByKey ==> f.symbolsById[f.idsByKey[k]] == f.symbolsByKey[k]
  {
    KeysDistinct();
    RankOfKeys();
    forall k | k in f.idsByKey
      ensures f.idsByKey[k] in f.keysById && f.keysById[f.idsByKey[k]] == k
      ensures f.symbolsById[f.idsByKey[k]] == f.symbolsByKey[k]
    {
      if k != ' ' {
        var i := Rank(k);
        assert 0 <= i < |KEYS| && KEYS[i] == k;
      }
    }
    forall n | n in f.keysById
      ensures f.keysById[n] in f.idsByKey && f.idsByKey[f.keysById[n]] == n
    {
      if n != 0 {
        var i := n as int - 1;
        assert f.keysById[(i + 1) as byte] == KEYS[i];
      }
    }
  }
}
