/** Key resolution of the typewriter: which character a key press types, on a German layout
    where the Y and Z keys are swapped. */
module Keyboard {
  import opened Wrappers
  import Font

  type LetterOffset = n: nat | n < 26
  type Digit = n: nat | n < 10

  /** The keys the editor distinguishes. `Letter(o)` is the key `o` places after A in the
      scancode order, `Num(d)` the digit key `d` of the main row. */
  datatype Scancode =
    | Letter(offset: LetterOffset)
    | Num(digit: Digit)
    | Space | Comma | Period | Slash | Minus | Backslash | RightBracket
    | Backspace | Left | Right | Return
    | Other

  /** Offset 24 (the Y key) and offset 25 (the Z key) trade places. */
  function SwapYZ(o: LetterOffset): (r: LetterOffset)
    ensures o < 24 ==> r == o
    ensures o == 24 <==> r == 25
    ensures o == 25 <==> r == 24
  {
    if o == 25 then 24 else if o == 24 then 25 else o
  }

  /** The character a key types, `None` for keys that type nothing. */
  function ResolveSymbol(key: Scancode, shift: bool): (r: Option<char>)
    ensures key.Backspace? || key.Left? || key.Right? || key.Return? || key.Other? ==> r.None?
    ensures key.Space? ==> r == Some(' ')
    ensures key.Letter? ==> r.Some? && (if shift then 'A' <= r.value <= 'Z' else 'a' <= r.value <= 'z')
    ensures r.Some? ==> r.value as int < 0x80
  {
    if shift then
      match key
      case Letter(o) => Some(('A' as int + SwapYZ(o)) as char)
      case Space => Some(' ')
      case Num(d) =>
        if d == 1 then Some('!') else if d == 2 then Some('"') else if d == 7 then Some('/')
        else if d == 8 then Some('(') else if d == 9 then Some(')') else if d == 0 then Some('=')
        else None
      case Period => Some(':')
      case Backslash => Some('\'')
      case RightBracket => Some('*')
      case Minus => Some('?')
      case _ => None
    else
      match key
      case Letter(o) => Some(('a' as int + SwapYZ(o)) as char)
      case Num(d) => Some(('0' as int + d) as char)
      case Space => Some(' ')
      case Comma => Some(',')
      case Period => Some('.')
      case Slash => Some('-')
      case RightBracket => Some('+')
      case _ => None
  }

  /** The key (and shift state) that types `c`, for the characters some key types. */
  function KeyFor(c: char): Option<(Scancode, bool)> {
    if 'A' <= c <= 'Z' then Some((Letter(SwapYZ(c as int - 'A' as int)), true))
    else if 'a' <= c <= 'z' then Some((Letter(SwapYZ(c as int - 'a' as int)), false))
    else if '0' <= c <= '9' then Some((Num(c as int - '0' as int), false))
    else match c
      case ' ' => Some((Space, false))
      case '!' => Some((Num(1), true))
      case '"' => Some((Num(2), true))
      case '/' => Some((Num(7), true))
      case '(' => Some((Num(8), true))
      case ')' => Some((Num(9), true))
      case '=' => Some((Num(0), true))
      case ':' => Some((Period, true))
      case '\'' => Some((Backslash, true))
      case '*' => Some((RightBracket, true))
      case '?' => Some((Minus, true))
      case ',' => Some((Comma, false))
      case '.' => Some((Period, false))
      case '-' => Some((Slash, false))
      case '+' => Some((RightBracket, false))
      case _ => None
  }

  /** The Y/Z swap undoes itself. */
  lemma SwapInvolution(o: LetterOffset)
    ensures SwapYZ(SwapYZ(o)) == o
  {
  }

  /** Letter keys type their letter with Y and Z swapped: upper case with shift, lower case
      without. Unshifted digit keys type their digit. */
  lemma ResolveLetterAndDigit(key: Scancode, shift: bool)
    ensures key.Letter? ==> ResolveSymbol(key, shift).Some?
    ensures key.Letter? && shift ==>
      var c := ResolveSymbol(key, shift).value;
      'A' <= c <= 'Z' && c as int - 'A' as int == SwapYZ(key.offset)
    ensures key.Letter? && !shift ==>
      var c := ResolveSymbol(key, shift).value;
      'a' <= c <= 'z' && c as int - 'a' as int == SwapYZ(key.offset)
    ensures key.Num? && !shift ==>
      var c := ResolveSymbol(key, shift);
      c.Some? && '0' <= c.value <= '9' && c.value as int - '0' as int == key.digit
  {
  }

  /** The keys that type nothing: the editing keys, unlisted keys, and the shifted comma,
      slash and digits 3 to 6; unshifted minus and backslash. */
  lemma ResolveNone(key: Scancode, shift: bool)
    ensures ResolveSymbol(key, shift).None? <==>
      || key.Backspace? || key.Left? || key.Right? || key.Return? || key.Other?
      || (shift && (key.Comma? || key.Slash? || (key.Num? && 3 <= key.digit <= 6)))
      || (!shift && (key.Minus? || key.Backslash?))
  {
  }

  /** `KeyFor` finds a key for every character it knows, and that key types the character. */
  lemma {:induction false} ResolveKeyFor(c: char)
    requires KeyFor(c).Some?
    ensures ResolveSymbol(KeyFor(c).value.0, KeyFor(c).value.1) == Some(c)
  {
    if 'A' <= c <= 'Z' {
      SwapInvolution(c as int - 'A' as int);
    } else if 'a' <= c <= 'z' {
      SwapInvolution(c as int - 'a' as int);
    }
  }

  /** Conversely every typed character leads back to its key; only the space is typed by the
      space key with and without shift, and `KeyFor` answers the unshifted one. */
  lemma {:induction false} KeyForResolve(key: Scancode, shift: bool)
    requires ResolveSymbol(key, shift).Some?
    ensures KeyFor(ResolveSymbol(key, shift).value) == Some((key, shift && !key.Space?))
  {
    if key.Letter? {
      SwapInvolution(key.offset);
    }
  }

  /** Every character some key types has a glyph: it is the space or one of the font keys. */
  lemma TypedHasGlyph(c: char)
    requires KeyFor(c).Some?
    ensures c == ' ' || c in Font.KEYS
  {
    var k := Font.KEYS;
    assert k == Font.UPPER + Font.LOWER + Font.PUNCTUATION + Font.DIGITS + Font.OPERATORS;
    if 'A' <= c <= 'Z' {
      assert k[c as int - 'A' as int] == c;
    } else if 'a' <= c <= 'z' {
      assert k[26 + c as int - 'a' as int] == c;
    } else if '0' <= c <= '9' {
      assert k[59 + c as int - '0' as int] == c;
    } else {
      match c
      case ' ' =>
      case '?' => assert k[52] == c;
      case '!' => assert k[53] == c;
      case '.' => assert k[54] == c;
      case ',' => assert k[55] == c;
      case ':' => assert k[56] == c;
      case '\'' => assert k[57] == c;
      case '"' => assert k[58] == c;
      case '+' => assert k[69] == c;
      case '-' => assert k[70] == c;
      case '*' => assert k[71] == c;
      case '/' => assert k[72] == c;
      case '=' => assert k[73] == c;
      case '(' => assert k[74] == c;
      case ')' => assert k[75] == c;
    }
  }

  /** Whatever a key types is the space or a font key, so a numbered font has an id for it. */
  lemma ResolvedHasGlyph(key: Scancode, shift: bool)
    requires ResolveSymbol(key, shift).Some?
    ensures ResolveSymbol(key, shift).value == ' ' || ResolveSymbol(key, shift).value in Font.KEYS
  {
    KeyForResolve(key, shift);
    TypedHasGlyph(ResolveSymbol(key, shift).value);
  }
}
