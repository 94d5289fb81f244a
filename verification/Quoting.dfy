/** Go's quoted strings, and the quoted scalars of YAML (sections 5.7 and 7.3 of YAML 1.2.2). */
module Quoting {
  import opened Wrappers

  // The printer: the verb %q of Go's fmt

  const HEX := "0123456789abcdef"

  function Hex(n: nat, width: nat): (s: string)
    ensures |s| == width
  {
    if width == 0 then "" else Hex(n / 16, width - 1) + [HEX[n % 16]]
  }

  /** A character inside the quotes; `isPrint` is strconv.IsPrint. */
  function EscapeChar(isPrint: char -> bool, c: char): string {
    if c == '"' || c == '\\' then ['\\', c]
    else if isPrint(c) then [c]
    else match c as int
         case 7 => "\\a"
         case 8 => "\\b"
         case 12 => "\\f"
         case 10 => "\\n"
         case 13 => "\\r"
         case 9 => "\\t"
         case 11 => "\\v"
         case _ =>
           if c < ' ' then "\\x" + Hex(c as int, 2)
           else if c as int < 0x10000 then "\\u" + Hex(c as int, 4)
           else "\\U" + Hex(c as int, 8)
  }

  function Escape(isPrint: char -> bool, s: string): string {
    if s == "" then "" else EscapeChar(isPrint, s[0]) + Escape(isPrint, s[1..])
  }

  function Quote(isPrint: char -> bool, s: string): string {
    "\"" + Escape(isPrint, s) + "\""
  }

  // The reader

  function HexDigit(c: char): Option<nat> {
    if '0' <= c <= '9' then Some(c as int - '0' as int)
    else if 'a' <= c <= 'f' then Some(c as int - 'a' as int + 10)
    else if 'A' <= c <= 'F' then Some(c as int - 'A' as int + 10)
    else None
  }

  function HexValue(s: string): Option<nat> {
    if s == "" then Some(0)
    else
      var high, low := HexValue(s[..|s| - 1]), HexDigit(s[|s| - 1]);
      if high.None? || low.None? then None else Some(16 * high.value + low.value)
  }

  predicate IsScalarValue(n: int) {
    0 <= n < 0xD800 || 0xE000 <= n < 0x110000
  }

  /** The character of a one-letter escape. */
  function Simple(c: char): Option<int> {
    match c
    case '0' => Some(0)
    case 'a' => Some(7)
    case 'b' => Some(8)
    case 't' => Some(9)
    case '\t' => Some(9)
    case 'n' => Some(10)
    case 'v' => Some(11)
    case 'f' => Some(12)
    case 'r' => Some(13)
    case 'e' => Some(27)
    case ' ' => Some(32)
    case '"' => Some(34)
    case '/' => Some(47)
    case '\\' => Some(92)
    case 'N' => Some(0x85)
    case '_' => Some(0xA0)
    case 'L' => Some(0x2028)
    case 'P' => Some(0x2029)
    case _ => None
  }

  function HexWidth(c: char): nat {
    if c == 'x' then 2 else if c == 'u' then 4 else if c == 'U' then 8 else 0
  }

  /** The rest of a double-quoted scalar that ends with the text. */
  function Unescape(s: string): Option<string>
    decreases |s|
  {
    if s == "" then None
    else if s[0] == '"' then (if |s| == 1 then Some("") else None)
    else if s[0] != '\\' then Prepend(s[0], Unescape(s[1..]))
    else if |s| < 2 then None
    else
      var width := HexWidth(s[1]);
      var n := if width == 0 then Simple(s[1]) else if |s| < 2 + width then None else HexValue(s[2..2 + width]);
      if n.None? || |s| < 2 + width || !IsScalarValue(n.value) then None
      else Prepend(n.value as char, Unescape(s[2 + width..]))
  }

  function Prepend(c: char, s: Option<string>): Option<string> {
    match s
    case None => None
    case Some(v) => Some([c] + v)
  }

  /** The rest of a single-quoted scalar that ends with the text; a quote is doubled. */
  function UnquoteSingle(s: string): Option<string>
    decreases |s|
  {
    if s == "" then None
    else if s[0] != '\'' then Prepend(s[0], UnquoteSingle(s[1..]))
    else if |s| == 1 then Some("")
    else if s[1] == '\'' then Prepend('\'', UnquoteSingle(s[2..]))
    else None
  }

  function Scalar(s: string): Option<string> {
    if s == "" then None
    else if s[0] == '"' then Unescape(s[1..])
    else if s[0] == '\'' then UnquoteSingle(s[1..])
    else None
  }

  // What the readers make of each escape

  /** The escapes of section 5.7 that the printer uses, each for one character. */
  lemma SimpleEscapes(letter: char, rest: string)
    requires letter in "\"\\abtnvfr"
    ensures Unescape(['\\', letter] + rest)
         == Prepend(if letter == 'a' then 7 as char else if letter == 'b' then 8 as char else if letter == 't' then 9 as char
                    else if letter == 'n' then 10 as char else if letter == 'v' then 11 as char
                    else if letter == 'f' then 12 as char else if letter == 'r' then 13 as char else letter,
                    Unescape(rest))
  {
    EscapeOf(letter, rest);
  }

  lemma EscapeOf(letter: char, rest: string)
    requires Simple(letter).Some? && HexWidth(letter) == 0 && IsScalarValue(Simple(letter).value)
    ensures Unescape(['\\', letter] + rest) == Prepend(Simple(letter).value as char, Unescape(rest))
  {
    assert (['\\', letter] + rest)[2..] == rest;
  }

  /** Two, four and eight digits, the first counting most. */
  lemma HexEscape(digits: string, letter: char, rest: string)
    requires (letter == 'x' && |digits| == 2) || (letter == 'u' && |digits| == 4) || (letter == 'U' && |digits| == 8)
    ensures Unescape(['\\', letter] + digits + rest)
         == if HexValue(digits).None? || !IsScalarValue(HexValue(digits).value) then None
            else Prepend(HexValue(digits).value as char, Unescape(rest))
  {
    var s := ['\\', letter] + digits + rest;
    assert s[2..2 + |digits|] == digits && s[2 + |digits|..] == rest;
  }

  lemma DigitsOfTwo(high: char, low: char)
    requires (('0' <= high <= '9') || ('a' <= high <= 'f')) && (('0' <= low <= '9') || ('a' <= low <= 'f'))
    ensures HexValue([high, low])
         == Some(16 * (if high <= '9' then high as int - 48 else high as int - 87) + (if low <= '9' then low as int - 48 else low as int - 87))
  {
    assert [high, low][..1] == [high] && [high][..0] == [];
    assert HexValue([high]) == Some(if high <= '9' then high as int - 48 else high as int - 87);
  }

  // The round trip

  lemma HexDigits(n: nat)
    requires n < 16
    ensures HexDigit(HEX[n]) == Some(n)
  {
  }

  function Power16(width: nat): nat {
    if width == 0 then 1 else 16 * Power16(width - 1)
  }

  lemma {:induction false} HexReadsBack(n: nat, width: nat)
    requires n < Power16(width)
    ensures HexValue(Hex(n, width)) == Some(n)
  {
    if width > 0 {
      var s := Hex(n, width);
      assert s[..width - 1] == Hex(n / 16, width - 1);
      HexReadsBack(n / 16, width - 1);
      HexDigits(n % 16);
    }
  }

  predicate ControlsEscaped(isPrint: char -> bool) {
    forall c: char | c < ' ' :: !isPrint(c)
  }

  /** Whatever counts as printable, one escaped character is read back. */
  lemma CharReadsBack(isPrint: char -> bool, c: char, rest: string)
    ensures Unescape(EscapeChar(isPrint, c) + rest) == Prepend(c, Unescape(rest))
  {
    var e := EscapeChar(isPrint, c);
    var s := e + rest;
    if |e| == 1 {
      assert s[1..] == rest;
    } else if |e| == 2 {
      assert s[0] == '\\' && s[2..] == rest;
    } else {
      HexEscapeReadsBack(c, e[1], rest);
      assert e == ['\\', e[1]] + Hex(c as int, HexWidth(e[1]));
    }
  }

  lemma HexEscapeReadsBack(c: char, letter: char, rest: string)
    requires letter == 'x' || letter == 'u' || letter == 'U'
    requires (c as int) < Power16(HexWidth(letter))
    ensures Unescape(['\\', letter] + Hex(c as int, HexWidth(letter)) + rest) == Prepend(c, Unescape(rest))
  {
    var width := HexWidth(letter);
    var s := ['\\', letter] + Hex(c as int, width) + rest;
    assert s[2..2 + width] == Hex(c as int, width) && s[2 + width..] == rest;
    HexReadsBack(c as int, width);
  }

  lemma {:induction false} EscapeReadsBack(isPrint: char -> bool, s: string)
    ensures Unescape(Escape(isPrint, s) + "\"") == Some(s)
  {
    if s == "" {
      assert Escape(isPrint, s) + "\"" == "\"";
    } else {
      EscapeReadsBack(isPrint, s[1..]);
      var rest := Escape(isPrint, s[1..]) + "\"";
      CharReadsBack(isPrint, s[0], rest);
      assert Escape(isPrint, s) + "\"" == EscapeChar(isPrint, s[0]) + rest;
      assert [s[0]] + s[1..] == s;
    }
  }

  /** Every text, printed with %q and read as a double-quoted scalar, is itself. */
  lemma QuoteReadsBack(isPrint: char -> bool, s: string)
    ensures Scalar(Quote(isPrint, s)) == Some(s)
  {
    EscapeReadsBack(isPrint, s);
    assert Quote(isPrint, s)[1..] == Escape(isPrint, s) + "\"";
  }

  lemma {:induction false} SingleReadsBack(s: string)
    requires '\'' !in s
    ensures UnquoteSingle(s + "'") == Some(s)
  {
    if s == "" {
      assert s + "'" == "'";
    } else {
      SingleReadsBack(s[1..]);
      assert (s + "'")[1..] == s[1..] + "'" && [s[0]] + s[1..] == s;
    }
  }

  // A quoted text stays on its line.

  lemma {:induction false} HexIsOneLine(n: nat, width: nat)
    ensures '\n' !in Hex(n, width)
  {
    if width > 0 {
      HexIsOneLine(n / 16, width - 1);
      HexDigits(n % 16);
    }
  }

  lemma {:induction false} EscapeIsOneLine(isPrint: char -> bool, s: string)
    requires ControlsEscaped(isPrint)
    ensures '\n' !in Escape(isPrint, s)
  {
    if s != "" {
      EscapeIsOneLine(isPrint, s[1..]);
      EscapeCharIsOneLine(isPrint, s[0]);
    }
  }

  lemma EscapeCharIsOneLine(isPrint: char -> bool, c: char)
    requires ControlsEscaped(isPrint)
    ensures '\n' !in EscapeChar(isPrint, c)
  {
    HexIsOneLine(c as int, 2);
    HexIsOneLine(c as int, 4);
    HexIsOneLine(c as int, 8);
  }
}
