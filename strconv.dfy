/**
 * The number and quoting conversions the metadata parser and the snapshot
 * names rely on: decimal parsing into uint32 and int64 with Go's range
 * checks, decimal formatting and zero padding, hexadecimal digit strings, and
 * the double-quoted form of a string that `%q` prints, with its inverse.
 */
module Strconv {
  import opened Wrappers
  import opened Ints
  import opened Strings

  function DigitValue(c: char): (d: nat)
    requires IsDigit(c)
    ensures d < 10
  {
    c as int - '0' as int
  }

  /** The value of a string of decimal digits, most significant first; leading zeros count for nothing. */
  function DecimalValue(s: string): nat
    requires AllDigits(s)
    decreases |s|
  {
    if |s| == 0 then 0 else DecimalValue(s[..|s| - 1]) * 10 + DigitValue(s[|s| - 1])
  }

  /**
   * `strconv.ParseUint(s, 10, 32)`: one or more decimal digits (no sign, no
   * underscore) whose value fits in 32 bits.
   */
  function ParseUint32(s: string): (r: Option<u32>)
    ensures r.Some? <==> |s| > 0 && AllDigits(s) && DecimalValue(s) < U32_LIMIT
    ensures r.Some? ==> r.value == DecimalValue(s)
  {
    if |s| > 0 && AllDigits(s) && DecimalValue(s) < U32_LIMIT then Some(DecimalValue(s)) else None
  }

  /**
   * `strconv.ParseInt(s, 10, 64)`: an optional `+` or `-`, then one or more
   * decimal digits, whose signed value lies in [-2^63, 2^63).
   */
  function ParseInt64(s: string): (r: Option<i64>)
    ensures r.Some? ==> |s| > 0
    ensures |s| > 0 && AllDigits(s) ==> (r.Some? <==> DecimalValue(s) <= I64_MAX)
    ensures |s| > 0 && AllDigits(s) && r.Some? ==> r.value == DecimalValue(s)
  {
    if |s| == 0 then None
    else
      var negative := s[0] == '-';
      var digits := if s[0] == '+' || s[0] == '-' then s[1..] else s;
      if |digits| == 0 || !AllDigits(digits) then None
      else
        var magnitude: int := DecimalValue(digits);
        if negative then (if magnitude > -I64_MIN then None else Some(-magnitude))
        else if magnitude > I64_MAX then None
        else Some(magnitude)
  }

  function DigitChar(d: nat): (c: char)
    requires d < 10
    ensures IsDigit(c) && DigitValue(c) == d
  {
    ('0' as int + d) as char
  }

  /** The decimal numeral of `n`, as `%d` prints it. */
  function FormatDecimal(n: nat): (s: string)
    ensures |s| > 0 && AllDigits(s)
    ensures DecimalValue(s) == n
    decreases n
  {
    if n < 10 then [DigitChar(n)]
    else
      var front := FormatDecimal(n / 10);
      var s := front + [DigitChar(n % 10)];
      assert s[..|s| - 1] == front;
      s
  }

  /** A signed decimal numeral, with `-` before a negative one. */
  function FormatInt(v: int): string
  {
    if v < 0 then "-" + FormatDecimal(-v) else FormatDecimal(v)
  }

  /** Parsing gives back every uint32 that is formatted. */
  lemma ParseFormatUint32(n: u32)
    ensures ParseUint32(FormatDecimal(n)) == Some(n)
  {
  }

  /** Parsing gives back every int64 that is formatted. */
  lemma ParseFormatInt64(v: i64)
    ensures ParseInt64(FormatInt(v)) == Some(v)
  {
    var m: int := v;
    if m < 0 {
      var s := "-" + FormatDecimal(-m);
      assert s[1..] == FormatDecimal(-m);
    } else {
      assert FormatDecimal(v)[0] != '+' && FormatDecimal(v)[0] != '-';
    }
  }

  /** `s` left-padded with zeros to at least `width` characters, as `%0<width>d` pads a numeral. */
  function ZeroPad(s: string, width: nat): (r: string)
    ensures |r| == if |s| >= width then |s| else width
  {
    if |s| >= width then s else seq(width - |s|, _ => '0') + s
  }

  /** The padded numeral ends with the numeral, and what the padding adds is zeros only. */
  lemma ZeroPadShape(s: string, width: nat)
    ensures ZeroPad(s, width)[|ZeroPad(s, width)| - |s|..] == s
    ensures forall i | 0 <= i < |ZeroPad(s, width)| - |s| :: ZeroPad(s, width)[i] == '0'
  {
  }

  /** Zero padding keeps a numeral's value. */
  lemma ZeroPadValue(s: string, width: nat)
    requires AllDigits(s)
    ensures AllDigits(ZeroPad(s, width))
    ensures DecimalValue(ZeroPad(s, width)) == DecimalValue(s)
  {
    if |s| < width {
      LeadingZeros(seq(width - |s|, _ => '0'), s);
    }
  }

  lemma {:induction false} LeadingZeros(zeros: string, s: string)
    requires forall i | 0 <= i < |zeros| :: zeros[i] == '0'
    requires AllDigits(s)
    ensures AllDigits(zeros + s)
    ensures DecimalValue(zeros + s) == DecimalValue(s)
    decreases |s|
  {
    var t := zeros + s;
    if |s| == 0 {
      assert t == zeros;
      ZerosValue(zeros);
    } else {
      assert t[..|t| - 1] == zeros + s[..|s| - 1];
      LeadingZeros(zeros, s[..|s| - 1]);
    }
  }

  lemma {:induction false} ZerosValue(zeros: string)
    requires forall i | 0 <= i < |zeros| :: zeros[i] == '0'
    ensures AllDigits(zeros) && DecimalValue(zeros) == 0
    decreases |zeros|
  {
    if |zeros| > 0 {
      ZerosValue(zeros[..|zeros| - 1]);
    }
  }

  /** A hexadecimal digit in either case. */
  predicate IsHexDigit(c: char)
  {
    IsDigit(c) || 'a' <= c <= 'f' || 'A' <= c <= 'F'
  }

  predicate AllHexDigits(s: string)
  {
    forall i | 0 <= i < |s| :: IsHexDigit(s[i])
  }

  function HexDigitValue(c: char): (d: nat)
    requires IsHexDigit(c)
    ensures d < 16
  {
    if IsDigit(c) then DigitValue(c)
    else if 'a' <= c <= 'f' then c as int - 'a' as int + 10
    else c as int - 'A' as int + 10
  }

  /** The value of a string of hexadecimal digits, most significant first. */
  function HexValue(s: string): nat
    requires AllHexDigits(s)
    decreases |s|
  {
    if |s| == 0 then 0 else HexValue(s[..|s| - 1]) * 16 + HexDigitValue(s[|s| - 1])
  }

  function Pow16(n: nat): (p: nat)
    ensures p > 0
  {
    if n == 0 then 1 else 16 * Pow16(n - 1)
  }

  /** `n` hexadecimal digits hold a value below 16^n. */
  lemma {:induction false} HexValueBound(s: string)
    requires AllHexDigits(s)
    ensures HexValue(s) < Pow16(|s|)
    decreases |s|
  {
    if |s| > 0 {
      var front := s[..|s| - 1];
      HexValueBound(front);
      MulMonotone(HexValue(front) + 1, Pow16(|front|), 16);
    }
  }

  /** Eight hexadecimal digits hold a value below 2^32. */
  lemma EightHexDigits(s: string)
    requires AllHexDigits(s) && |s| == 8
    ensures HexValue(s) < U32_LIMIT
  {
    HexValueBound(s);
    assert Pow16(8) == U32_LIMIT by {
      assert Pow16(4) == 0x1_0000;
      assert Pow16(8) == 0x1_0000 * Pow16(4);
    }
  }

  /** The digits `0`..`9`, `a`..`f` that Go uses in `\x` escapes. */
  function LowerHexDigit(d: nat): (c: char)
    requires d < 16
    ensures IsHexDigit(c) && HexDigitValue(c) == d
  {
    if d < 10 then DigitChar(d) else ('a' as int + d - 10) as char
  }

  /**
   * How `%q` writes one character between the quotes: the quote and the
   * backslash are backslashed; printable ASCII is itself; the seven C control
   * escapes are used where they exist; any other ASCII control and DEL is
   * `\x` and two lower-case hex digits; other characters are written as they
   * are.
   */
  function EscapeChar(c: char): string
  {
    if c == '"' || c == '\\' then ['\\', c]
    else if ' ' <= c <= '~' then [c]
    else if c == '\U{0007}' then "\\a"
    else if c == '\U{0008}' then "\\b"
    else if c == '\U{000C}' then "\\f"
    else if c == '\n' then "\\n"
    else if c == '\r' then "\\r"
    else if c == '\t' then "\\t"
    else if c == '\U{000B}' then "\\v"
    else if c < ' ' || c == '\U{007F}' then ['\\', 'x', LowerHexDigit(c as int / 16), LowerHexDigit(c as int % 16)]
    else [c]
  }

  function Escape(s: string): string
    decreases |s|
  {
    if |s| == 0 then "" else EscapeChar(s[0]) + Escape(s[1..])
  }

  /** `%q` of a string: the escaped characters between double quotes. */
  function Quote(s: string): (q: string)
    ensures |q| >= 2 && q[0] == '"' && q[|q| - 1] == '"'
  {
    "\"" + Escape(s) + "\""
  }

  /** The character a backslash escape with this letter stands for. */
  function EscapedChar(e: char): Option<char>
  {
    if e == 'a' then Some('\U{0007}')
    else if e == 'b' then Some('\U{0008}')
    else if e == 'f' then Some('\U{000C}')
    else if e == 'n' then Some('\n')
    else if e == 'r' then Some('\r')
    else if e == 't' then Some('\t')
    else if e == 'v' then Some('\U{000B}')
    else if e == '\\' || e == '"' then Some(e)
    else None
  }

  /** Reads escaped text back: the inverse of `Escape`. */
  function Unescape(t: string): Option<string>
    decreases |t|
  {
    if |t| == 0 then Some("")
    else if t[0] != '\\' then
      var rest :- Unescape(t[1..]);
      Some([t[0]] + rest)
    else if |t| < 2 then None
    else if t[1] == 'x' then
      if |t| < 4 || !IsHexDigit(t[2]) || !IsHexDigit(t[3]) then None
      else
        var rest :- Unescape(t[4..]);
        Some([(HexDigitValue(t[2]) * 16 + HexDigitValue(t[3])) as char] + rest)
    else
      var c :- EscapedChar(t[1]);
      var rest :- Unescape(t[2..]);
      Some([c] + rest)
  }

  /** Reads a quoted string back: the inverse of `Quote`. */
  function Unquote(q: string): Option<string>
  {
    if |q| < 2 || q[0] != '"' || q[|q| - 1] != '"' then None else Unescape(q[1..|q| - 1])
  }

  /** One escaped character, then escaped text, reads back as that character, then that text. */
  lemma UnescapeChar(c: char, rest: string)
    ensures Unescape(EscapeChar(c) + rest)
            == if Unescape(rest).Some? then Some([c] + Unescape(rest).value) else None
  {
    if c == '"' || c == '\\' {
      UnescapeBackslash(c, c, rest);
    } else if ' ' <= c <= '~' {
      UnescapeLiteral(c, rest);
    } else if c == '\U{0007}' {
      UnescapeBackslash('a', c, rest);
    } else if c == '\U{0008}' {
      UnescapeBackslash('b', c, rest);
    } else if c == '\U{000C}' {
      UnescapeBackslash('f', c, rest);
    } else if c == '\n' {
      UnescapeBackslash('n', c, rest);
    } else if c == '\r' {
      UnescapeBackslash('r', c, rest);
    } else if c == '\t' {
      UnescapeBackslash('t', c, rest);
    } else if c == '\U{000B}' {
      UnescapeBackslash('v', c, rest);
    } else if c < ' ' || c == '\U{007F}' {
      UnescapeHex(c, rest);
    } else {
      UnescapeLiteral(c, rest);
    }
  }

  lemma UnescapeLiteral(c: char, rest: string)
    requires c != '\\'
    ensures Unescape([c] + rest)
            == if Unescape(rest).Some? then Some([c] + Unescape(rest).value) else None
  {
    assert ([c] + rest)[1..] == rest;
  }

  lemma UnescapeBackslash(e: char, c: char, rest: string)
    requires e != 'x' && EscapedChar(e) == Some(c)
    ensures Unescape(['\\', e] + rest)
            == if Unescape(rest).Some? then Some([c] + Unescape(rest).value) else None
  {
    assert (['\\', e] + rest)[2..] == rest;
  }

  lemma UnescapeHex(c: char, rest: string)
    requires c as int < 0x80
    ensures Unescape(['\\', 'x', LowerHexDigit(c as int / 16), LowerHexDigit(c as int % 16)] + rest)
            == if Unescape(rest).Some? then Some([c] + Unescape(rest).value) else None
  {
    var t := ['\\', 'x', LowerHexDigit(c as int / 16), LowerHexDigit(c as int % 16)] + rest;
    assert t[4..] == rest;
    assert (HexDigitValue(t[2]) * 16 + HexDigitValue(t[3])) as char == c;
  }

  lemma {:induction false} UnescapeEscape(s: string)
    ensures Unescape(Escape(s)) == Some(s)
    decreases |s|
  {
    if |s| > 0 {
      UnescapeEscape(s[1..]);
      UnescapeChar(s[0], Escape(s[1..]));
      assert [s[0]] + s[1..] == s;
    }
  }

  /** Quoting loses nothing: unquoting gives the string back. */
  lemma QuoteRoundTrip(s: string)
    ensures Unquote(Quote(s)) == Some(s)
  {
    var q := Quote(s);
    assert q[1..|q| - 1] == Escape(s);
    UnescapeEscape(s);
  }

  /** A quoted string is one line: every line feed in it is escaped. */
  lemma {:induction false} EscapeOneLine(s: string)
    ensures '\n' !in Escape(s)
    decreases |s|
  {
    if |s| > 0 {
      EscapeOneLine(s[1..]);
      assert '\n' !in EscapeChar(s[0]);
    }
  }

  lemma QuoteOneLine(s: string)
    ensures '\n' !in Quote(s)
  {
    EscapeOneLine(s);
  }
}
