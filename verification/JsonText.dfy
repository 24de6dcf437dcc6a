/**
 JSON strings as the encoder writes them, in ASCII only, and their reading.

 What is not printable ASCII is escaped: with a short escape where JSON has one, else by its number,
 and beyond the basic plane as a pair of surrogates.

 The reader takes every escape that JSON has, whether the encoder writes it or not.
 */
module JsonText {
  import opened Wrappers

  function HexChar(n: int): char
    requires 0 <= n < 16
  {
    if n < 10 then '0' + n as char else 'a' + (n - 10) as char
  }

  function HexValue(c: char): Option<int> {
    if '0' <= c <= '9' then Some((c - '0') as int)
    else if 'a' <= c <= 'f' then Some((c - 'a') as int + 10)
    else None
  }

  function Hex4(n: int): (s: string)
    requires 0 <= n < 0x10000
    ensures |s| == 4
  {
    [HexChar(n / 4096), HexChar(n / 256 % 16), HexChar(n / 16 % 16), HexChar(n % 16)]
  }

  /** A `\u` escape at the start of text: its number, and what follows. */
  function ReadUnicode(text: string): Option<(int, string)> {
    if |text| < 6 || text[0] != '\\' || text[1] != 'u' then None
    else
      var a, b, c, d := HexValue(text[2]), HexValue(text[3]), HexValue(text[4]), HexValue(text[5]);
      if a.None? || b.None? || c.None? || d.None? then None
      else Some((a.value * 4096 + b.value * 256 + c.value * 16 + d.value, text[6..]))
  }

  function UnicodeEscape(n: int): string
    requires 0 <= n < 0x10000
  {
    "\\u" + Hex4(n)
  }

  predicate Printable(c: char) {
    ' ' <= c <= '~'
  }

  function Escape(c: char): string {
    if c == '"' then "\\\""
    else if c == '\\' then "\\\\"
    else if c == '\n' then "\\n"
    else if c == '\r' then "\\r"
    else if c == '\t' then "\\t"
    else if c as int == 8 then "\\b"
    else if c as int == 12 then "\\f"
    else if Printable(c) then [c]
    else if c as int < 0x10000 then UnicodeEscape(c as int)
    else
      var v := c as int - 0x10000;
      UnicodeEscape(0xD800 + v / 1024) + UnicodeEscape(0xDC00 + v % 1024)
  }

  function EscapeAll(s: string): string {
    if s == "" then "" else Escape(s[0]) + EscapeAll(s[1..])
  }

  function Quote(s: string): string {
    "\"" + EscapeAll(s) + "\""
  }

  /** One character of a string body, and what follows it. */
  function ReadChar(text: string): Option<(char, string)> {
    if text == "" then None
    else if text[0] != '\\' then (if text[0] >= ' ' then Some((text[0], text[1..])) else None)
    else if |text| < 2 then None
    else match text[1]
      case '"' => Some(('"', text[2..]))
      case '\\' => Some(('\\', text[2..]))
      case '/' => Some(('/', text[2..]))
      case 'n' => Some(('\n', text[2..]))
      case 'r' => Some(('\r', text[2..]))
      case 't' => Some(('\t', text[2..]))
      case 'b' => Some((8 as char, text[2..]))
      case 'f' => Some((12 as char, text[2..]))
      case 'u' => ReadCodePoint(text)
      case _ => None
  }

  function ReadCodePoint(text: string): Option<(char, string)> {
    match ReadUnicode(text)
    case None => None
    case Some((n, rest)) =>
      if 0 <= n < 0xD800 || 0xE000 <= n < 0x10000 then Some((n as char, rest))
      else if !(0xD800 <= n < 0xDC00) then None
      else match ReadUnicode(rest)
        case None => None
        case Some((m, after)) =>
          if 0xDC00 <= m < 0xE000 then Some((((n - 0xD800) * 1024 + (m - 0xDC00) + 0x10000) as char, after))
          else None
  }

  /** A string body up to its closing quote, and what follows the quote. */
  function ReadBody(text: string): Option<(string, string)>
    decreases |text|
  {
    if text == "" then None
    else if text[0] == '"' then Some(("", text[1..]))
    else match ReadChar(text)
      case None => None
      case Some((c, rest)) =>
        if |rest| >= |text| then None
        else match ReadBody(rest)
          case None => None
          case Some((s, after)) => Some(([c] + s, after))
  }

  function ReadString(text: string): Option<(string, string)> {
    if text != "" && text[0] == '"' then ReadBody(text[1..]) else None
  }

  lemma HexRoundTrip(n: int)
    requires 0 <= n < 16
    ensures HexValue(HexChar(n)) == Some(n) && Printable(HexChar(n))
  {
  }

  lemma UnicodeRoundTrip(n: int, rest: string)
    requires 0 <= n < 0x10000
    ensures ReadUnicode(UnicodeEscape(n) + rest) == Some((n, rest))
  {
    var text := UnicodeEscape(n) + rest;
    assert n / 256 == n / 4096 * 16 + n / 256 % 16;
    assert n / 16 == n / 256 * 16 + n / 16 % 16;
    HexRoundTrip(n / 4096);
    HexRoundTrip(n / 256 % 16);
    HexRoundTrip(n / 16 % 16);
    HexRoundTrip(n % 16);
    assert text[2] == Hex4(n)[0] && text[3] == Hex4(n)[1] && text[4] == Hex4(n)[2] && text[5] == Hex4(n)[3];
    assert text[6..] == rest;
  }

  lemma PairRoundTrip(hi: int, lo: int, rest: string)
    requires 0 <= hi < 1024 && 0 <= lo < 1024
    ensures ReadCodePoint(UnicodeEscape(0xD800 + hi) + UnicodeEscape(0xDC00 + lo) + rest)
         == Some(((hi * 1024 + lo + 0x10000) as char, rest))
  {
    var first, second := UnicodeEscape(0xD800 + hi), UnicodeEscape(0xDC00 + lo);
    UnicodeRoundTrip(0xD800 + hi, second + rest);
    UnicodeRoundTrip(0xDC00 + lo, rest);
    assert first + second + rest == first + (second + rest);
    PairValue(first + second + rest, second + rest, rest, hi, lo);
  }

  lemma PairValue(text: string, after: string, rest: string, hi: int, lo: int)
    requires 0 <= hi < 1024 && 0 <= lo < 1024
    requires ReadUnicode(text) == Some((0xD800 + hi, after)) && ReadUnicode(after) == Some((0xDC00 + lo, rest))
    ensures ReadCodePoint(text) == Some(((hi * 1024 + lo + 0x10000) as char, rest))
  {
  }

  lemma EscapeBeyond(c: char, hi: int, lo: int)
    requires c as int == hi * 1024 + lo + 0x10000 && 0 <= hi < 1024 && 0 <= lo < 1024
    ensures Escape(c) == UnicodeEscape(0xD800 + hi) + UnicodeEscape(0xDC00 + lo)
  {
    var v := c as int - 0x10000;
    assert v / 1024 == hi && v % 1024 == lo;
  }

  lemma SurrogatesRoundTrip(c: char, rest: string)
    requires c as int >= 0x10000
    ensures ReadCodePoint(Escape(c) + rest) == Some((c, rest))
  {
    var v := c as int - 0x10000;
    assert 0 <= v < 0x100000;
    var hi, lo := v / 1024, v % 1024;
    EscapeBeyond(c, hi, lo);
    PairRoundTrip(hi, lo, rest);
  }

  lemma ShortRoundTrip(c: char, rest: string)
    requires |Escape(c)| <= 2
    ensures ReadChar(Escape(c) + rest) == Some((c, rest))
  {
    var text := Escape(c) + rest;
    assert text[|Escape(c)|..] == rest;
    assert text[0] == Escape(c)[0];
    if |Escape(c)| == 2 {
      assert text[1] == Escape(c)[1];
    }
  }

  lemma CharRoundTrip(c: char, rest: string)
    ensures ReadChar(Escape(c) + rest) == Some((c, rest))
    ensures Escape(c) != "" && Escape(c)[0] != '"'
  {
    if |Escape(c)| <= 2 {
      ShortRoundTrip(c, rest);
    } else {
      var text := Escape(c) + rest;
      assert text[0] == '\\' && text[1] == 'u';
      if c as int < 0x10000 {
        UnicodeRoundTrip(c as int, rest);
      } else {
        SurrogatesRoundTrip(c, rest);
      }
    }
  }

  lemma {:induction false} BodyRoundTrip(s: string, rest: string)
    ensures ReadBody(EscapeAll(s) + "\"" + rest) == Some((s, rest))
  {
    var text := EscapeAll(s) + "\"" + rest;
    if s == "" {
      assert text == "\"" + rest && text[1..] == rest;
    } else {
      var tail := EscapeAll(s[1..]) + "\"" + rest;
      assert text == Escape(s[0]) + tail;
      CharRoundTrip(s[0], tail);
      BodyRoundTrip(s[1..], rest);
      assert text[0] == Escape(s[0])[0] && [s[0]] + s[1..] == s;
    }
  }

  /** Every string is read back from its own quotation, whatever follows. */
  lemma QuoteRoundTrip(s: string, rest: string)
    ensures ReadString(Quote(s) + rest) == Some((s, rest))
  {
    assert (Quote(s) + rest)[1..] == EscapeAll(s) + "\"" + rest;
    BodyRoundTrip(s, rest);
  }

  ghost predicate Ascii(s: string) {
    forall c <- s :: Printable(c)
  }

  lemma {:induction false} QuoteIsAscii(s: string)
    ensures Ascii(EscapeAll(s)) && Ascii(Quote(s))
  {
    if s != "" {
      assert Ascii(Escape(s[0])) by {
        forall n | 0 <= n < 16 ensures Printable(HexChar(n)) {
          HexRoundTrip(n);
        }
      }
      QuoteIsAscii(s[1..]);
    }
  }

  /** Text without quotes, backslashes or anything unprintable. */
  predicate Plain(s: string) {
    forall i :: 0 <= i < |s| ==> Printable(s[i]) && s[i] != '"' && s[i] != '\\'
  }

  /** Plain text is quoted as it stands. */
  lemma {:induction false} PlainQuote(s: string)
    requires Plain(s)
    ensures EscapeAll(s) == s
  {
    if s != "" {
      PlainQuote(s[1..]);
      assert Escape(s[0]) == [s[0]];
      assert s == [s[0]] + s[1..];
    }
  }
}
