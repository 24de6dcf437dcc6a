/**
 base64url, section 5 of RFC 4648, and the padding dropped and restored around it.

 Three bytes become four characters; one or two bytes left over become two or three, and padding makes
 up the fourth.  A cursor travels without its padding, which its length alone restores.

 `DecodePadded` reads exactly what the encoder writes.
 */
module Base64Url {
  import opened Wrappers

  type Byte = n: int | 0 <= n < 256
  type Sextet = n: int | 0 <= n < 64

  function ToChar(n: Sextet): char {
    if n < 26 then 'A' + n as char
    else if n < 52 then 'a' + (n - 26) as char
    else if n < 62 then '0' + (n - 52) as char
    else if n == 62 then '-' else '_'
  }

  function FromChar(c: char): Option<Sextet> {
    if 'A' <= c <= 'Z' then Some((c - 'A') as int)
    else if 'a' <= c <= 'z' then Some((c - 'a') as int + 26)
    else if '0' <= c <= '9' then Some((c - '0') as int + 52)
    else if c == '-' then Some(62)
    else if c == '_' then Some(63)
    else None
  }

  function Quad(x: Byte, y: Byte, z: Byte): (quad: string)
    ensures |quad| == 4
  {
    [ToChar(x / 4), ToChar(x % 4 * 16 + y / 16), ToChar(y % 16 * 4 + z / 64), ToChar(z % 64)]
  }

  /** With padding, as the encoder writes it. */
  function Encode(bytes: seq<Byte>): string {
    if |bytes| == 0 then ""
    else if |bytes| == 1 then
      [ToChar(bytes[0] / 4), ToChar(bytes[0] % 4 * 16), '=', '=']
    else if |bytes| == 2 then
      [ToChar(bytes[0] / 4), ToChar(bytes[0] % 4 * 16 + bytes[1] / 16), ToChar(bytes[1] % 16 * 4), '=']
    else
      Quad(bytes[0], bytes[1], bytes[2]) + Encode(bytes[3..])
  }

  /** The first byte of two sextets; the leftover bits are dropped, as decoders that do not check them do. */
  function Join1(a: Sextet, b: Sextet): Byte {
    a * 4 + b / 16
  }

  function Join2(b: Sextet, c: Sextet): Byte {
    b % 16 * 16 + c / 4
  }

  function Join3(c: Sextet, d: Sextet): Byte {
    c % 4 * 64 + d
  }

  /** Well-formed padded text; None for anything else. */
  function DecodePadded(text: string): Option<seq<Byte>> {
    if text == "" then Some([])
    else if |text| < 4 then None
    else
      var a, b, c, d := FromChar(text[0]), FromChar(text[1]), FromChar(text[2]), FromChar(text[3]);
      if a.None? || b.None? then None
      else if |text| == 4 && text[2] == '=' && text[3] == '=' then Some([Join1(a.value, b.value)])
      else if c.None? then None
      else if |text| == 4 && text[3] == '=' then Some([Join1(a.value, b.value), Join2(b.value, c.value)])
      else if d.None? then None
      else match DecodePadded(text[4..])
        case None => None
        case Some(rest) =>
          Some([Join1(a.value, b.value), Join2(b.value, c.value), Join3(c.value, d.value)] + rest)
  }

  /** `rstrip("=")`. */
  function Strip(text: string): string {
    if text != "" && text[|text| - 1] == '=' then Strip(text[..|text| - 1]) else text
  }

  function Padding(length: nat): string {
    seq((4 - length % 4) % 4, i => '=')
  }

  function Repad(text: string): string {
    text + Padding(|text|)
  }

  lemma CharRoundTrip(n: Sextet)
    ensures FromChar(ToChar(n)) == Some(n) && ToChar(n) != '='
  {
  }

  lemma QuadRoundTrip(x: Byte, y: Byte, z: Byte)
    ensures Join1(x / 4, x % 4 * 16 + y / 16) == x
    ensures Join2(x % 4 * 16 + y / 16, y % 16 * 4 + z / 64) == y
    ensures Join3(y % 16 * 4 + z / 64, z % 64) == z
  {
  }

  lemma DecodeOne(x: Byte)
    ensures DecodePadded(Encode([x])) == Some([x])
  {
    QuadRoundTrip(x, 0, 0);
    CharRoundTrip(x / 4);
    CharRoundTrip(x % 4 * 16);
  }

  lemma DecodeTwo(x: Byte, y: Byte)
    ensures DecodePadded(Encode([x, y])) == Some([x, y])
  {
    QuadRoundTrip(x, y, 0);
    CharRoundTrip(x / 4);
    CharRoundTrip(x % 4 * 16 + y / 16);
    CharRoundTrip(y % 16 * 4);
  }

  lemma DecodeFull(x: Byte, y: Byte, z: Byte, rest: string)
    ensures DecodePadded(Quad(x, y, z) + rest) ==
              match DecodePadded(rest) case None => None case Some(bytes) => Some([x, y, z] + bytes)
  {
    QuadRoundTrip(x, y, z);
    CharRoundTrip(x / 4);
    CharRoundTrip(x % 4 * 16 + y / 16);
    CharRoundTrip(y % 16 * 4 + z / 64);
    CharRoundTrip(z % 64);
    assert (Quad(x, y, z) + rest)[4..] == rest;
  }

  lemma {:induction false} DecodeEncode(bytes: seq<Byte>)
    ensures DecodePadded(Encode(bytes)) == Some(bytes)
  {
    if |bytes| <= 2 {
      DecodeFew(bytes);
    } else {
      DecodeEncode(bytes[3..]);
      assert bytes == [bytes[0], bytes[1], bytes[2]] + bytes[3..];
      DecodeFull(bytes[0], bytes[1], bytes[2], Encode(bytes[3..]));
    }
  }

  lemma DecodeFew(bytes: seq<Byte>)
    requires |bytes| <= 2
    ensures DecodePadded(Encode(bytes)) == Some(bytes)
  {
    if |bytes| == 1 {
      DecodeOne(bytes[0]);
      assert bytes == [bytes[0]];
    } else if |bytes| == 2 {
      DecodeTwo(bytes[0], bytes[1]);
      assert bytes == [bytes[0], bytes[1]];
    }
  }

  function StrippedLength(n: nat): nat {
    n / 3 * 4 + (if n % 3 == 0 then 0 else n % 3 + 1)
  }

  lemma StripOne(text: string)
    ensures Strip(text + "=") == Strip(text)
  {
    assert (text + "=")[..|text|] == text;
  }

  /** Dropping the padding loses nothing, and the length says how much to restore. */
  lemma {:induction false} StripThenRepad(bytes: seq<Byte>)
    ensures Repad(Strip(Encode(bytes))) == Encode(bytes)
    ensures |Strip(Encode(bytes))| == StrippedLength(|bytes|)
  {
    if |bytes| <= 2 {
      StripFew(bytes);
    } else {
      StripThenRepad(bytes[3..]);
      CharRoundTrip(bytes[2] % 64);
      var text, rest := Encode(bytes), Encode(bytes[3..]);
      assert text == text[..4] + rest;
      FrontThenRepad(text[..4], rest);
    }
  }

  lemma StripFew(bytes: seq<Byte>)
    requires |bytes| <= 2
    ensures Repad(Strip(Encode(bytes))) == Encode(bytes)
    ensures |Strip(Encode(bytes))| == StrippedLength(|bytes|)
  {
    if |bytes| == 1 {
      StripPaddingOfOne(bytes);
    } else if |bytes| == 2 {
      StripPaddingOfTwo(bytes);
    }
  }

  lemma StripPaddingOfOne(bytes: seq<Byte>)
    requires |bytes| == 1
    ensures Repad(Strip(Encode(bytes))) == Encode(bytes) && |Strip(Encode(bytes))| == 2
  {
    var text := Encode(bytes);
    CharRoundTrip(bytes[0] % 4 * 16);
    assert text == text[..2] + "=" + "=";
    StripOne(text[..2] + "=");
    StripOne(text[..2]);
  }

  lemma StripPaddingOfTwo(bytes: seq<Byte>)
    requires |bytes| == 2
    ensures Repad(Strip(Encode(bytes))) == Encode(bytes) && |Strip(Encode(bytes))| == 3
  {
    var text := Encode(bytes);
    CharRoundTrip(bytes[1] % 16 * 4);
    assert text == text[..3] + "=";
    StripOne(text[..3]);
  }

  lemma FrontThenRepad(front: string, back: string)
    requires |front| == 4 && front[3] != '=' && Repad(Strip(back)) == back
    ensures Repad(Strip(front + back)) == front + back
    ensures |Strip(front + back)| == 4 + |Strip(back)|
  {
    StripKeepsFront(front, back);
    var kept := Strip(back);
    assert (|kept| + 4) % 4 == |kept| % 4;
    assert Padding(|front + kept|) == Padding(|kept|);
    assert front + kept + Padding(|kept|) == front + (kept + Padding(|kept|));
  }

  lemma {:induction false} StripKeepsFront(front: string, back: string)
    requires front != "" && front[|front| - 1] != '='
    ensures Strip(front + back) == front + Strip(back)
  {
    if back == "" {
      assert front + back == front;
    } else if back[|back| - 1] == '=' {
      assert (front + back)[..|front + back| - 1] == front + back[..|back| - 1];
      StripKeepsFront(front, back[..|back| - 1]);
    }
  }
}
