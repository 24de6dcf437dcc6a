/** Page cursors: a signed three-field body, in base64url without padding. */
module Cursors {
  // The signature is an arbitrary function from body bytes to 16 bytes.  Texts that are not well-formed
  // base64url once padded, and bodies not in the shape the encoder writes, reach the model through
  // `Lenient`, arbitrary functions standing for what the general decoders make of them.

  import opened Wrappers
  import opened Base64Url
  import opened JsonText
  import EventIds

  const MAX_CURSOR_CHARS: nat := 512
  const MAX_OFFSET: nat := 100_000
  const SIGNATURE_BYTES: nat := 16

  type Signature = s: seq<Byte> | |s| == SIGNATURE_BYTES witness seq(SIGNATURE_BYTES, i => 0)
  type Sign = seq<Byte> -> Signature

  /** A parsed body; a field is absent when it is missing or not of its type. */
  datatype Payload = Payload(kind: Option<string>, offset: Option<int>, version: Option<string>)

  datatype Lenient = Lenient(base64: string -> Option<seq<Byte>>, json: seq<Byte> -> Option<Payload>)

  datatype Decoded = Offset(offset: nat) | InvalidCursor | StaleCursor

  function Body(kind: string, offset: nat, version: string): string {
    "{\"kind\":" + Quote(kind) + ",\"offset\":" + EventIds.Decimal(offset) + ",\"version\":" + Quote(version) + "}"
  }

  function ToBytes(text: string): (bytes: seq<Byte>)
    requires Ascii(text)
    ensures |bytes| == |text|
  {
    assert forall i :: 0 <= i < |text| ==> text[i] in text;
    seq(|text|, i requires 0 <= i < |text| && Printable(text[i]) => text[i] as Byte)
  }

  function FromBytes(bytes: seq<Byte>): Option<string> {
    if forall i :: 0 <= i < |bytes| ==> 32 <= bytes[i] <= 126 then
      Some(seq(|bytes|, i requires 0 <= i < |bytes| => bytes[i] as char))
    else None
  }

  /** What follows a literal, when text starts with it. */
  function Skip(text: string, literal: string): Option<string> {
    if literal <= text then Some(text[|literal|..]) else None
  }

  function DigitCount(text: string): (n: nat)
    ensures n <= |text| && EventIds.AllDigits(text[..n])
  {
    if text != "" && '0' <= text[0] <= '9' then
      var n := DigitCount(text[1..]);
      assert text[..n + 1] == [text[0]] + text[1..][..n];
      n + 1
    else 0
  }

  /** A decimal number without superfluous zeros, and what follows it. */
  function ReadNumber(text: string): Option<(nat, string)> {
    var digits := text[..DigitCount(text)];
    if digits == "" || EventIds.Decimal(EventIds.DigitsValue(digits)) != digits then None
    else Some((EventIds.DigitsValue(digits), text[|digits|..]))
  }

  function ReadBodyText(text: string): Option<Payload> {
    match Skip(text, "{\"kind\":") case None => None case Some(t1) =>
    match ReadString(t1) case None => None case Some((kind, t2)) =>
    match Skip(t2, ",\"offset\":") case None => None case Some(t3) =>
    match ReadNumber(t3) case None => None case Some((offset, t4)) =>
    match Skip(t4, ",\"version\":") case None => None case Some(t5) =>
    match ReadString(t5) case None => None case Some((version, t6)) =>
      if t6 == "}" then Some(Payload(Some(kind), Some(offset), Some(version))) else None
  }

  function ParseBody(bytes: seq<Byte>, lenient: Lenient): Option<Payload> {
    match FromBytes(bytes)
    case None => lenient.json(bytes)
    case Some(text) =>
      match ReadBodyText(text)
      case None => lenient.json(bytes)
      case Some(payload) => Some(payload)
  }

  function DecodeBase64(text: string, lenient: Lenient): Option<seq<Byte>> {
    match DecodePadded(text)
    case None => lenient.base64(text)
    case Some(bytes) => Some(bytes)
  }

  /** The body's bytes followed by their signature. */
  function Signed(kind: string, offset: nat, version: string, sign: Sign): (bytes: seq<Byte>)
    ensures |bytes| == |Body(kind, offset, version)| + SIGNATURE_BYTES
  {
    QuoteIsAscii(kind);
    QuoteIsAscii(version);
    BodyIsAscii(kind, offset, version);
    var body := ToBytes(Body(kind, offset, version));
    body + sign(body)
  }

  function EncodeCursor(kind: string, offset: nat, version: string, sign: Sign): string {
    Strip(Encode(Signed(kind, offset, version, sign)))
  }

  function DecodeCursor(cursor: string, kind: string, version: string, sign: Sign, lenient: Lenient): Decoded {
    if |cursor| > MAX_CURSOR_CHARS then InvalidCursor
    else match DecodeBase64(Repad(cursor), lenient)
      case None => InvalidCursor
      case Some(raw) =>
        if |raw| <= SIGNATURE_BYTES then InvalidCursor
        else
          var body, supplied := raw[..|raw| - SIGNATURE_BYTES], raw[|raw| - SIGNATURE_BYTES..];
          if supplied != sign(body) then InvalidCursor
          else match ParseBody(body, lenient)
            case None => InvalidCursor
            case Some(payload) =>
              if payload.kind != Some(kind) then InvalidCursor
              else if payload.version != Some(version) then StaleCursor
              else if payload.offset.None? || !(0 <= payload.offset.value <= MAX_OFFSET) then InvalidCursor
              else Offset(payload.offset.value)
  }

  lemma BodyIsAscii(kind: string, offset: nat, version: string)
    ensures Ascii(Body(kind, offset, version))
  {
    QuoteIsAscii(kind);
    QuoteIsAscii(version);
    assert forall c <- EventIds.Decimal(offset) :: '0' <= c <= '9';
    assert Ascii("{\"kind\":") && Ascii(",\"offset\":") && Ascii(",\"version\":") && Ascii("}");
  }

  lemma BytesRoundTrip(text: string)
    requires Ascii(text)
    ensures FromBytes(ToBytes(text)) == Some(text)
  {
    forall i | 0 <= i < |text| ensures 32 <= ToBytes(text)[i] <= 126 {
      assert text[i] in text;
    }
    assert FromBytes(ToBytes(text)).value == text;
  }

  lemma SkipLiteral(literal: string, rest: string)
    ensures Skip(literal + rest, literal) == Some(rest)
  {
  }

  lemma {:induction false} DigitsThenOther(digits: string, rest: string)
    requires EventIds.AllDigits(digits) && rest != "" && !('0' <= rest[0] <= '9')
    ensures DigitCount(digits + rest) == |digits|
  {
    if digits == "" {
      assert digits + rest == rest;
    } else {
      assert (digits + rest)[1..] == digits[1..] + rest;
      DigitsThenOther(digits[1..], rest);
    }
  }

  lemma NumberRoundTrip(n: nat, rest: string)
    requires rest != "" && !('0' <= rest[0] <= '9')
    ensures ReadNumber(EventIds.Decimal(n) + rest) == Some((n, rest))
  {
    var digits := EventIds.Decimal(n);
    DigitsThenOther(digits, rest);
    EventIds.DecimalValue(n);
    assert (digits + rest)[..|digits|] == digits && (digits + rest)[|digits|..] == rest;
  }

  /** The two ends of a body's text: what stands from the version on, and what stands before it. */
  function VersionPart(version: string): string {
    ",\"version\":" + (Quote(version) + "}")
  }

  function OffsetPart(offset: nat, version: string): string {
    ",\"offset\":" + (EventIds.Decimal(offset) + VersionPart(version))
  }

  lemma BodyInParts(kind: string, offset: nat, version: string)
    ensures Body(kind, offset, version) == "{\"kind\":" + (Quote(kind) + OffsetPart(offset, version))
  {
  }

  lemma BodyTextRoundTrip(kind: string, offset: nat, version: string)
    ensures ReadBodyText(Body(kind, offset, version)) == Some(Payload(Some(kind), Some(offset), Some(version)))
  {
    BodyInParts(kind, offset, version);
    QuoteRoundTrip(kind, OffsetPart(offset, version));
    NumberRoundTrip(offset, VersionPart(version));
    QuoteRoundTrip(version, "}");
    SkipLiteral("{\"kind\":", Quote(kind) + OffsetPart(offset, version));
    SkipLiteral(",\"offset\":", EventIds.Decimal(offset) + VersionPart(version));
    SkipLiteral(",\"version\":", Quote(version) + "}");
  }

  /** Unpacking an issued cursor gives back its body, its signature and its fields. */
  lemma CursorUnpacks(kind: string, offset: nat, version: string, sign: Sign, lenient: Lenient)
    returns (body: seq<Byte>)
    ensures DecodeBase64(Repad(EncodeCursor(kind, offset, version, sign)), lenient) == Some(body + sign(body))
    ensures body != [] && EncodeCursor(kind, offset, version, sign) != ""
    ensures ParseBody(body, lenient) == Some(Payload(Some(kind), Some(offset), Some(version)))
  {
    BodyIsAscii(kind, offset, version);
    body := ToBytes(Body(kind, offset, version));
    StripThenRepad(body + sign(body));
    DecodeEncode(body + sign(body));
    BytesRoundTrip(Body(kind, offset, version));
    BodyTextRoundTrip(kind, offset, version);
  }

  /**
   An issued cursor, whatever its kind and version and whatever the signing function: used with its own
   kind and version it gives back its offset, with another version it is stale, with another kind
   invalid; unless it is over the length limit or its offset beyond the last one accepted.
   */
  lemma IssuedCursorDecodes(kind: string, offset: nat, version: string, asKind: string, asVersion: string,
                            sign: Sign, lenient: Lenient)
    ensures var cursor := EncodeCursor(kind, offset, version, sign);
            DecodeCursor(cursor, asKind, asVersion, sign, lenient) ==
              if |cursor| > MAX_CURSOR_CHARS || asKind != kind then InvalidCursor
              else if asVersion != version then StaleCursor
              else if offset > MAX_OFFSET then InvalidCursor
              else Offset(offset)
  {
    var body := CursorUnpacks(kind, offset, version, sign, lenient);
    var raw := body + sign(body);
    assert raw[..|raw| - SIGNATURE_BYTES] == body && raw[|raw| - SIGNATURE_BYTES..] == sign(body);
  }

  // ---- any cursor at all, issued or not

  /** The text is short enough and unpacks to this body with its own signature behind it. */
  ghost predicate Carries(cursor: string, body: seq<Byte>, sign: Sign, lenient: Lenient) {
    |cursor| <= 512 && body != [] && DecodeBase64(Repad(cursor), lenient) == Some(body + sign(body))
  }

  ghost predicate Names(cursor: string, payload: Payload, sign: Sign, lenient: Lenient) {
    exists body :: Carries(cursor, body, sign, lenient) && ParseBody(body, lenient) == Some(payload)
  }

  /** The last sixteen bytes are the signature of those before them exactly when some body was signed. */
  lemma SplitAtSignature(raw: seq<Byte>, body: seq<Byte>, sign: Sign)
    ensures raw == body + sign(body) <==>
              |raw| >= 16 && body == raw[..|raw| - 16] && raw[|raw| - 16..] == sign(body)
  {
    if raw == body + sign(body) {
      assert raw[..|raw| - 16] == body && raw[|raw| - 16..] == sign(body);
    }
  }

  lemma CarriedBody(cursor: string, sign: Sign, lenient: Lenient) returns (raw: Option<seq<Byte>>)
    ensures raw == DecodeBase64(Repad(cursor), lenient)
    ensures forall body :: Carries(cursor, body, sign, lenient) <==>
              && |cursor| <= 512 && raw.Some? && |raw.value| > 16
              && body == raw.value[..|raw.value| - 16] && raw.value[|raw.value| - 16..] == sign(body)
  {
    raw := DecodeBase64(Repad(cursor), lenient);
    if raw.Some? {
      forall body { SplitAtSignature(raw.value, body, sign); }
    }
  }

  /**
   Whatever text arrives as a cursor: it opens an offset exactly when it carries a signed body that names this
   kind, this version and that offset of at most 100000; it is stale exactly when it carries a signed body that
   names this kind and not this version; and every other text is invalid.
   */
  lemma AnyCursorDecodes(cursor: string, kind: string, version: string, sign: Sign, lenient: Lenient, offset: nat)
    ensures DecodeCursor(cursor, kind, version, sign, lenient) == Offset(offset) <==>
              offset <= 100_000 && Names(cursor, Payload(Some(kind), Some(offset), Some(version)), sign, lenient)
    ensures DecodeCursor(cursor, kind, version, sign, lenient) == StaleCursor <==>
              exists named :: Names(cursor, named, sign, lenient) && named.kind == Some(kind)
                && named.version != Some(version)
  {
    var raw := CarriedBody(cursor, sign, lenient);
    if |cursor| <= 512 && raw.Some? && |raw.value| > 16 {
      var body := raw.value[..|raw.value| - 16];
      assert Carries(cursor, body, sign, lenient) <==> raw.value[|raw.value| - 16..] == sign(body);
      var parsed := ParseBody(body, lenient);
      assert forall named :: Names(cursor, named, sign, lenient) <==>
               Carries(cursor, body, sign, lenient) && parsed == Some(named);
      assert parsed.Some? ==>
               parsed.value == Payload(parsed.value.kind, parsed.value.offset, parsed.value.version);
    }
  }

  /** Under one signing function an issued cursor determines the kind, the offset and the version it was issued for. */
  lemma IssuedCursorsAreDistinct(kind: string, offset: nat, version: string,
                                 kind2: string, offset2: nat, version2: string, sign: Sign)
    ensures EncodeCursor(kind, offset, version, sign) == EncodeCursor(kind2, offset2, version2, sign) <==>
              kind == kind2 && offset == offset2 && version == version2
  {
    var lenient := Lenient(text => None, bytes => None);
    var body := CursorUnpacks(kind, offset, version, sign, lenient);
    var body2 := CursorUnpacks(kind2, offset2, version2, sign, lenient);
    if EncodeCursor(kind, offset, version, sign) == EncodeCursor(kind2, offset2, version2, sign) {
      assert (body + sign(body))[..|body|] == body && (body2 + sign(body2))[..|body2|] == body2;
    }
  }

  function Power10(n: nat): (power: nat)
    ensures power >= 1
  {
    if n == 0 then 1 else 10 * Power10(n - 1)
  }

  lemma {:induction false} DecimalLength(n: nat, digits: nat)
    requires digits > 0
    ensures |EventIds.Decimal(n)| <= digits <==> n < Power10(digits)
  {
    if n >= 10 {
      if digits > 1 {
        DecimalLength(n / 10, digits - 1);
      } else {
        assert |EventIds.Decimal(n / 10)| > 0;
      }
    }
  }

  lemma BodyLength(kind: string, offset: nat, version: string)
    ensures |Body(kind, offset, version)|
         == |JsonText.Quote(kind)| + |EventIds.Decimal(offset)| + |JsonText.Quote(version)| + 30
  {
    BodyInParts(kind, offset, version);
    assert |"{\"kind\":"| == 8 && |",\"offset\":"| == 10 && |",\"version\":"| == 11;
  }

  /** The exact length of an issued cursor, for any kind and version. */
  lemma CursorLength(kind: string, offset: nat, version: string, sign: Sign)
    ensures |EncodeCursor(kind, offset, version, sign)|
         == StrippedLength(|JsonText.Quote(kind)| + |EventIds.Decimal(offset)| + |JsonText.Quote(version)|
                           + 30 + SIGNATURE_BYTES)
  {
    BodyLength(kind, offset, version);
    StripThenRepad(Signed(kind, offset, version, sign));
  }

  /** An issued cursor is short enough to be read exactly when kind, version and offset take at most 338 of it. */
  lemma CursorFitsExactly(kind: string, offset: nat, version: string, sign: Sign)
    ensures |EncodeCursor(kind, offset, version, sign)| <= MAX_CURSOR_CHARS <==>
              |JsonText.Quote(kind)| + |JsonText.Quote(version)| + |EventIds.Decimal(offset)| <= 338
  {
    CursorLength(kind, offset, version, sign);
  }
}
