/** The unpadded URL-safe encoding of section 5 of RFC 4648, decoded as Go's base64.RawURLEncoding does:
    line breaks are skipped and the unused bits of the last digit ignored. */
module Base64 {
  import opened Basics

  type Digit = d: int | 0 <= d < 64

  function Char(d: Digit): byte {
    if d < 26 then 'A' as int + d
    else if d < 52 then 'a' as int + (d - 26)
    else if d < 62 then '0' as int + (d - 52)
    else if d == 62 then '-' as int
    else '_' as int
  }

  function Value(c: byte): Option<Digit> {
    if 'A' as int <= c <= 'Z' as int then Some(c - 'A' as int)
    else if 'a' as int <= c <= 'z' as int then Some(c - 'a' as int + 26)
    else if '0' as int <= c <= '9' as int then Some(c - '0' as int + 52)
    else if c == '-' as int then Some(62)
    else if c == '_' as int then Some(63)
    else None
  }

  // The digits of three bytes, and back.
  function D0(b0: byte): Digit { b0 / 4 }
  function D1(b0: byte, b1: byte): Digit { b0 % 4 * 16 + b1 / 16 }
  function D2(b1: byte, b2: byte): Digit { b1 % 16 * 4 + b2 / 64 }
  function D3(b2: byte): Digit { b2 % 64 }
  function B0(d0: Digit, d1: Digit): byte { d0 as int * 4 + d1 / 16 }
  function B1(d1: Digit, d2: Digit): byte { d1 as int % 16 * 16 + d2 / 4 }
  function B2(d2: Digit, d3: Digit): byte { d2 as int % 4 * 64 + d3 }

  lemma GroupRoundTrip(b0: byte, b1: byte, b2: byte)
    ensures B0(D0(b0), D1(b0, b1)) == b0
    ensures B1(D1(b0, b1), D2(b1, b2)) == b1
    ensures B2(D2(b1, b2), D3(b2)) == b2
  {
    assert b0 == b0 / 4 * 4 + b0 % 4 && b1 == b1 / 16 * 16 + b1 % 16 && b2 == b2 / 64 * 64 + b2 % 64;
  }

  /** Groups of three bytes become four digits; one or two bytes at the end two or three. */
  function Encode(b: bytes): bytes {
    if |b| == 0 then []
    else if |b| == 1 then [Char(D0(b[0])), Char(D1(b[0], 0))]
    else if |b| == 2 then [Char(D0(b[0])), Char(D1(b[0], b[1])), Char(D2(b[1], 0))]
    else [Char(D0(b[0])), Char(D1(b[0], b[1])), Char(D2(b[1], b[2])), Char(D3(b[2]))] + Encode(b[3..])
  }

  predicate IsLineBreak(c: byte) {
    c == 10 || c == 13
  }

  function WithoutLineBreaks(s: bytes): bytes {
    if s == [] then []
    else (if IsLineBreak(s[0]) then [] else [s[0]]) + WithoutLineBreaks(s[1..])
  }

  function Digits(s: bytes): Option<seq<Digit>> {
    if s == [] then Some([])
    else
      match (Value(s[0]), Digits(s[1..]))
      case (Some(d), Some(ds)) => Some([d] + ds)
      case _ => None
  }

  function Bytes(ds: seq<Digit>): Option<bytes> {
    if |ds| == 0 then Some([])
    else if |ds| == 1 then None
    else if |ds| == 2 then Some([B0(ds[0], ds[1])])
    else if |ds| == 3 then Some([B0(ds[0], ds[1]), B1(ds[1], ds[2])])
    else
      match Bytes(ds[4..])
      case None => None
      case Some(rest) => Some([B0(ds[0], ds[1]), B1(ds[1], ds[2]), B2(ds[2], ds[3])] + rest)
  }

  function Decode(s: bytes): Option<bytes> {
    match Digits(WithoutLineBreaks(s))
    case None => None
    case Some(ds) => Bytes(ds)
  }

  /** The digits that Encode writes. */
  function DigitsOf(b: bytes): seq<Digit> {
    if |b| == 0 then []
    else if |b| == 1 then [D0(b[0]), D1(b[0], 0)]
    else if |b| == 2 then [D0(b[0]), D1(b[0], b[1]), D2(b[1], 0)]
    else [D0(b[0]), D1(b[0], b[1]), D2(b[1], b[2]), D3(b[2])] + DigitsOf(b[3..])
  }

  function Chars(ds: seq<Digit>): bytes {
    seq(|ds|, i requires 0 <= i < |ds| => Char(ds[i]))
  }

  lemma ValueOfChar(d: Digit)
    ensures Value(Char(d)) == Some(d) && !IsLineBreak(Char(d))
  {
  }

  lemma {:induction false} EncodeIsChars(b: bytes)
    ensures Encode(b) == Chars(DigitsOf(b))
  {
    if |b| >= 3 {
      EncodeIsChars(b[3..]);
    }
  }

  lemma {:induction false} ReadChars(ds: seq<Digit>)
    ensures WithoutLineBreaks(Chars(ds)) == Chars(ds) && Digits(Chars(ds)) == Some(ds)
  {
    if ds != [] {
      var c, rest := Char(ds[0]), Chars(ds[1..]);
      ReadChars(ds[1..]);
      ValueOfChar(ds[0]);
      ReadOne(c, rest, ds[0], ds[1..]);
      FirstChar(ds, c, rest);
    }
  }

  lemma FirstChar(ds: seq<Digit>, c: byte, rest: bytes)
    requires ds != [] && c == Char(ds[0]) && rest == Chars(ds[1..])
    ensures Chars(ds) == [c] + rest && ds == [ds[0]] + ds[1..]
  {
  }

  lemma ReadOne(c: byte, rest: bytes, d: Digit, ds: seq<Digit>)
    requires Value(c) == Some(d) && !IsLineBreak(c) && WithoutLineBreaks(rest) == rest && Digits(rest) == Some(ds)
    ensures WithoutLineBreaks([c] + rest) == [c] + rest && Digits([c] + rest) == Some([d] + ds)
  {
    assert ([c] + rest)[1..] == rest;
  }

  lemma BytesOfGroup(d0: Digit, d1: Digit, d2: Digit, d3: Digit, rest: seq<Digit>)
    requires Bytes(rest).Some?
    ensures Bytes([d0, d1, d2, d3] + rest) == Some([B0(d0, d1), B1(d1, d2), B2(d2, d3)] + Bytes(rest).value)
  {
    assert ([d0, d1, d2, d3] + rest)[4..] == rest;
  }

  lemma OneByte(b0: byte)
    ensures Bytes(DigitsOf([b0])) == Some([b0])
  {
    var d0, d1 := D0(b0), D1(b0, 0);
    assert B0(d0, d1) == b0 by { GroupRoundTrip(b0, 0, 0); }
    assert DigitsOf([b0]) == [d0, d1];
  }

  lemma TwoBytes(b0: byte, b1: byte)
    ensures Bytes(DigitsOf([b0, b1])) == Some([b0, b1])
  {
    var d0, d1, d2 := D0(b0), D1(b0, b1), D2(b1, 0);
    assert B0(d0, d1) == b0 && B1(d1, d2) == b1 by { GroupRoundTrip(b0, b1, 0); }
    assert DigitsOf([b0, b1]) == [d0, d1, d2];
  }

  lemma {:induction false} BytesOfDigits(b: bytes)
    ensures Bytes(DigitsOf(b)) == Some(b)
  {
    if |b| == 1 {
      OneByte(b[0]);
      assert b == [b[0]];
    } else if |b| == 2 {
      TwoBytes(b[0], b[1]);
      assert b == [b[0], b[1]];
    } else if |b| > 2 {
      BytesOfDigits(b[3..]);
      GroupRoundTrip(b[0], b[1], b[2]);
      BytesOfGroup(D0(b[0]), D1(b[0], b[1]), D2(b[1], b[2]), D3(b[2]), DigitsOf(b[3..]));
      assert b == [b[0], b[1], b[2]] + b[3..];
    }
  }

  /** Text with a character other than line breaks is not decoded to nothing. */
  lemma DecodedIsNotEmpty(s: bytes)
    requires s != [] && !IsLineBreak(s[0])
    ensures Decode(s) != Some([])
  {
    assert WithoutLineBreaks(s)[0] == s[0];
  }

  lemma {:induction false} DecodeEncode(b: bytes)
    ensures Decode(Encode(b)) == Some(b)
  {
    EncodeIsChars(b);
    ReadChars(DigitsOf(b));
    BytesOfDigits(b);
  }

  /** A character that version 1 macaroons and URLs take as it is. */
  predicate IsText(c: byte) {
    || 'A' as int <= c <= 'Z' as int || 'a' as int <= c <= 'z' as int || '0' as int <= c <= '9' as int
    || c == '-' as int || c == '_' as int
  }

  lemma EncodedIsText(b: bytes)
    ensures forall c :: c in Encode(b) ==> IsText(c)
    ensures |Encode(b)| == |b| / 3 * 4 + (if |b| % 3 == 0 then 0 else |b| % 3 + 1)
  {
    EncodeIsChars(b);
    DigitsCount(b);
  }

  lemma {:induction false} DigitsCount(b: bytes)
    ensures |DigitsOf(b)| == |b| / 3 * 4 + (if |b| % 3 == 0 then 0 else |b| % 3 + 1)
  {
    if |b| >= 3 {
      DigitsCount(b[3..]);
    }
  }

  predicate Spells(b: bytes, s: string) {
    |b| == |s| && forall i :: 0 <= i < |b| ==> b[i] == s[i] as int
  }

  /** Test vectors of section 10 of RFC 4648. */
  lemma Vectors(b: bytes)
    requires Spells(b, "foobar")
    ensures Spells(Encode(b), "Zm9vYmFy")
  {
    Bar(b[3..]);
  }

  lemma Bar(b: bytes)
    requires Spells(b, "bar")
    ensures Spells(Encode(b), "YmFy")
  {
    assert b[3..] == [];
  }

  lemma ShortVectors(b: bytes)
    requires Spells(b, "fo")
    ensures Spells(Encode(b[..1]), "Zg") && Spells(Encode(b), "Zm8")
  {
  }

  /** The two characters that differ from the standard alphabet. */
  lemma URLSafeVector()
    ensures Spells(Encode([251, 255, 254]), "-__-")
  {
    assert Encode([]) == [];
  }
}
