/** UTF-8 (RFC 3629, section 3) over Unicode scalar values: Python's bytes(s, "utf-8") and str(b, "utf-8"). */
module Utf8 {
  import opened Outcomes
  import opened ByteCodec

  function EncodeChar(c: char): (bs: bytes)
    ensures 1 <= |bs| <= 4
    ensures |bs| == 1 <==> c as int < 0x80
  {
    var n := c as int;
    if n < 0x80 then [n]
    else if n < 0x800 then [0xC0 + n / 64, 0x80 + n % 64]
    else if n < 0x10000 then [0xE0 + n / 64 / 64, 0x80 + n / 64 % 64, 0x80 + n % 64]
    else [0xF0 + n / 64 / 64 / 64, 0x80 + n / 64 / 64 % 64, 0x80 + n / 64 % 64, 0x80 + n % 64]
  }

  function Encode(s: string): (bs: bytes)
    ensures |bs| >= |s|
  {
    if s == [] then [] else EncodeChar(s[0]) + Encode(s[1..])
  }

  predicate Ascii(s: string) {
    forall i | 0 <= i < |s| :: s[i] as int < 0x80
  }

  predicate Continuation(b: byte) {
    0x80 <= b < 0xC0
  }

  predicate IsScalar(n: int) {
    0 <= n < 0xD800 || 0xE000 <= n < 0x110000
  }

  /** The first character of a byte string; None where the strict decoder raises UnicodeDecodeError. */
  function DecodeChar(bs: bytes): (r: Option<char>)
    ensures r.Some? ==> EncodeChar(r.value) <= bs
  {
    if |bs| == 0 then None
    else if bs[0] < 0x80 then Some(bs[0] as char)
    else if |bs| >= 2 && 0xC2 <= bs[0] < 0xE0 && Continuation(bs[1]) then
      Some(Combine(bs[0] - 0xC0, bs[1]) as char)
    else if |bs| >= 3 && 0xE0 <= bs[0] < 0xF0 && Continuation(bs[1]) && Continuation(bs[2]) then
      var n := Combine(Combine(bs[0] - 0xE0, bs[1]), bs[2]);
      if n >= 0x800 && IsScalar(n) then Some(n as char) else None
    else if |bs| >= 4 && 0xF0 <= bs[0] < 0xF5 && Continuation(bs[1]) && Continuation(bs[2]) && Continuation(bs[3]) then
      var n := Combine(Combine(Combine(bs[0] - 0xF0, bs[1]), bs[2]), bs[3]);
      if n >= 0x10000 && IsScalar(n) then Some(n as char) else None
    else None
  }

  /** Six more bits from a continuation byte. */
  function Combine(high: nat, b: byte): (n: nat)
    requires Continuation(b)
    ensures n / 64 == high && n % 64 == b as int - 0x80
  {
    high * 64 + (b as int - 0x80)
  }

  function Decode(bs: bytes): (r: Option<string>)
    ensures r.Some? ==> Encode(r.value) == bs
  {
    if bs == [] then Some([])
    else
      match DecodeChar(bs)
      case None => None
      case Some(c) =>
        match Decode(bs[|EncodeChar(c)|..])
        case None => None
        case Some(s) =>
          assert bs == EncodeChar(c) + bs[|EncodeChar(c)|..];
          Some([c] + s)
  }

  lemma DecodeCharInverts(c: char, rest: bytes)
    ensures DecodeChar(EncodeChar(c) + rest) == Some(c)
  {
    var n := c as int;
    var bs := EncodeChar(c) + rest;
    if n < 0x80 {
    } else if n < 0x800 {
      assert bs[0] == 0xC0 + n / 64 && bs[1] == 0x80 + n % 64;
    } else if n < 0x10000 {
      assert bs[0] == 0xE0 + n / 64 / 64 && bs[1] == 0x80 + n / 64 % 64 && bs[2] == 0x80 + n % 64;
    } else {
      assert bs[0] == 0xF0 + n / 64 / 64 / 64 && bs[1] == 0x80 + n / 64 / 64 % 64;
      assert bs[2] == 0x80 + n / 64 % 64 && bs[3] == 0x80 + n % 64;
    }
  }

  lemma DecodeStep(bs: bytes, c: char, rest: bytes)
    requires DecodeChar(bs) == Some(c) && bs == EncodeChar(c) + rest
    requires Decode(rest).Some?
    ensures Decode(bs) == Some([c] + Decode(rest).value)
  {
    assert bs[|EncodeChar(c)|..] == rest;
  }

  lemma {:induction false} DecodeInverts(s: string)
    ensures Decode(Encode(s)) == Some(s)
  {
    if s != [] {
      var rest := Encode(s[1..]);
      DecodeCharInverts(s[0], rest);
      DecodeInverts(s[1..]);
      DecodeStep(Encode(s), s[0], rest);
      assert s == [s[0]] + s[1..];
    }
  }

  /** The byte length equals the character count, which is what the writer records, just for ASCII text. */
  lemma {:induction false} LengthIffAscii(s: string)
    ensures |Encode(s)| == |s| <==> Ascii(s)
  {
    if s != [] {
      LengthIffAscii(s[1..]);
      assert Ascii(s) <==> s[0] as int < 0x80 && Ascii(s[1..]) by {
        assert s == [s[0]] + s[1..];
      }
    }
  }

  /** The bytes of a character: a lead byte of the length's range and continuation bytes, whose free bits make up the
      code point. */
  lemma EncodeCharBits(c: char)
    ensures var n, bs := c as int, EncodeChar(c);
            && (n < 0x80 ==> bs == [n])
            && (0x80 <= n < 0x800 ==>
                  |bs| == 2 && 0xC2 <= bs[0] < 0xE0 && n == (bs[0] as int - 0xC0) * 0x40 + (bs[1] as int - 0x80))
            && (0x800 <= n < 0x1_0000 ==>
                  |bs| == 3 && 0xE0 <= bs[0] < 0xF0
                  && n == (bs[0] as int - 0xE0) * 0x1000 + (bs[1] as int - 0x80) * 0x40 + (bs[2] as int - 0x80))
            && (0x1_0000 <= n ==>
                  |bs| == 4 && 0xF0 <= bs[0] < 0xF5
                  && n == (bs[0] as int - 0xF0) * 0x4_0000 + (bs[1] as int - 0x80) * 0x1000
                          + (bs[2] as int - 0x80) * 0x40 + (bs[3] as int - 0x80))
            && forall k | 0 < k < |bs| :: 0x80 <= bs[k] < 0xC0
  {
  }

  /** Decoding fails exactly on bytes that encode no text. */
  lemma DecodeFailsIff(bs: bytes)
    ensures Decode(bs).None? <==> forall s :: Encode(s) != bs
  {
    forall s | Encode(s) == bs ensures Decode(bs) == Some(s) { DecodeInverts(s); }
    if Decode(bs).Some? { assert Encode(Decode(bs).value) == bs; }
  }
}
