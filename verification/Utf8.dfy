/**
 * UTF-8 (section 3 of RFC 3629): how text becomes bytes for the cipher and comes back.
 * A `char` is a Unicode scalar value, so a `string` is well-formed text.
 */
module Utf8 {
  import opened Bits

  function EncodeChar(c: char): (bytes: seq<Byte>)
    ensures 1 <= |bytes| <= 4
  {
    var n := c as int;
    if n < 0x80 then [n]
    else if n < 0x800 then [0xC0 + n / 64, 0x80 + n % 64]
    else if n < 0x1_0000 then [0xE0 + n / 4096, 0x80 + n / 64 % 64, 0x80 + n % 64]
    else [0xF0 + n / 262144, 0x80 + n / 4096 % 64, 0x80 + n / 64 % 64, 0x80 + n % 64]
  }

  function Encode(text: string): seq<Byte> {
    if text == "" then [] else EncodeChar(text[0]) + Encode(text[1..])
  }

  predicate IsTail(b: Byte) {
    0x80 <= b < 0xC0
  }

  predicate IsScalar(n: int) {
    0 <= n < 0xD800 || 0xE000 <= n < 0x11_0000
  }

  datatype Lead = Lead(code: int, length: nat)

  /** The six bits a tail byte carries. */
  function TailBits(b: Byte): int {
    b as int - 0x80
  }

  /** The code point in front and its length in bytes; malformed input has no valid code. */
  function ReadLead(b: seq<Byte>): (r: Lead)
    requires b != []
    ensures 1 <= r.length <= |b|
  {
    var first: int := b[0];
    if first < 0x80 then Lead(first, 1)
    else if 0xC2 <= first < 0xE0 && |b| >= 2 && IsTail(b[1]) then
      Lead((first - 0xC0) * 64 + TailBits(b[1]), 2)
    else if 0xE0 <= first < 0xF0 && |b| >= 3 && IsTail(b[1]) && IsTail(b[2])
            && (first - 0xE0) * 64 + TailBits(b[1]) >= 32 then
      Lead((first - 0xE0) * 4096 + TailBits(b[1]) * 64 + TailBits(b[2]), 3)
    else if 0xF0 <= first < 0xF5 && |b| >= 4 && IsTail(b[1]) && IsTail(b[2]) && IsTail(b[3])
            && (first - 0xF0) * 64 + TailBits(b[1]) >= 16 then
      Lead((first - 0xF0) * 262144 + TailBits(b[1]) * 4096 + TailBits(b[2]) * 64 + TailBits(b[3]), 4)
    else Lead(-1, 1)
  }

  /** Malformed bytes read as the replacement character. */
  function Decode(b: seq<Byte>): string
    decreases |b|
  {
    if b == [] then ""
    else
      var lead := ReadLead(b);
      [if IsScalar(lead.code) then lead.code as char else '\U{FFFD}'] + Decode(b[lead.length..])
  }

  /** The bytes in front are no more and no less than those of the code point read. */
  lemma {:induction false} LeadIsEncoded(b: seq<Byte>)
    requires b != [] && IsScalar(ReadLead(b).code)
    ensures EncodeChar(ReadLead(b).code as char) == b[..ReadLead(b).length]
  {
    var first: int := b[0];
    if first >= 0xF0 {
      FourParts(first - 0xF0, TailBits(b[1]), TailBits(b[2]), TailBits(b[3]));
    } else if first >= 0xE0 {
      ThreeParts(first - 0xE0, TailBits(b[1]), TailBits(b[2]));
    } else if first >= 0x80 {
      SixBits(first - 0xC0, TailBits(b[1]));
    }
  }

  lemma {:induction false} ThreeParts(high: int, x: int, y: int)
    requires high >= 0 && 0 <= x < 64 && 0 <= y < 64
    ensures var n := high * 4096 + x * 64 + y;
            n / 4096 == high && n / 64 % 64 == x && n % 64 == y && n / 64 == high * 64 + x
  {
    SixBits(high * 64 + x, y);
    SixBits(high, x);
  }

  lemma {:induction false} FourParts(high: int, x: int, y: int, z: int)
    requires high >= 0 && 0 <= x < 64 && 0 <= y < 64 && 0 <= z < 64
    ensures var n := high * 262144 + x * 4096 + y * 64 + z;
            n / 262144 == high && n / 4096 % 64 == x && n / 64 % 64 == y && n % 64 == z
  {
    var n := high * 262144 + x * 4096 + y * 64 + z;
    SixBits(high * 4096 + x * 64 + y, z);
    ThreeParts(high, x, y);
    assert n / 4096 == n / 64 / 64 && n / 262144 == n / 64 / 4096;
  }

  lemma {:induction false} SixBits(high: int, low: int)
    requires high >= 0 && 0 <= low < 64
    ensures (high * 64 + low) / 64 == high && (high * 64 + low) % 64 == low
  {
  }

  lemma {:induction false} ThreeDigits(n: nat)
    requires n < 0x1_0000
    ensures n == n / 4096 * 4096 + n / 64 % 64 * 64 + n % 64
    ensures n >= 0x800 ==> n / 4096 * 64 + n / 64 % 64 >= 32
  {
    var h := n / 64;
    assert n / 4096 == h / 64;
  }

  lemma {:induction false} FourDigits(n: nat)
    requires n < 0x11_0000
    ensures n == n / 262144 * 262144 + n / 4096 % 64 * 4096 + n / 64 % 64 * 64 + n % 64
    ensures n >= 0x1_0000 ==> n / 262144 * 64 + n / 4096 % 64 >= 16
  {
    var h := n / 64;
    assert n / 4096 == h / 64 && n / 262144 == h / 64 / 64;
  }

  lemma {:induction false} ReadLeadOfShort(c: char, rest: seq<Byte>)
    requires c as int < 0x800
    ensures ReadLead(EncodeChar(c) + rest) == Lead(c as int, |EncodeChar(c)|)
  {
    var b := EncodeChar(c) + rest;
    if c as int >= 0x80 {
      assert b[1] == EncodeChar(c)[1];
    }
  }

  lemma {:induction false} ReadLeadOfThree(c: char, rest: seq<Byte>)
    requires 0x800 <= c as int < 0x1_0000
    ensures ReadLead(EncodeChar(c) + rest) == Lead(c as int, |EncodeChar(c)|)
  {
    var b := EncodeChar(c) + rest;
    assert b[1] == EncodeChar(c)[1] && b[2] == EncodeChar(c)[2];
    ThreeDigits(c as int);
  }

  lemma {:induction false} ReadLeadOfFour(c: char, rest: seq<Byte>)
    requires 0x1_0000 <= c as int
    ensures ReadLead(EncodeChar(c) + rest) == Lead(c as int, |EncodeChar(c)|)
  {
    var b := EncodeChar(c) + rest;
    assert b[1] == EncodeChar(c)[1] && b[2] == EncodeChar(c)[2] && b[3] == EncodeChar(c)[3];
    FourDigits(c as int);
  }

  lemma {:induction false} ReadLeadOfChar(c: char, rest: seq<Byte>)
    ensures ReadLead(EncodeChar(c) + rest) == Lead(c as int, |EncodeChar(c)|)
  {
    if c as int < 0x800 {
      ReadLeadOfShort(c, rest);
    } else if c as int < 0x1_0000 {
      ReadLeadOfThree(c, rest);
    } else {
      ReadLeadOfFour(c, rest);
    }
  }

  lemma {:induction false} DecodeEncode(text: string)
    ensures Decode(Encode(text)) == text
  {
    if text != "" {
      var first, rest := EncodeChar(text[0]), Encode(text[1..]);
      ReadLeadOfChar(text[0], rest);
      assert (first + rest)[|first|..] == rest;
      DecodeEncode(text[1..]);
      assert text == [text[0]] + text[1..];
    }
  }

  /** Bytes that read without a replacement character are the encoding of what is read. */
  lemma {:induction false} EncodeDecode(b: seq<Byte>)
    requires '\U{FFFD}' !in Decode(b)
    ensures Encode(Decode(b)) == b
    decreases |b|
  {
    if b != [] {
      var lead := ReadLead(b);
      var text, rest := Decode(b), Decode(b[lead.length..]);
      assert text[0] != '\U{FFFD}' && text[1..] == rest;
      LeadIsEncoded(b);
      EncodeDecode(b[lead.length..]);
      assert b == b[..lead.length] + b[lead.length..];
    }
  }
}
