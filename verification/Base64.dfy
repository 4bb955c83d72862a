/**
 * Base64 (section 4 of RFC 4648), as `Buffer.toString('base64')` writes it and
 * `Buffer.from(text, 'base64')` reads it.
 */
module Base64 {
  import opened PowersOfTwo
  import opened Bits

  function SextetChar(d: nat): (c: char)
    requires d < 64
    ensures c != ':' && c != '='
  {
    if d < 26 then ('A' as int + d) as char
    else if d < 52 then ('a' as int + (d - 26)) as char
    else if d < 62 then ('0' as int + (d - 52)) as char
    else if d == 62 then '+' else '/'
  }

  predicate IsSextetChar(c: char) {
    'A' <= c <= 'Z' || 'a' <= c <= 'z' || '0' <= c <= '9' || c == '+' || c == '/'
  }

  function SextetValue(c: char): (d: nat)
    requires IsSextetChar(c)
    ensures d < 64
  {
    if 'A' <= c <= 'Z' then c as int - 'A' as int
    else if 'a' <= c <= 'z' then c as int - 'a' as int + 26
    else if '0' <= c <= '9' then c as int - '0' as int + 52
    else if c == '+' then 62 else 63
  }

  lemma {:induction false} SextetRoundTrip(d: nat)
    requires d < 64
    ensures IsSextetChar(SextetChar(d)) && SextetValue(SextetChar(d)) == d
  {
  }

  function Sextets(digits: seq<nat>): (s: string)
    requires forall i :: 0 <= i < |digits| ==> digits[i] < 64
    ensures forall i :: 0 <= i < |s| ==> s[i] != ':'
  {
    if digits == [] then "" else [SextetChar(digits[0])] + Sextets(digits[1..])
  }

  /** One or two `=` fill the last group of four characters. */
  function Padding(digits: nat): (s: string)
    ensures forall i :: 0 <= i < |s| ==> s[i] == '='
    ensures (digits + |s|) % 4 == 0 && |s| < 4
  {
    seq((4 - digits % 4) % 4, i => '=')
  }

  function Encode(bytes: seq<Byte>): (text: string)
    ensures forall i :: 0 <= i < |text| ==> text[i] != ':'
  {
    assert Two(6) == 64;
    var digits := Chunks(ByteBits(bytes), 6);
    Sextets(digits) + Padding(|digits|)
  }

  /** The sextets up to the first `=`; characters outside the alphabet are passed over. */
  function Values(text: string): seq<nat> {
    if text == "" || text[0] == '=' then []
    else (if IsSextetChar(text[0]) then [SextetValue(text[0])] else []) + Values(text[1..])
  }

  function Decode(text: string): seq<Byte> {
    Octets(Unchunk(Values(text), 6))
  }

  lemma {:induction false} ValuesOfSextets(digits: seq<nat>, padding: string)
    requires forall i :: 0 <= i < |digits| ==> digits[i] < 64
    requires forall i :: 0 <= i < |padding| ==> padding[i] == '='
    ensures Values(Sextets(digits) + padding) == digits
  {
    var text := Sextets(digits) + padding;
    if digits == [] {
      assert text == padding;
    } else {
      SextetRoundTrip(digits[0]);
      assert text[1..] == Sextets(digits[1..]) + padding;
      ValuesOfSextets(digits[1..], padding);
    }
  }

  /** Decoding undoes encoding, on every byte string. */
  lemma {:induction false} DecodeEncode(bytes: seq<Byte>)
    ensures Decode(Encode(bytes)) == bytes
  {
    assert Two(6) == 64;
    var digits := Chunks(ByteBits(bytes), 6);
    ValuesOfSextets(digits, Padding(|digits|));
    GroupingLossless(bytes, 6);
  }
}
