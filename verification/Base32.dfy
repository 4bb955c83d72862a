/**
 * Crockford base32 (`encodeBase32` in lib/crypto.ts): a bit buffer in a 32-bit integer that
 * is shifted and never masked, against cutting the bit string in fives.
 */
module Base32 {
  import opened Text
  import opened PowersOfTwo
  import opened Bits

  // ----- JavaScript's bitwise operators on 32-bit patterns -----

  type Word = w: int | 0 <= w < 0x1_0000_0000

  function Or(a: nat, b: nat): nat {
    if a == 0 && b == 0 then 0
    else 2 * Or(a / 2, b / 2) + if a % 2 == 1 || b % 2 == 1 then 1 else 0
  }

  function And(a: nat, b: nat): nat {
    if a == 0 || b == 0 then 0
    else 2 * And(a / 2, b / 2) + if a % 2 == 1 && b % 2 == 1 then 1 else 0
  }

  predicate Bit(n: nat, k: nat) {
    if k == 0 then n % 2 == 1 else Bit(n / 2, k - 1)
  }

  lemma {:induction false} ZeroBits(k: nat)
    ensures !Bit(0, k)
  {
    if k > 0 {
      ZeroBits(k - 1);
    }
  }

  /** Both operators work bit by bit. */
  lemma {:induction false} BitByBit(a: nat, b: nat, k: nat)
    ensures Bit(Or(a, b), k) <==> Bit(a, k) || Bit(b, k)
    ensures Bit(And(a, b), k) <==> Bit(a, k) && Bit(b, k)
  {
    if a == 0 || b == 0 {
      ZeroBits(k);
    }
    if k > 0 {
      BitByBit(a / 2, b / 2, k - 1);
    }
  }

  /** `<<`: the bits shifted out at the top are lost. */
  function ShiftLeft(w: Word, k: nat): Word {
    (w * Two(k)) % 0x1_0000_0000
  }

  /** `>>>`. */
  function ShiftRight(w: Word, k: nat): Word
  {
    WordQuotientBound(w, Two(k));
    w / Two(k)
  }

  lemma {:induction false} WordQuotientBound(w: nat, p: nat)
    requires p >= 1
    ensures 0 <= w / p <= w
  {
    var q := w / p;
    assert p * q <= w;
    assert p * q == q + (p - 1) * q;
    assert (p - 1) * q >= 0;
  }

  /** Or-ing a byte into eight zero bits adds it. */
  lemma {:induction false} OrByte(a: nat, b: nat)
    requires a % 256 == 0 && b < 256
    ensures Or(a, b) == a + b
  {
    OrLow(a, b, 8);
  }

  lemma {:induction false} OrLow(a: nat, b: nat, k: nat)
    requires a % Two(k) == 0 && b < Two(k)
    ensures Or(a, b) == a + b
    decreases k
  {
    if k == 0 {
      OrZero(a);
    } else if a != 0 || b != 0 {
      HalfMultiple(a, Two(k - 1));
      OrLow(a / 2, b / 2, k - 1);
    }
  }

  lemma {:induction false} OrZero(a: nat)
    ensures Or(a, 0) == a
  {
    if a != 0 {
      OrZero(a / 2);
    }
  }

  lemma {:induction false} HalfMultiple(a: nat, p: nat)
    requires p >= 1 && a % (2 * p) == 0
    ensures a % 2 == 0 && (a / 2) % p == 0
  {
    var q := a / (2 * p);
    assert (2 * p) * q == 2 * (p * q);
    DivUnique(a / 2, p, q);
  }

  lemma {:induction false} AndUnfolds(a: nat, mask: nat, half: nat) returns (b: nat, bit: nat)
    requires mask == 2 * half + 1
    ensures And(a, mask) == 2 * And(b, half) + bit
    ensures a == 2 * b + bit && bit < 2
  {
    b, bit := a / 2, a % 2;
  }

  /** Masking with 31 keeps the low five bits. */
  lemma {:induction false} And31(a: nat)
    ensures And(a, 31) == a % 32
  {
    var b, bit0 := AndUnfolds(a, 31, 15);
    var c, bit1 := AndUnfolds(b, 15, 7);
    var d, bit2 := AndUnfolds(c, 7, 3);
    var e, bit3 := AndUnfolds(d, 3, 1);
    var f, bit4 := AndUnfolds(e, 1, 0);
    assert And(f, 0) == 0;
    LowFiveBits(a, f, bit0, bit1, bit2, bit3, bit4);
  }

  lemma {:induction false} LowFiveBits(a: nat, f: nat, bit0: nat, bit1: nat, bit2: nat, bit3: nat, bit4: nat)
    requires bit0 < 2 && bit1 < 2 && bit2 < 2 && bit3 < 2 && bit4 < 2
    requires a == 2 * (2 * (2 * (2 * (2 * f + bit4) + bit3) + bit2) + bit1) + bit0
    ensures a % 32 == 2 * (2 * (2 * (2 * bit4 + bit3) + bit2) + bit1) + bit0
  {
    DivUnique(a, 32, f);
  }

  // ----- The alphabet -----

  const ALPHABET: string := "0123456789ABCDEFGHJKMNPQRSTVWXYZ"

  /** The alphabet is runs of neighbouring characters. */
  lemma {:induction false} SymbolInRun(d: nat)
    requires d < 32
    ensures ALPHABET[d] as int ==
            if d < 10 then '0' as int + d else if d < 18 then 'A' as int + d - 10
            else if d < 20 then 'J' as int + d - 18 else if d < 22 then 'M' as int + d - 20
            else if d < 27 then 'P' as int + d - 22 else 'V' as int + d - 27
  {
  }

  predicate IsSymbol(c: char) {
    ('0' <= c <= '9' || 'A' <= c <= 'Z') && c != 'I' && c != 'L' && c != 'O' && c != 'U'
  }

  /** The symbols are the digits and the capitals without I, L, O and U. */
  lemma {:induction false} SymbolsAre(c: char)
    ensures c in ALPHABET <==> IsSymbol(c)
  {
    if IsSymbol(c) {
      var d := if c <= '9' then c as int - '0' as int
               else c as int - 'A' as int + 10 - (if c > 'U' then 4 else if c > 'O' then 3 else if c > 'L' then 2
                                                  else if c > 'I' then 1 else 0);
      SymbolInRun(d);
      assert ALPHABET[d] == c;
    }
    if c in ALPHABET {
      var d :| 0 <= d < |ALPHABET| && ALPHABET[d] == c;
      SymbolInRun(d);
    }
  }

  function SymbolOf(d: nat): char
    requires d < 32
  {
    ALPHABET[d]
  }

  function Symbols(digits: seq<nat>): (s: string)
    requires forall i :: 0 <= i < |digits| ==> digits[i] < 32
    ensures |s| == |digits|
    ensures forall i :: 0 <= i < |s| ==> s[i] == SymbolOf(digits[i])
  {
    seq(|digits|, i requires 0 <= i < |digits| => SymbolOf(digits[i]))
  }

  /** The plain meaning: the bits of all the bytes, cut in fives. */
  function Encoded(bytes: seq<Byte>): string {
    assert Two(5) == 32;
    Symbols(Chunks(ByteBits(bytes), 5))
  }

  // ----- The encoder -----

  /** `value` holds the bits not yet written in its low bits, above them anything. */
  ghost predicate Holds(value: Word, pending: seq<bool>) {
    value % Two(|pending|) == FromBits(pending)
  }

  lemma {:induction false} AppendByte(bytes: seq<Byte>, i: nat) returns (octet: seq<bool>)
    requires i < |bytes|
    ensures ByteBits(bytes[..i + 1]) == ByteBits(bytes[..i]) + octet
    ensures |octet| == 8 && FromBits(octet) == bytes[i]
  {
    octet := ToBits(bytes[i], 8);
    assert bytes[..i + 1] == bytes[..i] + [bytes[i]];
    UnchunkAppend(bytes[..i], [bytes[i]], 8);
    assert Unchunk([bytes[i]], 8) == octet;
    assert Two(8) == 256;
    FromToBits(bytes[i], 8);
  }

  /** The powers the buffer is used with. */
  lemma Powers()
    ensures Two(0) == 1 && Two(1) == 2 && Two(2) == 4 && Two(3) == 8 && Two(4) == 16
    ensures Two(5) == 32 && Two(6) == 64 && Two(7) == 128 && Two(8) == 256 && Two(9) == 512
    ensures Two(10) == 1024 && Two(11) == 2048 && Two(12) == 4096
  {
  }

  /** A byte shifted in joins the pending bits, whatever fell off the top. */
  lemma {:induction false} ShiftedIn(value: Word, byte: Byte, pending: seq<bool>, octet: seq<bool>)
    requires |pending| < 5 && Holds(value, pending)
    requires |octet| == 8 && FromBits(octet) == byte
    ensures Or(ShiftLeft(value, 8), byte) < 0x1_0000_0000
    ensures Holds(Or(ShiftLeft(value, 8), byte), pending + octet)
  {
    Powers();
    var shifted := (value * 256) % 0x1_0000_0000;
    assert ShiftLeft(value, 8) == shifted;
    ShiftKeepsLow(value, byte, |pending|);
    OrByte(shifted, byte);
    FromBitsAppend(pending, octet);
  }

  lemma {:induction false} ShiftKeepsLow(value: Word, byte: Byte, p: nat)
    requires p < 5
    ensures ((value * 256) % 0x1_0000_0000) % 256 == 0
    ensures (value * 256) % 0x1_0000_0000 + byte < 0x1_0000_0000
    ensures ((value * 256) % 0x1_0000_0000 + byte) % Two(p + 8) == (value % Two(p)) * 256 + byte
  {
    Powers();
    var top := value / 0x100_0000;
    var low := value - top * 0x100_0000;
    assert (value * 256) % 0x1_0000_0000 == low * 256;
    if p == 0 {
      DivUnique(low * 256 + byte, 256, low);
    } else if p == 1 {
      DivUnique(low * 256 + byte, 512, value / 2 - top * 0x80_0000);
    } else if p == 2 {
      DivUnique(low * 256 + byte, 1024, value / 4 - top * 0x40_0000);
    } else if p == 3 {
      DivUnique(low * 256 + byte, 2048, value / 8 - top * 0x20_0000);
    } else {
      DivUnique(low * 256 + byte, 4096, value / 16 - top * 0x10_0000);
    }
  }

  /** The five bits written next are the five oldest pending bits. */
  lemma {:induction false} TakeFive(value: Word, pending: seq<bool>)
    requires 5 <= |pending| < 13 && Holds(value, pending)
    ensures And(ShiftRight(value, |pending| - 5), 31) == FromBits(pending[..5]) < 32
    ensures Holds(value, pending[5..])
  {
    Powers();
    var rest := |pending| - 5;
    And31(ShiftRight(value, rest));
    assert pending == pending[..5] + pending[5..];
    FromBitsAppend(pending[..5], pending[5..]);
    SplitLow(value, Two(rest), FromBits(pending[..5]), FromBits(pending[5..]));
  }

  lemma {:induction false} SplitLow(value: nat, p: nat, high: nat, low: nat)
    requires p >= 1 && high < 32 && low < p
    requires value % (32 * p) == high * p + low
    ensures (value / p) % 32 == high && value % p == low
  {
    var q := value / (32 * p);
    assert (32 * p) * q == p * (32 * q);
    assert p * (32 * q + high) == p * (32 * q) + high * p;
    DivUnique(value, p, 32 * q + high);
    DivUnique(32 * q + high, 32, q);
  }

  /** The bits left at the end are filled up with zeros. */
  lemma {:induction false} LastGroup(value: Word, pending: seq<bool>)
    requires 0 < |pending| < 5 && Holds(value, pending)
    ensures And(ShiftLeft(value, 5 - |pending|), 31) == FromBits(pending + Zeros(5 - |pending|)) < 32
  {
    Powers();
    var pad := 5 - |pending|;
    And31(ShiftLeft(value, pad));
    FromBitsAppend(pending, Zeros(pad));
    FromZeros(pad);
    LastShift(value, |pending|);
  }

  lemma {:induction false} LastShift(value: Word, p: nat)
    requires 0 < p < 5
    ensures ((value * Two(5 - p)) % 0x1_0000_0000) % 32 == (value % Two(p)) * Two(5 - p)
  {
    Powers();
    if p == 1 {
      LowFive(value * 16, value / 2);
    } else if p == 2 {
      LowFive(value * 8, value / 4);
    } else if p == 3 {
      LowFive(value * 4, value / 8);
    } else {
      LowFive(value * 2, value / 16);
    }
  }

  lemma {:induction false} LowFive(x: nat, q: nat)
    requires 32 * q <= x < 32 * q + 32
    ensures (x % 0x1_0000_0000) % 32 == x - 32 * q
  {
    var top := x / 0x1_0000_0000;
    DivUnique(x % 0x1_0000_0000, 32, q - top * 0x800_0000);
  }

  lemma {:induction false} FromZeros(n: nat)
    ensures FromBits(Zeros(n)) == 0
  {
    if n > 0 {
      assert Zeros(n)[..n - 1] == Zeros(n - 1);
      FromZeros(n - 1);
    }
  }

  /** The encoder's loop state: everything consumed so far is written or pending. */
  ghost predicate Progress(consumed: seq<bool>, output: string, value: Word, bits: nat, digits: seq<nat>,
                           pending: seq<bool>) {
    && bits == |pending| && Holds(value, pending)
    && Written(output, digits) && consumed == Unchunk(digits, 5) + pending
  }

  ghost predicate Written(output: string, digits: seq<nat>) {
    (forall j :: 0 <= j < |digits| ==> digits[j] < 32) && output == Symbols(digits)
  }

  lemma {:induction false} ByteStep(bytes: seq<Byte>, i: nat, output: string, value: Word, bits: nat,
                                    digits: seq<nat>, pending: seq<bool>)
    returns (octet: seq<bool>)
    requires i < |bytes| && bits < 5
    requires Progress(ByteBits(bytes[..i]), output, value, bits, digits, pending)
    ensures Or(ShiftLeft(value, 8), bytes[i]) < 0x1_0000_0000
    ensures Progress(ByteBits(bytes[..i + 1]), output, Or(ShiftLeft(value, 8), bytes[i]), bits + 8,
                     digits, pending + octet)
  {
    octet := AppendByte(bytes, i);
    ShiftedIn(value, bytes[i], pending, octet);
    Reassociate(Unchunk(digits, 5), pending, octet);
  }

  lemma {:induction false} Reassociate(a: seq<bool>, b: seq<bool>, c: seq<bool>)
    ensures (a + b) + c == a + (b + c)
  {
  }

  lemma {:induction false} SymbolStep(consumed: seq<bool>, output: string, value: Word, bits: nat, digits: seq<nat>,
                                      pending: seq<bool>)
    requires 5 <= bits < 13 && Progress(consumed, output, value, bits, digits, pending)
    ensures And(ShiftRight(value, bits - 5), 31) < 32
    ensures Progress(consumed, output + [SymbolOf(And(ShiftRight(value, bits - 5), 31))], value, bits - 5,
                     digits + [And(ShiftRight(value, bits - 5), 31)], pending[5..])
  {
    TakeFive(value, pending);
    MoveGroup(digits, pending, 5);
  }

  lemma {:induction false} Finish(bytes: seq<Byte>, output: string, value: Word, bits: nat, digits: seq<nat>,
                                  pending: seq<bool>)
    requires bits < 5 && Progress(ByteBits(bytes), output, value, bits, digits, pending)
    ensures bits == 0 ==> output == Encoded(bytes)
    ensures bits > 0 ==> And(ShiftLeft(value, 5 - bits), 31) < 32
    ensures bits > 0 ==> output + [SymbolOf(And(ShiftLeft(value, 5 - bits), 31))] == Encoded(bytes)
  {
    assert Two(5) == 32;
    ChunksOfGroups(digits, pending, 5);
    if bits > 0 {
      LastGroup(value, pending);
    }
  }

  method EncodeBase32(bytes: seq<Byte>) returns (output: string)
    ensures output == Encoded(bytes)
  {
    var bits := 0;
    var value: Word := 0;
    output := "";
    ghost var digits: seq<nat> := [];
    ghost var pending: seq<bool> := [];
    for i := 0 to |bytes|
      invariant bits < 5 && Progress(ByteBits(bytes[..i]), output, value, bits, digits, pending)
    {
      ghost var octet := ByteStep(bytes, i, output, value, bits, digits, pending);
      value := Or(ShiftLeft(value, 8), bytes[i]);
      bits := bits + 8;
      pending := pending + octet;
      while bits >= 5
        invariant bits < 13 && Progress(ByteBits(bytes[..i + 1]), output, value, bits, digits, pending)
      {
        SymbolStep(ByteBits(bytes[..i + 1]), output, value, bits, digits, pending);
        digits := digits + [And(ShiftRight(value, bits - 5), 31)];
        pending := pending[5..];
        output := output + [SymbolOf(And(ShiftRight(value, bits - 5), 31))];
        bits := bits - 5;
      }
    }
    assert bytes[..|bytes|] == bytes;
    Finish(bytes, output, value, bits, digits, pending);
    if bits > 0 {
      output := output + [SymbolOf(And(ShiftLeft(value, 5 - bits), 31))];
    }
  }

  // ----- Decoding -----

  /** The value of a symbol; `None` for a character outside the alphabet. */
  function ValueOf(c: char): Option<nat> {
    IndexFrom(c, 0)
  }

  function IndexFrom(c: char, i: nat): Option<nat>
    requires i <= 32
    decreases 32 - i
  {
    if i == 32 then None else if ALPHABET[i] == c then Some(i) else IndexFrom(c, i + 1)
  }

  function Decode(text: string): Option<seq<Byte>> {
    match Values(text)
    case None => None
    case Some(digits) => Some(Octets(Unchunk(digits, 5)))
  }

  function Values(text: string): Option<seq<nat>> {
    if text == [] then Some([])
    else match (ValueOf(text[0]), Values(text[1..]))
         case (Some(d), Some(rest)) => Some([d] + rest)
         case _ => None
  }

  /** The alphabet is in character order, so its symbols are distinct. */
  lemma {:induction false} AlphabetAscends(i: nat, j: nat)
    requires i < j < 32
    ensures ALPHABET[i] < ALPHABET[j]
    decreases j - i
  {
    assert forall k :: 0 <= k < 31 ==> ALPHABET[k] < ALPHABET[k + 1];
    if i + 1 < j {
      AlphabetAscends(i + 1, j);
    }
  }

  lemma {:induction false} IndexOfSymbol(d: nat, i: nat)
    requires i <= d < 32
    ensures IndexFrom(ALPHABET[d], i) == Some(d)
    decreases d - i
  {
    if i < d {
      AlphabetAscends(i, d);
      IndexOfSymbol(d, i + 1);
    }
  }

  lemma {:induction false} ValuesOfSymbols(digits: seq<nat>)
    requires forall i :: 0 <= i < |digits| ==> digits[i] < 32
    ensures Values(Symbols(digits)) == Some(digits)
  {
    if digits != [] {
      IndexOfSymbol(digits[0], 0);
      assert ValueOf(Symbols(digits)[0]) == Some(digits[0]);
      assert Symbols(digits)[1..] == Symbols(digits[1..]);
      ValuesOfSymbols(digits[1..]);
      assert [digits[0]] + digits[1..] == digits;
    }
  }

  /** The text has ceil(8n / 5) symbols and reads back to the bytes. */
  lemma {:induction false} EncodedReads(bytes: seq<Byte>)
    ensures |Encoded(bytes)| == (8 * |bytes| + 4) / 5
    ensures Decode(Encoded(bytes)) == Some(bytes)
  {
    Powers();
    ByteBitsLength(bytes);
    ChunksLength(ByteBits(bytes), 5);
    ValuesOfSymbols(Chunks(ByteBits(bytes), 5));
    GroupingLossless(bytes, 5);
  }

  /** Different byte strings, of whatever lengths, have different texts. */
  lemma {:induction false} EncodedInjective(a: seq<Byte>, b: seq<Byte>)
    ensures Encoded(a) == Encoded(b) <==> a == b
  {
    EncodedReads(a);
    EncodedReads(b);
  }
}
