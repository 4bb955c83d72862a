/**
 * Bit strings, most significant bit first: cutting a byte string into groups of k bits and
 * putting it together again.  Both base32 and base64 are this with k = 5 and k = 6.
 */
module Bits {
  import opened PowersOfTwo

  type Byte = b: int | 0 <= b < 256

  function Zeros(n: nat): (z: seq<bool>)
    ensures |z| == n
  {
    seq(n, i => false)
  }

  /** The low `width` bits of a number. */
  function ToBits(n: nat, width: nat): (b: seq<bool>)
    ensures |b| == width
  {
    if width == 0 then [] else ToBits(n / 2, width - 1) + [n % 2 == 1]
  }

  function FromBits(b: seq<bool>): (n: nat)
    ensures n < Two(|b|)
  {
    if b == [] then 0
    else 2 * FromBits(b[..|b| - 1]) + if b[|b| - 1] then 1 else 0
  }

  lemma {:induction false} FromToBits(n: nat, width: nat)
    requires n < Two(width)
    ensures FromBits(ToBits(n, width)) == n
  {
    if width > 0 {
      var b := ToBits(n, width);
      assert b[..|b| - 1] == ToBits(n / 2, width - 1);
      FromToBits(n / 2, width - 1);
    }
  }

  lemma {:induction false} ToFromBits(b: seq<bool>)
    ensures ToBits(FromBits(b), |b|) == b
  {
    if b != [] {
      ToFromBits(b[..|b| - 1]);
      assert FromBits(b) / 2 == FromBits(b[..|b| - 1]);
    }
  }

  lemma {:induction false} FromBitsSnoc(s: seq<bool>, last: bool)
    ensures FromBits(s + [last]) == 2 * FromBits(s) + if last then 1 else 0
  {
    assert (s + [last])[..|s|] == s;
  }

  lemma {:induction false} FromBitsAppend(a: seq<bool>, b: seq<bool>)
    ensures FromBits(a + b) == FromBits(a) * Two(|b|) + FromBits(b)
  {
    if b == [] {
      assert a + b == a;
    } else {
      var c, last := b[..|b| - 1], b[|b| - 1];
      assert b == c + [last] && a + b == (a + c) + [last];
      FromBitsSnoc(c, last);
      FromBitsSnoc(a + c, last);
      FromBitsAppend(a, c);
      DoubledProduct(FromBits(a), Two(|c|));
    }
  }

  lemma {:induction false} DoubledProduct(a: nat, p: nat)
    ensures a * (2 * p) == 2 * (a * p)
  {
  }

  /** Bit string cut into groups of k, the last one filled up with zeros. */
  function Chunks(bits: seq<bool>, k: nat): (digits: seq<nat>)
    requires k > 0
    ensures forall i :: 0 <= i < |digits| ==> digits[i] < Two(k)
    decreases |bits|
  {
    if bits == [] then []
    else if |bits| < k then [FromBits(bits + Zeros(k - |bits|))]
    else [FromBits(bits[..k])] + Chunks(bits[k..], k)
  }

  lemma {:induction false} ChunksLength(bits: seq<bool>, k: nat)
    requires k > 0
    ensures |Chunks(bits, k)| == (|bits| + k - 1) / k
    decreases |bits|
  {
    if bits == [] {
      DivUnique(k - 1, k, 0);
    } else if |bits| < k {
      AtMostOneGroup(|bits|, k);
    } else {
      OneGroupLess(|bits|, k);
      ChunksLength(bits[k..], k);
    }
  }

  lemma {:induction false} AtMostOneGroup(n: nat, k: nat)
    requires 0 < n < k
    ensures (n + k - 1) / k == 1
  {
    DivUnique(n + k - 1, k, 1);
  }

  lemma {:induction false} OneGroupLess(n: nat, k: nat)
    requires 0 < k <= n
    ensures (n + k - 1) / k == 1 + (n - k + k - 1) / k
  {
    DivUnique(n + k - 1, k, 1 + (n - 1) / k);
  }

  lemma DivUnique(n: int, k: int, q: int)
    requires k > 0 && k * q <= n < k * q + k
    ensures n / k == q && n % k == n - k * q
  {
    var d := n / k - q;
    assert k * (n / k) <= n < k * (n / k) + k;
    MultipleBounds(k, d);
    assert k * (n / k) == k * q + k * d;
  }

  lemma {:induction false} MultipleBounds(k: nat, d: int)
    ensures d >= 1 ==> k * d >= k
    ensures d <= -1 ==> k * d + k <= 0
  {
  }

  /** The groups written out again. */
  function Unchunk(digits: seq<nat>, k: nat): (bits: seq<bool>) {
    if digits == [] then [] else ToBits(digits[0], k) + Unchunk(digits[1..], k)
  }

  function ByteBits(bytes: seq<Byte>): (bits: seq<bool>) {
    Unchunk(bytes, 8)
  }

  lemma {:induction false} ByteBitsLength(bytes: seq<Byte>)
    ensures |ByteBits(bytes)| == 8 * |bytes|
  {
    if bytes != [] {
      ByteBitsLength(bytes[1..]);
    }
  }

  /** Whole octets of a bit string; fewer than eight bits left over are dropped. */
  function Octets(bits: seq<bool>): (bytes: seq<Byte>)
    decreases |bits|
  {
    if |bits| < 8 then []
    else
      assert Two(8) == 256;
      [FromBits(bits[..8])] + Octets(bits[8..])
  }

  /** Cutting loses nothing: the groups spell the bit string and then fewer than k zeros. */
  lemma {:induction false} UnchunkChunks(bits: seq<bool>, k: nat) returns (pad: nat)
    requires k > 0
    ensures pad < k && Unchunk(Chunks(bits, k), k) == bits + Zeros(pad)
    decreases |bits|
  {
    if bits == [] {
      pad := 0;
    } else if |bits| < k {
      pad := k - |bits|;
      ToFromBits(bits + Zeros(pad));
      assert Chunks(bits, k)[1..] == [];
    } else {
      pad := UnchunkChunks(bits[k..], k);
      ToFromBits(bits[..k]);
      assert Chunks(bits, k)[1..] == Chunks(bits[k..], k);
      assert bits == bits[..k] + bits[k..];
    }
  }

  /** Groups in front of a bit string are cut off as they are. */
  lemma {:induction false} ChunksOfGroups(digits: seq<nat>, bits: seq<bool>, k: nat)
    requires k > 0 && forall i :: 0 <= i < |digits| ==> digits[i] < Two(k)
    ensures Chunks(Unchunk(digits, k) + bits, k) == digits + Chunks(bits, k)
  {
    if digits == [] {
      assert Unchunk(digits, k) + bits == bits;
    } else {
      assert Unchunk(digits, k) + bits == ToBits(digits[0], k) + (Unchunk(digits[1..], k) + bits);
      ChunksOfDigit(digits[0], Unchunk(digits[1..], k) + bits, k);
      ChunksOfGroups(digits[1..], bits, k);
    }
  }

  lemma {:induction false} ChunksOfDigit(d: nat, rest: seq<bool>, k: nat)
    requires k > 0 && d < Two(k)
    ensures Chunks(ToBits(d, k) + rest, k) == [d] + Chunks(rest, k)
  {
    FromToBits(d, k);
    assert (ToBits(d, k) + rest)[..k] == ToBits(d, k);
    assert (ToBits(d, k) + rest)[k..] == rest;
  }

  /** A group moved from the bits behind the groups to the end of the groups. */
  lemma {:induction false} MoveGroup(digits: seq<nat>, bits: seq<bool>, k: nat)
    requires k <= |bits|
    ensures Unchunk(digits + [FromBits(bits[..k])], k) + bits[k..] == Unchunk(digits, k) + bits
  {
    UnchunkAppend(digits, [FromBits(bits[..k])], k);
    ToFromBits(bits[..k]);
    assert bits == bits[..k] + bits[k..];
  }

  lemma {:induction false} UnchunkAppend(a: seq<nat>, b: seq<nat>, k: nat)
    ensures Unchunk(a + b, k) == Unchunk(a, k) + Unchunk(b, k)
  {
    if a == [] {
      assert a + b == b;
    } else {
      assert (a + b)[1..] == a[1..] + b;
      UnchunkAppend(a[1..], b, k);
    }
  }

  lemma {:induction false} OctetsOfBytes(bytes: seq<Byte>, rest: seq<bool>)
    requires |rest| < 8
    ensures Octets(ByteBits(bytes) + rest) == bytes
  {
    if bytes == [] {
      assert ByteBits(bytes) + rest == rest;
    } else {
      var s := ByteBits(bytes) + rest;
      assert s[..8] == ToBits(bytes[0], 8);
      assert s[8..] == ByteBits(bytes[1..]) + rest;
      assert Two(8) == 256;
      FromToBits(bytes[0], 8);
      OctetsOfBytes(bytes[1..], rest);
    }
  }

  /** Bytes cut into groups of at most eight bits can be put together again. */
  lemma {:induction false} GroupingLossless(bytes: seq<Byte>, k: nat)
    requires 0 < k <= 8
    ensures Octets(Unchunk(Chunks(ByteBits(bytes), k), k)) == bytes
  {
    var pad := UnchunkChunks(ByteBits(bytes), k);
    OctetsOfBytes(bytes, Zeros(pad));
  }
}
