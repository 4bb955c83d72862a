/**
 * Stored provider credentials (lib/crypto.ts): the `v1:iv:tag:ciphertext` envelope and the
 * one-entry key cache.  The cipher and the key derivation are given functions.
 */
module SecretBox {
  import opened Text
  import opened Bits
  import Base64
  import Utf8

  const VERSION: string := "v1"

  datatype Sealed = Sealed(ciphertext: seq<Byte>, tag: seq<Byte>)

  /** AES-256-GCM: key, iv and plain bytes in; key, iv, tag and ciphertext back. */
  datatype Cipher = Cipher(
    seal: (seq<Byte>, seq<Byte>, seq<Byte>) -> Sealed,
    unseal: (seq<Byte>, seq<Byte>, seq<Byte>, seq<Byte>) -> Option<seq<Byte>>)

  /** What is assumed of it: unsealing with the same key, iv and tag undoes sealing. */
  ghost predicate UnsealsWhatItSeals(cipher: Cipher) {
    forall key, iv, plain ::
      var s := cipher.seal(key, iv, plain);
      cipher.unseal(key, iv, s.tag, s.ciphertext) == Some(plain)
  }

  datatype DecryptResult = Plain(text: string) | Malformed | NotAuthentic

  function Envelope(cipher: Cipher, key: seq<Byte>, iv: seq<Byte>, plaintext: string): string {
    var s := cipher.seal(key, iv, Utf8.Encode(plaintext));
    Join([VERSION, Base64.Encode(iv), Base64.Encode(s.tag), Base64.Encode(s.ciphertext)], ':')
  }

  predicate IsEnvelope(encoded: string) {
    var parts := Split(encoded, ':');
    |parts| == 4 && parts[0] == VERSION
  }

  function OpenEnvelope(cipher: Cipher, key: seq<Byte>, encoded: string): DecryptResult {
    if !IsEnvelope(encoded) then Malformed
    else
      var parts := Split(encoded, ':');
      match cipher.unseal(key, Base64.Decode(parts[1]), Base64.Decode(parts[2]), Base64.Decode(parts[3]))
      case None => NotAuthentic
      case Some(plain) => Plain(Utf8.Decode(plain))
  }

  /** An envelope is any text that begins with v1 and a colon and has three colons. */
  lemma {:induction false} EnvelopeIs(encoded: string)
    ensures IsEnvelope(encoded) <==> "v1:" <= encoded && multiset(encoded)[':'] == 3
  {
    SplitCount(encoded, ':');
    FirstPart(encoded, ':');
    if "v1:" <= encoded {
      var rest := encoded[|"v1:"|..];
      assert encoded == "v1" + [':'] + rest;
      SplitPrefix("v1", ':', rest);
    }
  }

  /** The four parts survive the colons, whatever the iv, tag and ciphertext bytes are. */
  lemma {:induction false} EnvelopeOpens(cipher: Cipher, key: seq<Byte>, iv: seq<Byte>, plaintext: string)
    requires UnsealsWhatItSeals(cipher)
    ensures OpenEnvelope(cipher, key, Envelope(cipher, key, iv, plaintext)) == Plain(plaintext)
  {
    var s := cipher.seal(key, iv, Utf8.Encode(plaintext));
    var parts := [VERSION, Base64.Encode(iv), Base64.Encode(s.tag), Base64.Encode(s.ciphertext)];
    SplitJoin(parts, ':');
    Base64.DecodeEncode(iv);
    Base64.DecodeEncode(s.tag);
    Base64.DecodeEncode(s.ciphertext);
    Utf8.DecodeEncode(plaintext);
  }

  // ----- The key cache -----

  datatype CachedKey = CachedKey(secret: string, key: seq<Byte>)

  /** The module variable `cachedKey` and the functions that use it. */
  class SecretStore {
    const derive: string -> seq<Byte>
    const cipher: Cipher
    var cachedKey: Option<CachedKey>
    /** How often the slow derivation has been called. */
    ghost var derivations: nat

    ghost predicate Valid()
      reads this
    {
      cachedKey.Some? ==> cachedKey.value.key == derive(cachedKey.value.secret)
    }

    constructor (derive: string -> seq<Byte>, cipher: Cipher)
      ensures Valid() && cachedKey == None && derivations == 0
      ensures this.derive == derive && this.cipher == cipher
    {
      this.derive := derive;
      this.cipher := cipher;
      cachedKey := None;
      derivations := 0;
    }

    method KeyFor(secret: string) returns (key: seq<Byte>)
      requires Valid()
      modifies this
      ensures Valid() && key == derive(secret)
      ensures cachedKey == Some(CachedKey(secret, key))
      ensures derivations == old(derivations) + (if old(Misses(cachedKey, secret)) then 1 else 0)
    {
      if cachedKey.Some? && cachedKey.value.secret == secret {
        return cachedKey.value.key;
      }
      key := derive(secret);
      derivations := derivations + 1;
      cachedKey := Some(CachedKey(secret, key));
    }

    method EncryptSecret(plaintext: string, secret: string, iv: seq<Byte>) returns (encoded: string)
      requires Valid()
      modifies this
      ensures Valid() && cachedKey == Some(CachedKey(secret, derive(secret)))
      ensures encoded == Envelope(cipher, derive(secret), iv, plaintext)
      ensures UnsealsWhatItSeals(cipher) ==> OpenEnvelope(cipher, derive(secret), encoded) == Plain(plaintext)
    {
      var key := KeyFor(secret);
      var s := cipher.seal(key, iv, Utf8.Encode(plaintext));
      encoded := Join([VERSION, Base64.Encode(iv), Base64.Encode(s.tag), Base64.Encode(s.ciphertext)], ':');
      if UnsealsWhatItSeals(cipher) {
        EnvelopeOpens(cipher, key, iv, plaintext);
      }
    }

    /** A malformed value is refused before the key is derived. */
    method DecryptSecret(encoded: string, secret: string) returns (result: DecryptResult)
      requires Valid()
      modifies this
      ensures Valid() && result == OpenEnvelope(cipher, derive(secret), encoded)
      ensures !IsEnvelope(encoded) ==> cachedKey == old(cachedKey) && derivations == old(derivations)
    {
      var parts := Split(encoded, ':');
      if |parts| != 4 || parts[0] != VERSION {
        return Malformed;
      }
      var key := KeyFor(secret);
      var plain := cipher.unseal(key, Base64.Decode(parts[1]), Base64.Decode(parts[2]), Base64.Decode(parts[3]));
      result := match plain case None => NotAuthentic case Some(p) => Plain(Utf8.Decode(p));
    }
  }

  /** Whether a call of `keyFor` has to derive. */
  predicate Misses(cached: Option<CachedKey>, secret: string) {
    cached == None || cached.value.secret != secret
  }

  // ----- Histories of keyFor calls -----

  function CacheNext(derive: string -> seq<Byte>, cached: Option<CachedKey>, secret: string): Option<CachedKey> {
    if Misses(cached, secret) then Some(CachedKey(secret, derive(secret))) else cached
  }

  function CacheAfter(derive: string -> seq<Byte>, cached: Option<CachedKey>, secrets: seq<string>): Option<CachedKey>
    decreases secrets
  {
    if secrets == [] then cached
    else CacheAfter(derive, CacheNext(derive, cached, secrets[0]), secrets[1..])
  }

  function DerivationsIn(derive: string -> seq<Byte>, cached: Option<CachedKey>, secrets: seq<string>): nat
    decreases secrets
  {
    if secrets == [] then 0
    else
      (if Misses(cached, secrets[0]) then 1 else 0)
      + DerivationsIn(derive, CacheNext(derive, cached, secrets[0]), secrets[1..])
  }

  /** How often a history switches to another secret. */
  function Switches(secrets: seq<string>): nat {
    if |secrets| <= 1 then 0
    else (if secrets[0] != secrets[1] then 1 else 0) + Switches(secrets[1..])
  }

  /** Whatever the cache held, a history leaves the key of its last secret, and has derived at
      the start unless that was a hit, and then once at every switch. */
  lemma {:induction false} CacheHistory(derive: string -> seq<Byte>, cached: Option<CachedKey>, secrets: seq<string>)
    requires secrets != []
    requires cached.Some? ==> cached.value.key == derive(cached.value.secret)
    ensures CacheAfter(derive, cached, secrets)
         == Some(CachedKey(secrets[|secrets| - 1], derive(secrets[|secrets| - 1])))
    ensures DerivationsIn(derive, cached, secrets)
         == (if Misses(cached, secrets[0]) then 1 else 0) + Switches(secrets)
    decreases secrets
  {
    if |secrets| > 1 {
      CacheHistory(derive, CacheNext(derive, cached, secrets[0]), secrets[1..]);
    }
  }
}
