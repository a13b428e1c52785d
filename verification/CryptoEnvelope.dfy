/**
 * The secret envelope: one version byte, a 12-byte nonce, then what the cipher sealed.
 * The authenticated cipher and the key derivation are parameters; `Aead.Sound` says what is
 * expected of the cipher.
 */
module CryptoEnvelope {
  import opened Prelude

  const VERSION_LENGTH := 1
  const NONCE_LENGTH := 12
  const OVERHEAD_LENGTH := 16
  const KEY_LENGTH := 32
  const PROVIDER_VERSION: byte := 2
  const PROVIDER_KEY_INFO := "furtalk/provider-secrets/aes-256-gcm/v2"

  datatype CryptoError = BadEnvelope | BadKeyLength | ShortSourceKey | NoRandomness

  /** `seal(key, nonce, plaintext)` and `open(key, nonce, ciphertext)`. */
  datatype Aead = Aead(seal: (Bytes, Bytes, Bytes) -> Bytes, open: (Bytes, Bytes, Bytes) -> Option<Bytes>) {
    /** Sealing adds a 16-byte tag, opening undoes it, and nothing but a sealed text opens. */
    ghost predicate Sound() {
      && (forall k: Bytes, n: Bytes, p: Bytes | |k| == KEY_LENGTH && |n| == NONCE_LENGTH ::
            |seal(k, n, p)| == |p| + OVERHEAD_LENGTH && open(k, n, seal(k, n, p)) == Some(p))
      && (forall k: Bytes, n: Bytes, c: Bytes | |k| == KEY_LENGTH && |n| == NONCE_LENGTH && open(k, n, c).Some? ::
            seal(k, n, open(k, n, c).value) == c)
    }
  }

  /** The bytes `Encrypt` builds once the nonce is drawn. */
  function Sealed(aead: Aead, key: Bytes, version: byte, nonce: Bytes, plaintext: Bytes): Bytes {
    [version] + nonce + aead.seal(key, nonce, plaintext)
  }

  function Decrypt(aead: Aead, key: Bytes, version: byte, envelope: Bytes): Result<Bytes, CryptoError> {
    if |key| != KEY_LENGTH then Err(BadKeyLength)
    else if |envelope| < VERSION_LENGTH + NONCE_LENGTH + OVERHEAD_LENGTH then Err(BadEnvelope)
    else if envelope[0] != version then Err(BadEnvelope)
    else
      match aead.open(key, envelope[VERSION_LENGTH..VERSION_LENGTH + NONCE_LENGTH], envelope[VERSION_LENGTH + NONCE_LENGTH..])
      case Some(plaintext) => Ok(plaintext)
      case None => Err(BadEnvelope)
  }

  function DeriveKey(kdf: (Bytes, string) -> Bytes, raw: Bytes, info: string): Result<Bytes, CryptoError> {
    if |raw| < KEY_LENGTH then Err(ShortSourceKey) else Ok(kdf(raw, info))
  }

  function DeriveProviderKey(kdf: (Bytes, string) -> Bytes, raw: Bytes): Result<Bytes, CryptoError> {
    DeriveKey(kdf, raw, PROVIDER_KEY_INFO)
  }

  method RandomBytes(n: nat) returns (r: Result<Bytes, CryptoError>)
    ensures r.Ok? ==> |r.value| == n
    ensures r.Err? ==> r.error == NoRandomness
  {
    var available: bool := *;
    if !available {
      return Err(NoRandomness);
    }
    var buf := new byte[n];
    for i := 0 to n {
      var drawn: byte := *;
      buf[i] := drawn;
    }
    return Ok(buf[..]);
  }

  /** The envelope carries its version and nonce in front and opens again to the plaintext. */
  method Encrypt(aead: Aead, key: Bytes, version: byte, plaintext: Bytes) returns (r: Result<Bytes, CryptoError>)
    requires aead.Sound()
    ensures r.Ok? ==> |key| == KEY_LENGTH && |r.value| == VERSION_LENGTH + NONCE_LENGTH + |plaintext| + OVERHEAD_LENGTH
    ensures r.Ok? ==> r.value == Sealed(aead, key, version, r.value[VERSION_LENGTH..VERSION_LENGTH + NONCE_LENGTH], plaintext)
    ensures r.Ok? ==> Decrypt(aead, key, version, r.value) == Ok(plaintext)
    ensures r.Ok? ==> |r.value| == 1 + 12 + |plaintext| + 16 && r.value[0] == version
                      && aead.open(key, r.value[1..13], r.value[13..]) == Some(plaintext)
    ensures r.Err? ==> r.error == (if |key| != KEY_LENGTH then BadKeyLength else NoRandomness)
  {
    if |key| != KEY_LENGTH {
      return Err(BadKeyLength);
    }
    var drawn := RandomBytes(NONCE_LENGTH);
    if drawn.Err? {
      return Err(NoRandomness);
    }
    var nonce := drawn.value;
    var envelope := new byte[VERSION_LENGTH + NONCE_LENGTH];
    envelope[0] := version;
    for i := 0 to NONCE_LENGTH
      invariant envelope[0] == version
      invariant forall j :: 0 <= j < i ==> envelope[VERSION_LENGTH + j] == nonce[j]
    {
      envelope[VERSION_LENGTH + i] := nonce[i];
    }
    assert envelope[..] == [version] + nonce;
    SealedParts(aead, key, version, nonce, plaintext);
    return Ok(envelope[..] + aead.seal(key, nonce, plaintext));
  }

  /** An envelope taken apart gives back the version, the nonce and the sealed text. */
  lemma SealedParts(aead: Aead, key: Bytes, version: byte, nonce: Bytes, plaintext: Bytes)
    requires aead.Sound() && |key| == KEY_LENGTH && |nonce| == NONCE_LENGTH
    ensures var e := Sealed(aead, key, version, nonce, plaintext);
            && |e| == VERSION_LENGTH + NONCE_LENGTH + |plaintext| + OVERHEAD_LENGTH
            && e[0] == version
            && e[VERSION_LENGTH..VERSION_LENGTH + NONCE_LENGTH] == nonce
            && e[VERSION_LENGTH + NONCE_LENGTH..] == aead.seal(key, nonce, plaintext)
            && Decrypt(aead, key, version, e) == Ok(plaintext)
  {
    var e := Sealed(aead, key, version, nonce, plaintext);
    var s := aead.seal(key, nonce, plaintext);
    assert |s| == |plaintext| + OVERHEAD_LENGTH;
    assert e[VERSION_LENGTH..VERSION_LENGTH + NONCE_LENGTH] == nonce;
    assert e[VERSION_LENGTH + NONCE_LENGTH..] == s;
  }

  /** When an envelope opens, and the error when it does not, in plain numbers. */
  lemma DecryptMeans(aead: Aead, key: Bytes, version: byte, envelope: Bytes)
    ensures |key| != 32 ==> Decrypt(aead, key, version, envelope) == Err(BadKeyLength)
    ensures |key| == 32 && (|envelope| < 29 || envelope[0] != version) ==>
              Decrypt(aead, key, version, envelope) == Err(BadEnvelope)
    ensures |key| == 32 && |envelope| >= 29 && envelope[0] == version ==>
              Decrypt(aead, key, version, envelope)
              == match aead.open(key, envelope[1..13], envelope[13..]) case Some(p) => Ok(p) case None => Err(BadEnvelope)
  {
  }

  /** The key for provider secrets: what its label gives of a source key of at least 32 bytes. */
  lemma DerivedMeans(kdf: (Bytes, string) -> Bytes, raw: Bytes)
    ensures DeriveProviderKey(kdf, raw)
            == if |raw| < 32 then Err(ShortSourceKey) else Ok(kdf(raw, "furtalk/provider-secrets/aes-256-gcm/v2"))
  {
  }

  /** What opens is exactly what was sealed under the same key and version. */
  lemma DecryptIsExact(aead: Aead, key: Bytes, version: byte, envelope: Bytes, plaintext: Bytes)
    requires aead.Sound() && |key| == KEY_LENGTH
    ensures Decrypt(aead, key, version, envelope) == Ok(plaintext)
            <==> exists nonce: Bytes :: |nonce| == NONCE_LENGTH && envelope == Sealed(aead, key, version, nonce, plaintext)
  {
    if Decrypt(aead, key, version, envelope) == Ok(plaintext) {
      var nonce := envelope[VERSION_LENGTH..VERSION_LENGTH + NONCE_LENGTH];
      assert envelope == [envelope[0]] + nonce + envelope[VERSION_LENGTH + NONCE_LENGTH..];
      assert envelope == Sealed(aead, key, version, nonce, plaintext);
    }
    forall nonce: Bytes | |nonce| == NONCE_LENGTH && envelope == Sealed(aead, key, version, nonce, plaintext)
      ensures Decrypt(aead, key, version, envelope) == Ok(plaintext)
    {
      SealedParts(aead, key, version, nonce, plaintext);
    }
  }
}
