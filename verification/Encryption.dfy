/** Envelope encryption of OAuth tokens: data keys sealed under a master key, tokens sealed under a data key. */
module Encryption {
  import opened Wrappers
  import opened Text
  import opened Base64

  const KEY_LENGTH := 32

  type Key = k: Bytes | |k| == KEY_LENGTH witness seq(KEY_LENGTH, _ => 0)

  datatype Sealed = Sealed(authTag: Bytes, ciphertext: Bytes)

  /** An authenticated cipher: key, initialisation vector and plaintext in, tag and ciphertext out, and back. */
  datatype Cipher = Cipher(
    seal: (Key, Bytes, Bytes) -> Sealed,
    open: (Key, Bytes, Sealed) -> Option<Bytes>)

  ghost predicate OpensWhatItSeals(c: Cipher) {
    forall key: Key, iv: Bytes, plaintext: Bytes :: c.open(key, iv, c.seal(key, iv, plaintext)) == Some(plaintext)
  }

  /** All that is assumed of AES-256-GCM. */
  type Aead = c: Cipher | OpensWhatItSeals(c)
    ghost witness Cipher((k, iv, p) => Sealed([], p), (k, iv, s: Sealed) => Some(s.ciphertext))

  datatype CryptoError = InvalidFormat | AuthenticationFailed | InvalidKey

  // ---------------------------------------------------------------- data keys

  function EncryptDataKey(c: Aead, kek: Key, dek: Key, iv: Bytes): string {
    var sealed := c.seal(kek, iv, dek);
    Join([Encode(iv), Encode(sealed.authTag), Encode(sealed.ciphertext)], ':')
  }

  function DecryptDataKey(c: Aead, kek: Key, encryptedDek: string): Result<Key, CryptoError> {
    var parts := Split(encryptedDek, ':');
    if |parts| != 3 then Err(InvalidFormat)
    else
      var plain := c.open(kek, Decode(parts[0]), Sealed(Decode(parts[1]), Decode(parts[2])));
      if plain.None? then Err(AuthenticationFailed)
      else if |plain.value| != KEY_LENGTH then Err(InvalidKey)
      else Ok(plain.value)
  }

  /** A stored data key is its initialisation vector, its tag and its ciphertext, in this order. */
  lemma DataKeyFields(c: Aead, kek: Key, dek: Key, iv: Bytes)
    ensures var sealed := c.seal(kek, iv, dek);
            Split(EncryptDataKey(c, kek, dek, iv), ':') == [Encode(iv), Encode(sealed.authTag), Encode(sealed.ciphertext)]
  {
    hide Encode, Split, Join;
    var sealed := c.seal(kek, iv, dek);
    EncodeIsColonFree(iv);
    EncodeIsColonFree(sealed.authTag);
    EncodeIsColonFree(sealed.ciphertext);
    SplitJoin([Encode(iv), Encode(sealed.authTag), Encode(sealed.ciphertext)], ':');
  }

  lemma DataKeyRoundTrip(c: Aead, kek: Key, dek: Key, iv: Bytes)
    ensures DecryptDataKey(c, kek, EncryptDataKey(c, kek, dek, iv)) == Ok(dek) && |dek| == 32
  {
    hide Encode, Decode, Split, Join;
    var sealed := c.seal(kek, iv, dek);
    var parts := [Encode(iv), Encode(sealed.authTag), Encode(sealed.ciphertext)];
    EncodeIsColonFree(iv);
    EncodeIsColonFree(sealed.authTag);
    EncodeIsColonFree(sealed.ciphertext);
    SplitJoin(parts, ':');
    DecodeEncode(iv);
    DecodeEncode(sealed.authTag);
    DecodeEncode(sealed.ciphertext);
  }

  // ---------------------------------------------------------------- tokens

  /** The UTF-8 bytes of a token. */
  type Token = Bytes

  /** `keyVersion` is None where the program holds NaN. */
  datatype DecryptedToken = DecryptedToken(token: Token, keyVersion: Option<int>, keyId: string)

  function TokenParts(c: Aead, token: Token, dek: Key, keyId: string, keyVersion: int, iv: Bytes): seq<string> {
    var sealed := c.seal(dek, iv, token);
    [PrintInt(keyVersion), keyId, Encode(iv), Encode(sealed.authTag), Encode(sealed.ciphertext)]
  }

  function EncryptToken(c: Aead, token: Token, dek: Key, keyId: string, keyVersion: int, iv: Bytes): string {
    Join(TokenParts(c, token, dek, keyId, keyVersion, iv), ':')
  }

  function DecryptToken(c: Aead, encrypted: string, dek: Key): Result<DecryptedToken, CryptoError> {
    var parts := Split(encrypted, ':');
    if |parts| != 5 then Err(InvalidFormat)
    else
      var plain := c.open(dek, Decode(parts[2]), Sealed(Decode(parts[3]), Decode(parts[4])));
      if plain.None? then Err(AuthenticationFailed)
      else Ok(DecryptedToken(plain.value, ParseInt(parts[0]), parts[1]))
  }

  lemma NumeralIsColonFree(n: int)
    ensures ':' !in PrintInt(n)
  {
  }

  /** The stored string splits into the five fields it was joined from, and the fields decode. */
  lemma TokenFields(c: Aead, token: Token, dek: Key, keyId: string, keyVersion: int, iv: Bytes)
    ensures var parts := Split(EncryptToken(c, token, dek, keyId, keyVersion, iv), ':');
            var sealed := c.seal(dek, iv, token);
            && (|parts| == 5 <==> ':' !in keyId)
            && (|parts| == 5 ==>
                  && ParseInt(parts[0]) == Some(keyVersion) && parts[1] == keyId
                  && Decode(parts[2]) == iv && Decode(parts[3]) == sealed.authTag && Decode(parts[4]) == sealed.ciphertext)
  {
    hide Encode, Decode, Split, Join;
    var sealed := c.seal(dek, iv, token);
    var parts := TokenParts(c, token, dek, keyId, keyVersion, iv);
    NumeralIsColonFree(keyVersion);
    EncodeIsColonFree(iv);
    EncodeIsColonFree(sealed.authTag);
    EncodeIsColonFree(sealed.ciphertext);
    assert parts[1] == keyId;
    SplitJoin(parts, ':');
    ParsePrint(keyVersion);
    DecodeEncode(iv);
    DecodeEncode(sealed.authTag);
    DecodeEncode(sealed.ciphertext);
  }

  /**
    * What was encrypted comes back, with its key version and key id, exactly when the key id holds no
    * separator; any other key id makes the stored string unreadable.
    */
  lemma TokenRoundTrip(c: Aead, token: Token, dek: Key, keyId: string, keyVersion: int, iv: Bytes)
    ensures DecryptToken(c, EncryptToken(c, token, dek, keyId, keyVersion, iv), dek) ==
            if ':' in keyId then Err(InvalidFormat) else Ok(DecryptedToken(token, Some(keyVersion), keyId))
  {
    TokenFields(c, token, dek, keyId, keyVersion, iv);
  }

  // ---------------------------------------------------------------- key rotation

  function RotateEncryption(c: Aead, encrypted: string, oldDek: Key, newDek: Key,
                            newKeyId: string, newKeyVersion: int, iv: Bytes): Result<string, CryptoError> {
    var decrypted := DecryptToken(c, encrypted, oldDek);
    if decrypted.Err? then Err(decrypted.error)
    else Ok(EncryptToken(c, decrypted.value.token, newDek, newKeyId, newKeyVersion, iv))
  }

  datatype KeyUse = KeyUse(dek: Key, keyId: string, version: int, iv: Bytes)

  /** A stored token carried through a chain of rotations, each from the key the last one left. */
  function RotateAll(c: Aead, encrypted: string, dek: Key, rotations: seq<KeyUse>): Result<string, CryptoError>
    decreases |rotations|
  {
    if rotations == [] then Ok(encrypted)
    else
      var next := rotations[0];
      var rotated := RotateEncryption(c, encrypted, dek, next.dek, next.keyId, next.version, next.iv);
      if rotated.Err? then rotated else RotateAll(c, rotated.value, next.dek, rotations[1..])
  }

  /** Any chain of rotations keeps the plaintext under the last key, exactly when every key id is separator-free. */
  lemma {:induction false} RotationsPreserveToken(c: Aead, token: Token, keys: seq<KeyUse>)
    requires keys != []
    ensures var first, last := keys[0], keys[|keys| - 1];
            var stored := RotateAll(c, EncryptToken(c, token, first.dek, first.keyId, first.version, first.iv), first.dek, keys[1..]);
            var readable := stored.Ok? && DecryptToken(c, stored.value, last.dek).Ok?;
            && (readable <==> forall k :: k in keys ==> ':' !in k.keyId)
            && (readable ==> DecryptToken(c, stored.value, last.dek) == Ok(DecryptedToken(token, Some(last.version), last.keyId)))
  {
    hide EncryptToken, DecryptToken;
    var first := keys[0];
    TokenRoundTrip(c, token, first.dek, first.keyId, first.version, first.iv);
    assert forall k :: k in keys <==> k == first || k in keys[1..];
    if |keys| > 1 {
      RotationsPreserveToken(c, token, keys[1..]);
      assert keys[1..][1..] == keys[2..];
    }
  }
}
