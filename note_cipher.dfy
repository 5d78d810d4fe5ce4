/**
 * Note encryption at rest. A sealed value is the text "ENC:" followed by the
 * Base64 of nonce (16 bytes) ++ AES-CTR ciphertext ++ HMAC-SHA256 tag
 * (32 bytes). Older values were a 16-byte nonce followed by the text XORed
 * with a keystream drawn from a 64-bit linear congruential generator; those
 * are still read. AES, HMAC, Base64, UTF-8 and the random nonce are foreign
 * and appear here as parameters.
 */
module NoteCipher {
  import opened Wrappers
  import opened Kotlin

  type Byte = bv8
  type Bytes = seq<bv8>

  const PREFIX: string := "ENC:"
  const NONCE_SIZE: nat := 16
  const TAG_SIZE: nat := 32
  const LEGACY_NONCE_SIZE: nat := 16
  const KEY_SIZE: nat := 32

  /** The foreign primitives the cipher is composed of. */
  datatype Primitives = Primitives(
    aesCtrEncrypt: (Bytes, Bytes, Bytes) -> Bytes,
    aesCtrDecrypt: (Bytes, Bytes, Bytes) -> Bytes,
    hmacSha256: (Bytes, Bytes) -> Bytes,
    base64Encode: Bytes -> string,
    base64Decode: string -> Option<Bytes>,
    encodeUtf8: string -> Bytes,
    decodeUtf8: Bytes -> string,
    encLabel: Bytes,
    macLabel: Bytes)

  /**
   * What the round trip relies on: CTR decryption inverts encryption and keeps
   * lengths, HMAC-SHA256 yields 32 bytes, Base64 and UTF-8 decode what they
   * encode, and UTF-8 encodes a non-empty text into non-empty bytes.
   */
  ghost predicate Sound(p: Primitives) {
    && (forall k, iv, pt :: p.aesCtrDecrypt(k, iv, p.aesCtrEncrypt(k, iv, pt)) == pt)
    && (forall k, iv, pt :: |p.aesCtrEncrypt(k, iv, pt)| == |pt|)
    && (forall k, d :: |p.hmacSha256(k, d)| == TAG_SIZE)
    && (forall b :: p.base64Decode(p.base64Encode(b)) == Some(b))
    && (forall s :: p.decodeUtf8(p.encodeUtf8(s)) == s)
    && (forall s :: |s| > 0 ==> |p.encodeUtf8(s)| > 0)
  }

  /** `ensureKeyLength`: the key must be 256 bits, otherwise `require` throws. */
  function EnsureKeyLength(bytes: Bytes): (r: Result<Bytes, string>)
    ensures r.Ok? <==> |bytes| == KEY_SIZE
    ensures r.Ok? ==> r.value == bytes
  {
    if |bytes| == KEY_SIZE then Ok(bytes)
    else Err("Encryption key must be 256 bits")
  }

  function DeriveEncryptionKey(p: Primitives, key: Bytes): Bytes { p.hmacSha256(key, p.encLabel) }

  function DeriveMacKey(p: Primitives, key: Bytes): Bytes { p.hmacSha256(key, p.macLabel) }

  /** `encryptPayload`, with the random nonce as a parameter. */
  function EncryptPayload(p: Primitives, key: Bytes, nonce: Bytes, plaintext: Bytes): Bytes {
    var cipher := p.aesCtrEncrypt(DeriveEncryptionKey(p, key), nonce, plaintext);
    var macInput := nonce + cipher;
    macInput + p.hmacSha256(DeriveMacKey(p, key), macInput)
  }

  /**
   * `decryptPayload`: payloads of at most nonce + tag bytes and payloads whose
   * tag does not match are errors; otherwise the middle part is decrypted.
   */
  function DecryptPayload(p: Primitives, key: Bytes, payload: Bytes): (r: Result<Bytes, string>)
    ensures r.Ok? ==> |payload| > NONCE_SIZE + TAG_SIZE
    ensures r.Ok? ==> p.hmacSha256(DeriveMacKey(p, key), payload[..|payload| - TAG_SIZE]) == payload[|payload| - TAG_SIZE..]
    ensures r.Ok? ==> r.value == p.aesCtrDecrypt(DeriveEncryptionKey(p, key), payload[..NONCE_SIZE],
      payload[NONCE_SIZE..|payload| - TAG_SIZE])
  {
    if |payload| <= NONCE_SIZE + TAG_SIZE then Err("Invalid payload")
    else
      var nonce := payload[..NONCE_SIZE];
      var cipher := payload[NONCE_SIZE..|payload| - TAG_SIZE];
      var tag := payload[|payload| - TAG_SIZE..];
      assert nonce + cipher == payload[..|payload| - TAG_SIZE];
      var expected := p.hmacSha256(DeriveMacKey(p, key), nonce + cipher);
      if expected != tag then Err("Authentication failed")
      else Ok(p.aesCtrDecrypt(DeriveEncryptionKey(p, key), nonce, cipher))
  }

  /** A sealed payload is nonce, then ciphertext, then a 32-byte tag. */
  lemma PayloadFraming(p: Primitives, key: Bytes, nonce: Bytes, plaintext: Bytes)
    requires Sound(p) && |nonce| == NONCE_SIZE
    ensures var sealed := EncryptPayload(p, key, nonce, plaintext);
      && |sealed| == NONCE_SIZE + |plaintext| + TAG_SIZE
      && sealed[..NONCE_SIZE] == nonce
      && sealed[NONCE_SIZE..|sealed| - TAG_SIZE] == p.aesCtrEncrypt(DeriveEncryptionKey(p, key), nonce, plaintext)
  {
    var cipher := p.aesCtrEncrypt(DeriveEncryptionKey(p, key), nonce, plaintext);
    var macInput := nonce + cipher;
    var sealed := EncryptPayload(p, key, nonce, plaintext);
    assert sealed[..|macInput|] == macInput;
    assert sealed[..NONCE_SIZE] == macInput[..NONCE_SIZE];
    assert sealed[NONCE_SIZE..|sealed| - TAG_SIZE] == macInput[NONCE_SIZE..];
  }

  /** Decrypting a non-empty payload sealed under the same key gives the plaintext back. */
  lemma PayloadRoundTrip(p: Primitives, key: Bytes, nonce: Bytes, plaintext: Bytes)
    requires Sound(p) && |nonce| == NONCE_SIZE && |plaintext| > 0
    ensures DecryptPayload(p, key, EncryptPayload(p, key, nonce, plaintext)) == Ok(plaintext)
  {
    var sealed := EncryptPayload(p, key, nonce, plaintext);
    PayloadFraming(p, key, nonce, plaintext);
    var macInput := nonce + p.aesCtrEncrypt(DeriveEncryptionKey(p, key), nonce, plaintext);
    assert sealed[..|sealed| - TAG_SIZE] == macInput;
    assert sealed[|sealed| - TAG_SIZE..] == p.hmacSha256(DeriveMacKey(p, key), macInput);
  }

  // ----- The legacy keystream -----

  const FNV_OFFSET: bv64 := 1469598103934665603
  const FNV_PRIME: bv64 := 1099511628211
  const LCG_MULTIPLIER: bv64 := 2862933555777941757
  const LCG_INCREMENT: bv64 := 3037000493

  /** The seed after absorbing `bytes` FNV-1a style: xor each (unsigned) byte in, then multiply. */
  function Absorbed(bytes: Bytes): bv64
  {
    if |bytes| == 0 then FNV_OFFSET
    else Mix(Absorbed(bytes[..|bytes| - 1]), bytes[|bytes| - 1])
  }

  /** One FNV-1a step, modulo 2^64. */
  function Mix(state: bv64, b: Byte): bv64 { (state ^ (b as bv64)) * FNV_PRIME }

  /** One step of the generator, modulo 2^64. */
  function NextState(state: bv64): bv64 { state * LCG_MULTIPLIER + LCG_INCREMENT }

  /** The byte drawn from a state: bits 24 to 31. */
  function StreamByte(state: bv64): Byte { ((state >> 24) & 0xFF) as bv8 }

  /** The keystream of `length` bytes from `seed`, and the state after it. */
  function Keystream(seed: bv64, length: nat): (r: (Bytes, bv64))
    ensures |r.0| == length
  {
    if length == 0 then ([], seed)
    else
      var (prefix, state) := Keystream(seed, length - 1);
      var next := NextState(state);
      (prefix + [StreamByte(next)], next)
  }

  /** `legacyKeystream(key, nonce, length)`. */
  function LegacyKeystreamOf(key: Bytes, nonce: Bytes, length: nat): (r: Bytes)
    ensures |r| == length
  {
    Keystream(Absorbed(key + nonce), length).0
  }

  /** `legacyKeystream`: absorb key ++ nonce, then draw `length` bytes into a fresh array. */
  method LegacyKeystream(key: Bytes, nonce: Bytes, length: nat) returns (stream: array<Byte>)
    ensures fresh(stream)
    ensures stream[..] == LegacyKeystreamOf(key, nonce, length)
  {
    var seed := Absorb(key + nonce);
    stream := Draw(seed, length);
  }

  /** The `forEach` over key ++ nonce. */
  method Absorb(material: Bytes) returns (state: bv64)
    ensures state == Absorbed(material)
  {
    state := FNV_OFFSET;
    for i := 0 to |material|
      invariant state == Absorbed(material[..i])
    {
      assert material[..i + 1][..i] == material[..i];
      state := Mix(state, material[i]);
    }
    assert material[..|material|] == material;
  }

  /** The index loop that fills the stream. */
  method Draw(seed: bv64, length: nat) returns (stream: array<Byte>)
    ensures fresh(stream)
    ensures stream[..] == Keystream(seed, length).0
  {
    stream := new Byte[length];
    var state := seed;
    for index := 0 to length
      invariant stream[..index] == Keystream(seed, index).0
      invariant state == Keystream(seed, index).1
    {
      state := NextState(state);
      stream[index] := StreamByte(state);
      assert stream[..index + 1] == stream[..index] + [StreamByte(state)];
    }
    assert stream[..] == stream[..length];
  }

  /** Bytewise XOR of two byte strings of the same length. */
  function Xor(a: Bytes, b: Bytes): (r: Bytes)
    requires |a| == |b|
    ensures |r| == |a|
    ensures forall i :: 0 <= i < |r| ==> r[i] == a[i] ^ b[i]
  {
    seq(|a|, i requires 0 <= i < |a| => a[i] ^ b[i])
  }

  /** XOR with the same keystream undoes itself. */
  lemma XorInvolution(body: Bytes, keystream: Bytes)
    requires |body| == |keystream|
    ensures Xor(Xor(body, keystream), keystream) == body
  {
    var twice := Xor(Xor(body, keystream), keystream);
    forall i | 0 <= i < |body| ensures twice[i] == body[i] {
      assert twice[i] == (body[i] ^ keystream[i]) ^ keystream[i];
    }
  }

  /**
   * `legacyDecrypt`: payloads of at most 16 bytes give null before the key is
   * read; otherwise the body after the nonce is XORed with the keystream. A
   * key that fails its length check throws here.
   */
  function LegacyDecrypt(key: Result<Bytes, string>, payload: Bytes): (r: Result<Option<Bytes>, string>)
    ensures r == Ok(None) <==> |payload| <= LEGACY_NONCE_SIZE
    ensures r.Ok? && r.value.Some? ==> |r.value.value| == |payload| - LEGACY_NONCE_SIZE
  {
    if |payload| <= LEGACY_NONCE_SIZE then Ok(None)
    else if key.Err? then Err(key.error)
    else
      var nonce := payload[..LEGACY_NONCE_SIZE];
      var body := payload[LEGACY_NONCE_SIZE..];
      Ok(Some(Xor(body, LegacyKeystreamOf(key.value, nonce, |body|))))
  }

  /** A legacy value written as nonce ++ (text XOR keystream) reads back as the text. */
  lemma LegacyRoundTrip(key: Bytes, nonce: Bytes, body: Bytes)
    requires |nonce| == LEGACY_NONCE_SIZE && |body| > 0
    ensures var ks := LegacyKeystreamOf(key, nonce, |body|);
      LegacyDecrypt(Ok(key), nonce + Xor(body, ks)) == Ok(Some(body))
  {
    var ks := LegacyKeystreamOf(key, nonce, |body|);
    var payload := nonce + Xor(body, ks);
    assert payload[..LEGACY_NONCE_SIZE] == nonce;
    assert payload[LEGACY_NONCE_SIZE..] == Xor(body, ks);
    XorInvolution(body, ks);
  }

  // ----- constantTimeEquals -----

  /** `Byte.toInt()`: sign extension to 32 bits. */
  function SignExtend(b: Byte): bv32 {
    if b & 0x80 == 0 then b as bv32 else (b as bv32) | 0xFFFF_FF00
  }

  /** Sign-extended bytes XOR to zero exactly when the bytes are equal. */
  lemma SignExtendXor(a: Byte, b: Byte)
    ensures SignExtend(a) ^ SignExtend(b) == 0 <==> a == b
  {
  }

  /**
   * `constantTimeEquals`: different sizes differ; otherwise OR together the
   * XOR of every pair, without stopping early, and compare with zero.
   */
  method ConstantTimeEquals(a: Bytes, b: Bytes) returns (equal: bool)
    ensures equal <==> a == b
  {
    if |a| != |b| {
      return false;
    }
    var diff: bv32 := 0;
    for index := 0 to |a|
      invariant diff == 0 <==> a[..index] == b[..index]
    {
      SignExtendXor(a[index], b[index]);
      assert a[..index + 1] == a[..index] + [a[index]];
      assert b[..index + 1] == b[..index] + [b[index]];
      diff := diff | (SignExtend(a[index]) ^ SignExtend(b[index]));
    }
    assert a[..|a|] == a && b[..|b|] == b;
    equal := diff == 0;
  }

  // ----- encrypt and decrypt -----

  /** `encrypt` under an already checked key: the empty text stays empty. */
  function EncryptWith(p: Primitives, key: Bytes, nonce: Bytes, value: string): (r: string)
    ensures |value| == 0 ==> r == value
    ensures |value| > 0 ==> StartsWith(r, PREFIX)
  {
    if |value| == 0 then value
    else PREFIX + p.base64Encode(EncryptPayload(p, key, nonce, p.encodeUtf8(value)))
  }

  /**
   * `decrypt` with the outcome of reading the active key. Values that are
   * empty, lack the prefix or are not Base64 come back unchanged; a payload
   * the current scheme rejects (a key error included) falls back to the
   * legacy scheme, and if that gives null the value comes back unchanged.
   */
  function DecryptWith(p: Primitives, key: Result<Bytes, string>, value: string): (r: Result<string, string>)
    ensures |value| == 0 || !StartsWith(value, PREFIX) ==> r == Ok(value)
    ensures StartsWith(value, PREFIX) && p.base64Decode(value[|PREFIX|..]).None? ==> r == Ok(value)
    ensures r.Err? ==> key.Err?
  {
    if |value| == 0 || !StartsWith(value, PREFIX) then Ok(value)
    else match p.base64Decode(value[|PREFIX|..])
      case None => Ok(value)
      case Some(payload) =>
        var current := if key.Err? then Err(key.error) else DecryptPayload(p, key.value, payload);
        if current.Ok? then Ok(p.decodeUtf8(current.value))
        else match LegacyDecrypt(key, payload)
          case Err(e) => Err(e)
          case Ok(None) => Ok(value)
          case Ok(Some(bytes)) => Ok(p.decodeUtf8(bytes))
  }

  /** Whatever is encrypted under a key decrypts under that key to the same text. */
  lemma EncryptDecryptRoundTrip(p: Primitives, key: Bytes, nonce: Bytes, value: string)
    requires Sound(p) && |nonce| == NONCE_SIZE
    ensures DecryptWith(p, Ok(key), EncryptWith(p, key, nonce, value)) == Ok(value)
  {
    if |value| > 0 {
      var plaintext := p.encodeUtf8(value);
      var sealed := EncryptPayload(p, key, nonce, plaintext);
      var text := p.base64Encode(sealed);
      assert (PREFIX + text)[|PREFIX|..] == text;
      assert (PREFIX + text)[..|PREFIX|] == PREFIX;
      PayloadRoundTrip(p, key, nonce, plaintext);
    }
  }

  /**
   * The `NoteCipher` object: the key read from the platform key store, and
   * the test override, which always holds a 32-byte key.
   */
  class Cipher {
    const storedKey: Bytes
    var overrideKey: Option<Bytes>

    ghost predicate Valid()
      reads this
    {
      overrideKey.Some? ==> |overrideKey.value| == KEY_SIZE
    }

    constructor(storedKey: Bytes)
      ensures this.storedKey == storedKey && overrideKey == None && Valid()
    {
      this.storedKey := storedKey;
      overrideKey := None;
    }

    /** `activeKey()`: the override if set, else the stored key, which must be 32 bytes. */
    function ActiveKey(): (r: Result<Bytes, string>)
      reads this
      requires Valid()
      ensures r.Ok? ==> |r.value| == KEY_SIZE
      ensures overrideKey.Some? ==> r == Ok(overrideKey.value)
      ensures overrideKey.None? ==> r == EnsureKeyLength(storedKey)
    {
      if overrideKey.Some? then Ok(overrideKey.value) else EnsureKeyLength(storedKey)
    }

    /** `overrideKeyForTests`: a key of the wrong length throws and changes nothing. */
    method OverrideKeyForTests(testKey: Bytes) returns (r: Result<(), string>)
      requires Valid()
      modifies this
      ensures Valid()
      ensures r.Ok? <==> |testKey| == KEY_SIZE
      ensures r.Ok? ==> overrideKey == Some(testKey)
      ensures r.Err? ==> overrideKey == old(overrideKey)
    {
      var checked := EnsureKeyLength(testKey);
      if checked.Err? {
        return Err(checked.error);
      }
      overrideKey := Some(checked.value);
      r := Ok(());
    }

    /** `clearKeyOverride`. */
    method ClearKeyOverride()
      modifies this
      ensures overrideKey == None && Valid()
    {
      overrideKey := None;
    }

    /** `encrypt`: the empty text is returned before the key is read. */
    function Encrypt(p: Primitives, nonce: Bytes, value: string): (r: Result<string, string>)
      reads this
      requires Valid()
      ensures |value| == 0 ==> r == Ok(value)
      ensures |value| > 0 ==> (r.Ok? <==> ActiveKey().Ok?)
    {
      if |value| == 0 then Ok(value)
      else match ActiveKey()
        case Err(e) => Err(e)
        case Ok(key) => Ok(EncryptWith(p, key, nonce, value))
    }

    /** `decrypt` under the active key. */
    function Decrypt(p: Primitives, value: string): (r: Result<string, string>)
      reads this
      requires Valid()
    {
      DecryptWith(p, ActiveKey(), value)
    }

    /** What this object encrypts, it decrypts. */
    lemma RoundTrip(p: Primitives, nonce: Bytes, value: string)
      requires Valid() && Sound(p) && |nonce| == NONCE_SIZE
      requires Encrypt(p, nonce, value).Ok?
      ensures Decrypt(p, Encrypt(p, nonce, value).value) == Ok(value)
    {
      if |value| > 0 {
        EncryptDecryptRoundTrip(p, ActiveKey().value, nonce, value);
      }
    }
  }
}
