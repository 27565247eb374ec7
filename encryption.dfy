/**
 * The at-rest envelope of a stored password: `encrypt` writes
 * `salt:iv:ciphertext:authTag` with every field in hex, `decrypt` reads it
 * back, and `isEncrypted` is the structural gate for "already an envelope".
 *
 * PBKDF2 (section 5.2 of RFC 8018), AES-256-GCM (NIST SP 800-38D) and the
 * UTF-8 codec are not modelled: they are the function-valued fields of a
 * `Primitives` value, and what the envelope relies on them to do is the
 * predicate `Sound`. The random salt and IV are parameters.
 */
module Encryption {
  import opened Common
  import opened Text
  import opened Hex

  const ALGORITHM := "aes-256-gcm"
  const IV_LENGTH := 16
  const SALT_LENGTH := 64
  const TAG_LENGTH := 16
  const KEY_LENGTH := 32
  const ITERATIONS := 100000

  const MISSING_KEY := "ENCRYPTION_KEY is not set in environment variables"
  const INVALID_FORMAT := "Invalid encrypted text format"
  const DECRYPTION_FAILED := "Decryption failed: "
  const ODD_HEX_DATA := "The argument 'encoding' is invalid for data of length "

  /** The process environment, reduced to the one variable the module reads. */
  datatype Env = Env(encryptionKey: Option<string>)

  /** `process.env.ENCRYPTION_KEY` is truthy: present and not the empty string. */
  predicate KeyConfigured(env: Env)
  {
    env.encryptionKey.Some? && env.encryptionKey.value != ""
  }

  /** What the GCM cipher object yields: the ciphertext (update then final) and the authentication tag. */
  datatype Sealed = Sealed(ciphertext: seq<Byte>, tag: seq<Byte>)

  /**
   * The primitives the module takes from Node's crypto module and Buffer.
   * `deriveKey(secret, salt)` is `pbkdf2Sync(secret, salt, ITERATIONS, KEY_LENGTH, 'sha256')`;
   * `seal(key, iv, plaintext)` is AES-256-GCM encryption; `open(key, iv, ciphertext, tag)`
   * is `update` then `final` on a decipher with the tag set, which yields the
   * plaintext or the message of the error it throws (failed authentication).
   * `decipherError(key, iv, tag)` is the message `createDecipheriv` or
   * `setAuthTag` throws before any ciphertext is read (a bad IV or tag
   * length), if any.
   */
  datatype Primitives = Primitives(
    deriveKey: (string, seq<Byte>) -> seq<Byte>,
    seal: (seq<Byte>, seq<Byte>, seq<Byte>) -> Sealed,
    decipherError: (seq<Byte>, seq<Byte>, seq<Byte>) -> Option<string>,
    open: (seq<Byte>, seq<Byte>, seq<Byte>, seq<Byte>) -> Result<seq<Byte>, string>,
    utf8Encode: string -> seq<Byte>,
    utf8Decode: seq<Byte> -> string)

  /**
   * The properties of the primitives the envelope relies on: the cipher keeps
   * the plaintext's byte length, emits a TAG_LENGTH-byte tag that a decipher
   * under the same key and IV takes, and opening what it sealed under the
   * same key and IV gives the plaintext back; UTF-8
   * decoding inverts encoding, and encoding never shortens a string.
   */
  ghost predicate Sound(p: Primitives)
  {
    && (forall key, iv, m :: |p.seal(key, iv, m).ciphertext| == |m| && |p.seal(key, iv, m).tag| == TAG_LENGTH)
    && (forall key, iv, m :: p.decipherError(key, iv, p.seal(key, iv, m).tag) == None)
    && (forall key, iv, m :: p.open(key, iv, p.seal(key, iv, m).ciphertext, p.seal(key, iv, m).tag) == Ok(m))
    && (forall t :: p.utf8Decode(p.utf8Encode(t)) == t)
    && (forall t :: |p.utf8Encode(t)| >= |t|)
    && p.utf8Encode("") == []
  }

  /** The two errors the module throws. */
  datatype Failure = MissingKey | DecryptionFailed(reason: string)

  /** The `message` of the thrown `Error`. */
  function Message(f: Failure): (m: string)
    ensures f.DecryptionFailed? ==> DECRYPTION_FAILED <= m
  {
    match f
    case MissingKey => MISSING_KEY
    case DecryptionFailed(reason) => DECRYPTION_FAILED + reason
  }

  /** The envelope string: the four fields in hex, joined by `:` in the order salt, iv, ciphertext, tag. */
  function EnvelopeOf(salt: seq<Byte>, iv: seq<Byte>, ciphertext: seq<Byte>, tag: seq<Byte>): string
  {
    Encode(salt) + ":" + Encode(iv) + ":" + Encode(ciphertext) + ":" + Encode(tag)
  }

  /**
   * The four fields as `decrypt` recovers them: salt, IV and tag go through
   * `Buffer.from(…, 'hex')`, the ciphertext field stays text until the
   * decipher's `update` reads it as hex.
   */
  datatype Fields = Fields(salt: seq<Byte>, iv: seq<Byte>, encrypted: string, tag: seq<Byte>)

  /** The parsing half of `decrypt`: split at `:`, insist on four parts, hex-decode all but the ciphertext. */
  function ParseEnvelope(s: string): (r: Result<Fields, string>)
    ensures r.Ok? <==> |Split(s, ":")| == 4
    ensures r.Err? ==> r.error == INVALID_FORMAT
  {
    var parts := Split(s, ":");
    if |parts| != 4 then Err(INVALID_FORMAT)
    else Ok(Fields(Decode(parts[0]), Decode(parts[1]), parts[2], Decode(parts[3])))
  }

  /** What `encrypt(text)` returns or throws, given the salt and IV `crypto.randomBytes` produced. */
  function EncryptResult(text: string, env: Env, p: Primitives, salt: seq<Byte>, iv: seq<Byte>): (r: Result<string, Failure>)
    ensures r.Ok? <==> KeyConfigured(env)
    ensures r.Err? ==> r.error == MissingKey
  {
    if !KeyConfigured(env) then Err(MissingKey)
    else
      var sealed := p.seal(p.deriveKey(env.encryptionKey.value, salt), iv, p.utf8Encode(text));
      Ok(EnvelopeOf(salt, iv, sealed.ciphertext, sealed.tag))
  }

  /**
   * The message of the error a decipher's `update(data, 'hex', …)` throws
   * when `data` has an odd number of characters.
   */
  function OddHexReason(length: nat): (m: string)
    ensures ODD_HEX_DATA <= m
  {
    ODD_HEX_DATA + Decimal(length) + ". Received 'hex'"
  }

  /** What `decrypt(text)` returns or throws. */
  function DecryptResult(text: string, env: Env, p: Primitives): (r: Result<string, Failure>)
    ensures !KeyConfigured(env) ==> r == Err(MissingKey)
    ensures KeyConfigured(env) && |Split(text, ":")| != 4 ==> r == Err(DecryptionFailed(INVALID_FORMAT))
    ensures KeyConfigured(env) && |Split(text, ":")| == 4 && |Split(text, ":")[2]| % 2 == 1 ==> r.Err?
    ensures r.Err? && KeyConfigured(env) ==> r.error.DecryptionFailed?
  {
    if !KeyConfigured(env) then Err(MissingKey)
    else
      match ParseEnvelope(text)
      case Err(reason) => Err(DecryptionFailed(reason))
      case Ok(f) =>
        var key := p.deriveKey(env.encryptionKey.value, f.salt);
        match p.decipherError(key, f.iv, f.tag)
        case Some(reason) => Err(DecryptionFailed(reason))
        case None =>
          if |f.encrypted| % 2 != 0 then Err(DecryptionFailed(OddHexReason(|f.encrypted|)))
          else
            match p.open(key, f.iv, Decode(f.encrypted), f.tag)
            case Err(reason) => Err(DecryptionFailed(reason))
            case Ok(bytes) => Ok(p.utf8Decode(bytes))
  }

  /**
   * `encrypt`: the key check, then key derivation, encryption and the
   * envelope, step by step. `salt` and `iv` are what `crypto.randomBytes`
   * returned for this call.
   */
  method Encrypt(text: string, env: Env, p: Primitives, salt: seq<Byte>, iv: seq<Byte>) returns (r: Result<string, Failure>)
    requires |salt| == SALT_LENGTH && |iv| == IV_LENGTH
    ensures r == EncryptResult(text, env, p, salt, iv)
    ensures r.Ok? ==> var parts := Split(r.value, ":");
      && |parts| == 4 && |parts[0]| == 2 * SALT_LENGTH && |parts[1]| == 2 * IV_LENGTH
      && ParseEnvelope(r.value).Ok? && ParseEnvelope(r.value).value.salt == salt
      && ParseEnvelope(r.value).value.iv == iv
  {
    if !KeyConfigured(env) {
      return Err(MissingKey);
    }
    var key := p.deriveKey(env.encryptionKey.value, salt);
    var sealed := p.seal(key, iv, p.utf8Encode(text));
    var encrypted := Encode(sealed.ciphertext);
    var authTag := sealed.tag;
    r := Ok(Encode(salt) + ":" + Encode(iv) + ":" + encrypted + ":" + Encode(authTag));
    EnvelopeFields(salt, iv, sealed.ciphertext, authTag);
    ParseEnvelopeOf(salt, iv, sealed.ciphertext, authTag);
  }

  /**
   * `decrypt`: the key check sits outside the `try`, so a missing key is
   * thrown as it is; every failure inside is rethrown with the
   * "Decryption failed: " prefix.
   */
  method Decrypt(text: string, env: Env, p: Primitives) returns (r: Result<string, Failure>)
    ensures r == DecryptResult(text, env, p)
  {
    if !KeyConfigured(env) {
      return Err(MissingKey);
    }
    var parts := Split(text, ":");
    if |parts| != 4 {
      return Err(DecryptionFailed(INVALID_FORMAT));
    }
    var salt := Decode(parts[0]);
    var iv := Decode(parts[1]);
    var encrypted := parts[2];
    var authTag := Decode(parts[3]);
    var key := p.deriveKey(env.encryptionKey.value, salt);
    var setupError := p.decipherError(key, iv, authTag);
    if setupError.Some? {
      return Err(DecryptionFailed(setupError.value));
    }
    if |encrypted| % 2 != 0 {
      return Err(DecryptionFailed(OddHexReason(|encrypted|)));
    }
    var decrypted := p.open(key, iv, Decode(encrypted), authTag);
    if decrypted.Err? {
      return Err(DecryptionFailed(decrypted.error));
    }
    r := Ok(p.utf8Decode(decrypted.value));
  }

  /** Hex text never contains the delimiter. */
  lemma EncodeHasNoColon(bs: seq<Byte>)
    ensures ':' !in Encode(bs)
  {
  }

  /** The envelope splits back into exactly the four hex fields it was built from. */
  lemma EnvelopeFields(salt: seq<Byte>, iv: seq<Byte>, ciphertext: seq<Byte>, tag: seq<Byte>)
    ensures Split(EnvelopeOf(salt, iv, ciphertext, tag), ":") == [Encode(salt), Encode(iv), Encode(ciphertext), Encode(tag)]
  {
    var parts := [Encode(salt), Encode(iv), Encode(ciphertext), Encode(tag)];
    EncodeHasNoColon(salt);
    EncodeHasNoColon(iv);
    EncodeHasNoColon(ciphertext);
    EncodeHasNoColon(tag);
    JoinFour(Encode(salt), Encode(iv), Encode(ciphertext), Encode(tag), ":");
    SplitJoin(parts, ':');
  }

  /** `decrypt` parses the fields back in the order `encrypt` wrote them. */
  lemma ParseEnvelopeOf(salt: seq<Byte>, iv: seq<Byte>, ciphertext: seq<Byte>, tag: seq<Byte>)
    ensures ParseEnvelope(EnvelopeOf(salt, iv, ciphertext, tag)) == Ok(Fields(salt, iv, Encode(ciphertext), tag))
  {
    EnvelopeFields(salt, iv, ciphertext, tag);
    DecodeEncode(salt);
    DecodeEncode(iv);
    DecodeEncode(tag);
  }

  /**
   * An envelope whose ciphertext field has an odd number of characters is
   * rejected once the decipher is set up: `update` throws before anything is
   * decrypted, whatever the cipher would make of the digits.
   */
  lemma OddCiphertextFieldFails(text: string, env: Env, p: Primitives)
    requires KeyConfigured(env)
    requires var parts := Split(text, ":"); |parts| == 4 && |parts[2]| % 2 == 1
    requires var f := ParseEnvelope(text).value;
      p.decipherError(p.deriveKey(env.encryptionKey.value, f.salt), f.iv, f.tag) == None
    ensures DecryptResult(text, env, p) == Err(DecryptionFailed(OddHexReason(|Split(text, ":")[2]|)))
  {
  }

  /** Appending one hex digit to the ciphertext field of an envelope `encrypt` wrote makes `decrypt` fail. */
  lemma TamperedCiphertextFails(salt: seq<Byte>, iv: seq<Byte>, ciphertext: seq<Byte>, tag: seq<Byte>, c: char,
                                env: Env, p: Primitives)
    requires KeyConfigured(env) && IsHexDigit(c)
    ensures var tampered := Encode(salt) + ":" + Encode(iv) + ":" + (Encode(ciphertext) + [c]) + ":" + Encode(tag);
      DecryptResult(tampered, env, p).Err?
  {
    EncodeHasNoColon(salt);
    EncodeHasNoColon(iv);
    EncodeHasNoColon(tag);
    TamperedField(ciphertext, c);
    OddFieldOfFourRejected(Encode(salt), Encode(iv), Encode(ciphertext) + [c], Encode(tag), env, p);
  }

  lemma TamperedField(ciphertext: seq<Byte>, c: char)
    requires IsHexDigit(c)
    ensures var field := Encode(ciphertext) + [c]; ':' !in field && |field| % 2 == 1
  {
    EncodeHasNoColon(ciphertext);
    OddLength(|ciphertext|);
  }

  lemma OddFieldOfFourRejected(a: string, b: string, c: string, d: string, env: Env, p: Primitives)
    requires KeyConfigured(env) && ':' !in a && ':' !in b && ':' !in c && ':' !in d
    requires |c| % 2 == 1
    ensures DecryptResult(a + ":" + b + ":" + c + ":" + d, env, p).Err?
  {
    FourFieldsSplit(a, b, c, d);
  }

  lemma OddLength(n: nat)
    ensures (2 * n + 1) % 2 == 1
  {
  }

  /** Four texts without `:` joined by `:` split back into those four texts. */
  lemma FourFieldsSplit(a: string, b: string, c: string, d: string)
    requires ':' !in a && ':' !in b && ':' !in c && ':' !in d
    ensures Split(a + ":" + b + ":" + c + ":" + d, ":") == [a, b, c, d]
  {
    JoinFour(a, b, c, d, ":");
    SplitJoin([a, b, c, d], ':');
  }

  /** Under the same key, decrypting what `encrypt` produced gives the plaintext back. */
  lemma RoundTrip(text: string, env: Env, p: Primitives, salt: seq<Byte>, iv: seq<Byte>)
    requires Sound(p) && KeyConfigured(env)
    ensures DecryptResult(EncryptResult(text, env, p, salt, iv).value, env, p) == Ok(text)
  {
    var key := p.deriveKey(env.encryptionKey.value, salt);
    var sealed := p.seal(key, iv, p.utf8Encode(text));
    ParseEnvelopeOf(salt, iv, sealed.ciphertext, sealed.tag);
    DecodeEncode(sealed.ciphertext);
  }

  /** A JavaScript value handed to `isEncrypted`: anything may arrive, not only strings. */
  datatype JsValue = Undefined | Null | Str(s: string) | NonString

  /** A text accepted by `/^[0-9a-f]+$/i`: at least one hex digit, in either case, and nothing else. */
  predicate IsHexField(part: string)
  {
    |part| > 0 && forall i :: 0 <= i < |part| ==> IsHexDigit(part[i])
  }

  /** `isEncrypted`: a non-empty string whose `:`-split has exactly four parts, each a hex field. */
  predicate IsEncrypted(v: JsValue)
  {
    if !v.Str? || v.s == "" then false
    else
      var parts := Split(v.s, ":");
      |parts| == 4 && forall i :: 0 <= i < |parts| ==> IsHexField(parts[i])
  }

  /** An independent description of the strings the gate accepts: four hex fields joined by `:`. */
  ghost predicate FourHexFields(s: string)
  {
    exists a, b, c, d :: IsHexField(a) && IsHexField(b) && IsHexField(c) && IsHexField(d)
                      && s == a + ":" + b + ":" + c + ":" + d
  }

  lemma HexFieldHasNoColon(part: string)
    requires forall i :: 0 <= i < |part| ==> IsHexDigit(part[i])
    ensures ':' !in part
  {
  }

  /** `isEncrypted` rejects everything but strings, and accepts exactly the strings made of four hex fields joined by `:`. */
  lemma IsEncryptedExactly(v: JsValue)
    ensures IsEncrypted(v) <==> v.Str? && FourHexFields(v.s)
  {
    if IsEncrypted(v) {
      var parts := Split(v.s, ":");
      JoinSplit(v.s, ":");
      assert parts == [parts[0], parts[1], parts[2], parts[3]];
      JoinFour(parts[0], parts[1], parts[2], parts[3], ":");
      assert IsHexField(parts[0]) && IsHexField(parts[1]) && IsHexField(parts[2]) && IsHexField(parts[3]);
    }
    if v.Str? && FourHexFields(v.s) {
      var a, b, c, d :| IsHexField(a) && IsHexField(b) && IsHexField(c) && IsHexField(d)
                      && v.s == a + ":" + b + ":" + c + ":" + d;
      HexFieldHasNoColon(a);
      HexFieldHasNoColon(b);
      HexFieldHasNoColon(c);
      HexFieldHasNoColon(d);
      JoinFour(a, b, c, d, ":");
      SplitJoin([a, b, c, d], ':');
    }
  }

  /** With non-empty salt, IV and tag, the gate accepts an envelope exactly when its ciphertext is non-empty. */
  lemma EnvelopeRecognised(salt: seq<Byte>, iv: seq<Byte>, ciphertext: seq<Byte>, tag: seq<Byte>)
    requires |salt| > 0 && |iv| > 0 && |tag| > 0
    ensures IsEncrypted(Str(EnvelopeOf(salt, iv, ciphertext, tag))) <==> |ciphertext| > 0
  {
    EnvelopeFields(salt, iv, ciphertext, tag);
    var parts := [Encode(salt), Encode(iv), Encode(ciphertext), Encode(tag)];
    assert EnvelopeOf(salt, iv, ciphertext, tag) != "" by {
      assert |EnvelopeOf(salt, iv, ciphertext, tag)| >= |Encode(salt)| > 0;
    }
    if |ciphertext| > 0 {
      forall k | 0 <= k < 4 ensures IsHexField(parts[k]) {
        var e := parts[k];
        forall i | 0 <= i < |e| ensures IsHexDigit(e[i]) {
          assert IsLowerHexDigit(e[i]);
        }
      }
    } else {
      assert !IsHexField(parts[2]);
    }
  }

  /**
   * What `encrypt` produces passes `isEncrypted` exactly when the plaintext is
   * non-empty: the empty plaintext gives an empty ciphertext field, which the
   * `+` of the field pattern refuses.
   */
  lemma EncryptedTextRecognised(text: string, env: Env, p: Primitives, salt: seq<Byte>, iv: seq<Byte>)
    requires Sound(p) && KeyConfigured(env)
    requires |salt| == SALT_LENGTH && |iv| == IV_LENGTH
    ensures IsEncrypted(Str(EncryptResult(text, env, p, salt, iv).value)) <==> text != ""
  {
    var key := p.deriveKey(env.encryptionKey.value, salt);
    var sealed := p.seal(key, iv, p.utf8Encode(text));
    EnvelopeRecognised(salt, iv, sealed.ciphertext, sealed.tag);
  }

  /**
   * The gate `encrypt`'s own output evidently calls for: as `isEncrypted`, but
   * the ciphertext field (the third) may be empty.
   */
  predicate IsEnvelope(v: JsValue)
  {
    && v.Str?
    && var parts := Split(v.s, ":");
    && |parts| == 4
    && IsHexField(parts[0]) && IsHexField(parts[1]) && IsHexField(parts[3])
    && forall i :: 0 <= i < |parts[2]| ==> IsHexDigit(parts[2][i])
  }

  /** The corrected gate accepts every envelope `encrypt` produces, the empty plaintext's included. */
  lemma EnvelopeGateAcceptsEncryption(text: string, env: Env, p: Primitives, salt: seq<Byte>, iv: seq<Byte>)
    requires Sound(p) && KeyConfigured(env)
    requires |salt| == SALT_LENGTH && |iv| == IV_LENGTH
    ensures IsEnvelope(Str(EncryptResult(text, env, p, salt, iv).value))
  {
    var key := p.deriveKey(env.encryptionKey.value, salt);
    var sealed := p.seal(key, iv, p.utf8Encode(text));
    EnvelopeFields(salt, iv, sealed.ciphertext, sealed.tag);
  }

  /** The corrected gate accepts everything `isEncrypted` accepts, and more only where the ciphertext field is empty. */
  lemma EnvelopeGateWidensOnlyEmpty(v: JsValue)
    ensures IsEncrypted(v) ==> IsEnvelope(v)
    ensures IsEnvelope(v) && !IsEncrypted(v) ==> Split(v.s, ":")[2] == ""
  {
    if IsEnvelope(v) && !IsEncrypted(v) {
      var parts := Split(v.s, ":");
      assert v.s != "" by {
        assert |Split("", ":")| == 1;
      }
      if parts[2] != "" {
        assert IsHexField(parts[2]);
        assert forall i :: 0 <= i < |parts| ==> IsHexField(parts[i]);
      }
    }
  }
}
