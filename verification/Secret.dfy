/**
  Sealed configuration values (src/secret.rs): the `ENC[...]` envelope and the decryption of a whole
  configuration tree. X25519 (section 6.1 of RFC 7748), key derivation and AES-GCM are functions
  given from outside, used only through the laws a scheme of this kind has.
 */
module Secret {
  import opened Wrappers
  import opened Text
  import opened Bytes
  import Utf8
  import Base64

  const PREFIX := "ENC["
  const SUFFIX := "]"
  const VERSION_RSA: Byte := 1
  const VERSION_EC: Byte := 2
  const ALG_X25519_AESGCM: Byte := 1
  const PK_LEN: nat := 32
  const NONCE_LEN: nat := 12
  const TAG_LEN: nat := 16
  const OVERHEAD: nat := 2 + PK_LEN + NONCE_LEN + TAG_LEN

  datatype Crypto = Crypto(
    publicOf: Bytes -> Bytes,
    agree: (Bytes, Bytes) -> Bytes,
    deriveCek: Bytes -> Bytes,
    encrypt: (Bytes, Bytes, Bytes) -> Bytes,
    decrypt: (Bytes, Bytes, Bytes) -> Option<Bytes>)

  /** Key agreement commutes, authenticated decryption inverts encryption, and sizes are fixed. */
  ghost predicate Lawful(c: Crypto) {
    && (forall k :: |c.publicOf(k)| == PK_LEN)
    && (forall j, k :: c.agree(j, c.publicOf(k)) == c.agree(k, c.publicOf(j)))
    && (forall k, n, p :: c.decrypt(k, n, c.encrypt(k, n, p)) == Some(p))
    && (forall k, n, p :: |c.encrypt(k, n, p)| == |p| + TAG_LEN)
  }

  datatype OpenError =
    | NotBase64
    | EmptyEnvelope
    | RemovedVersion
    | UnknownVersion(v: Byte)
    | Truncated(length: nat)
    | UnknownAlgorithm(a: Byte)
    | Tampered
    | NotUtf8

  predicate IsSealed(s: string) {
    PREFIX <= s && StripSuffix(s, SUFFIX).Some?
  }

  // ----- the envelope -----

  /** The envelope as it goes into base64. */
  function Envelope(c: Crypto, pk: Bytes, plaintext: string, ephemeral: Bytes, nonce: Bytes): Bytes {
    var cek := c.deriveCek(c.agree(ephemeral, pk));
    [VERSION_EC, ALG_X25519_AESGCM] + c.publicOf(ephemeral) + nonce + c.encrypt(cek, nonce, Utf8.Encode(plaintext))
  }

  function Token(envelope: Bytes): string {
    PREFIX + Base64.Encode(Base64.UrlSafe, envelope) + SUFFIX
  }

  // ----- opening -----

  /** The base64 text: inside the wrapper, or the whole token when it is not wrapped. */
  function Body(token: string): string {
    match StripPrefix(token, PREFIX)
    case None => token
    case Some(rest) => match StripSuffix(rest, SUFFIX) case Some(body) => body case None => token
  }

  function OpenEnvelope(c: Crypto, key: Bytes, env: Bytes): Result<string, OpenError>
    requires env != []
  {
    if |env| < OVERHEAD then Err(Truncated(|env|))
    else if env[1] != ALG_X25519_AESGCM then Err(UnknownAlgorithm(env[1]))
    else
      var rest := env[2..];
      var pk, nonce, ct := rest[..PK_LEN], rest[PK_LEN..][..NONCE_LEN], rest[PK_LEN..][NONCE_LEN..];
      match c.decrypt(c.deriveCek(c.agree(key, pk)), nonce, ct)
      case None => Err(Tampered)
      case Some(pt) => match Utf8.Decode(pt) case Some(s) => Ok(s) case None => Err(NotUtf8)
  }

  function Open(c: Crypto, key: Bytes, token: string): Result<string, OpenError> {
    match Base64.Decode(Base64.UrlSafe, Body(token))
    case None => Err(NotBase64)
    case Some(env) =>
      if env == [] then Err(EmptyEnvelope)
      else if env[0] == VERSION_EC then OpenEnvelope(c, key, env)
      else if env[0] == VERSION_RSA then Err(RemovedVersion)
      else Err(UnknownVersion(env[0]))
  }

  lemma BodyOfToken(env: Bytes)
    ensures IsSealed(Token(env))
    ensures Body(Token(env)) == Base64.Encode(Base64.UrlSafe, env)
  {
    var b := Base64.Encode(Base64.UrlSafe, env);
    var t := Token(env);
    assert t == PREFIX + (b + SUFFIX);
    assert t[|PREFIX|..] == b + SUFFIX;
    assert (b + SUFFIX)[..|b|] == b && (b + SUFFIX)[|b|..] == SUFFIX;
    assert t[|t| - 1..] == SUFFIX;
  }

  /** The bare base64 text is its own body: no bracket belongs to the alphabet. */
  lemma BodyOfBareText(env: Bytes)
    ensures Body(Base64.Encode(Base64.UrlSafe, env)) == Base64.Encode(Base64.UrlSafe, env)
  {
    var b := Base64.Encode(Base64.UrlSafe, env);
    Base64.EncodedCharacters(Base64.UrlSafe, env);
    assert |b| > 3 ==> Base64.ValueOf(Base64.UrlSafe, b[3]).Some?;
    assert PREFIX[3] == '[';
  }

  lemma OpenSealedEnvelope(c: Crypto, key: Bytes, plaintext: string, ephemeral: Bytes, nonce: Bytes)
    requires Lawful(c) && |nonce| == NONCE_LEN
    ensures var env := Envelope(c, c.publicOf(key), plaintext, ephemeral, nonce);
            && env[..1] == [VERSION_EC]
            && |env| == OVERHEAD + |Utf8.Encode(plaintext)|
            && OpenEnvelope(c, key, env) == Ok(plaintext)
  {
    var env := Envelope(c, c.publicOf(key), plaintext, ephemeral, nonce);
    var cek := c.deriveCek(c.agree(ephemeral, c.publicOf(key)));
    var pk, ct := c.publicOf(ephemeral), c.encrypt(cek, nonce, Utf8.Encode(plaintext));
    var rest := env[2..];
    assert rest == pk + (nonce + ct);
    assert rest[..PK_LEN] == pk && rest[PK_LEN..] == nonce + ct;
    assert (nonce + ct)[..NONCE_LEN] == nonce && (nonce + ct)[NONCE_LEN..] == ct;
    assert c.agree(key, pk) == c.agree(ephemeral, c.publicOf(key));
    Utf8.DecodeEncode(plaintext);
  }

  /**
    For every key, plaintext and pair of random draws: what was sealed for the public side opens with
    the private side, from the wrapped token and from the bare text alike.
   */
  lemma SealThenOpen(c: Crypto, key: Bytes, plaintext: string, ephemeral: Bytes, nonce: Bytes)
    requires Lawful(c) && |nonce| == NONCE_LEN
    ensures var env := Envelope(c, c.publicOf(key), plaintext, ephemeral, nonce);
            && IsSealed(Token(env))
            && Open(c, key, Token(env)) == Ok(plaintext)
            && Open(c, key, Base64.Encode(Base64.UrlSafe, env)) == Ok(plaintext)
  {
    var env := Envelope(c, c.publicOf(key), plaintext, ephemeral, nonce);
    BodyOfToken(env);
    BodyOfBareText(env);
    Base64.DecodeEncode(Base64.UrlSafe, env);
    OpenSealedEnvelope(c, key, plaintext, ephemeral, nonce);
    assert env[..1][0] == env[0];
  }

  /**
    `seal_ec_pub`: the source fills a buffer; `ephemeral` and `nonce` are its two draws from the random
    source. The holder of the private side of `pk`, whoever that is, gets the plaintext back.
   */
  method SealEcPub(c: Crypto, pk: Bytes, plaintext: string, ephemeral: Bytes, nonce: Bytes) returns (token: string)
    ensures IsSealed(token)
    ensures Lawful(c) && |nonce| == NONCE_LEN ==>
              forall key :: c.publicOf(key) == pk ==> Open(c, key, token) == Ok(plaintext)
    ensures token == Token(Envelope(c, pk, plaintext, ephemeral, nonce))
  {
    hide Open, Lawful, IsSealed;
    var shared := c.agree(ephemeral, pk);
    var cek := c.deriveCek(shared);
    var ct := c.encrypt(cek, nonce, Utf8.Encode(plaintext));
    var env: Bytes := [];
    env := env + [VERSION_EC];
    env := env + [ALG_X25519_AESGCM];
    env := env + c.publicOf(ephemeral);
    env := env + nonce;
    env := env + ct;
    assert env == Envelope(c, pk, plaintext, ephemeral, nonce);
    token := PREFIX + Base64.Encode(Base64.UrlSafe, env) + SUFFIX;
    BodyOfToken(env);
    if Lawful(c) && |nonce| == NONCE_LEN {
      forall key | c.publicOf(key) == pk
        ensures Open(c, key, token) == Ok(plaintext)
      {
        SealThenOpen(c, key, plaintext, ephemeral, nonce);
      }
    }
  }

  /**
    Whatever opens is a complete envelope of the one supported version and algorithm, in canonical
    base64; so every shorter envelope is refused, and no two spellings of a body open alike.
   */
  lemma OnlyCompleteEnvelopesOpen(c: Crypto, key: Bytes, token: string)
    requires Open(c, key, token).Ok?
    ensures exists env: Bytes ::
              && Body(token) == Base64.Encode(Base64.UrlSafe, env)
              && |env| >= OVERHEAD && env[0] == VERSION_EC && env[1] == ALG_X25519_AESGCM
  {
    Base64.EncodeDecode(Base64.UrlSafe, Body(token));
    var env := Base64.Decode(Base64.UrlSafe, Body(token)).value;
    assert Body(token) == Base64.Encode(Base64.UrlSafe, env);
  }

  /** In particular every envelope below the fixed overhead of 62 bytes is refused, wrapped or bare. */
  lemma ShortEnvelopesAreRefused(c: Crypto, key: Bytes, env: Bytes)
    requires |env| < OVERHEAD
    ensures Open(c, key, Token(env)).Err? && Open(c, key, Base64.Encode(Base64.UrlSafe, env)).Err?
  {
    BodyOfToken(env);
    BodyOfBareText(env);
    Base64.DecodeEncode(Base64.UrlSafe, env);
  }

  /** The laws can be met together. */
  lemma LawfulIsSatisfiable() returns (c: Crypto)
    ensures Lawful(c)
  {
    c := Crypto(
      k => seq(PK_LEN, i => 0),
      (j, k) => [],
      s => s,
      (k, n, p) => p + seq(TAG_LEN, i => 0),
      (k, n, ct) => if |ct| >= TAG_LEN then Some(ct[..|ct| - TAG_LEN]) else None);
    forall k: Bytes, n: Bytes, p: Bytes
      ensures c.decrypt(k, n, c.encrypt(k, n, p)) == Some(p)
    {
      var z: Bytes := seq(TAG_LEN, i => 0);
      assert (p + z)[..|p + z| - TAG_LEN] == p;
    }
  }

  // ----- the format, byte by byte -----

  lemma SealedTextIs(s: string)
    ensures IsSealed(s) <==> exists body :: s == "ENC[" + body + "]"
  {
    if IsSealed(s) {
      assert s[3] == PREFIX[3] == '[' && s[|s| - 1..][0] == s[|s| - 1] == SUFFIX[0] == ']';
      assert s == "ENC[" + s[4..|s| - 1] + "]";
    }
    if body :| s == "ENC[" + body + "]" {
      assert s == PREFIX + (body + SUFFIX) && s[|s| - 1..] == SUFFIX;
    }
  }

  lemma BodyOfWrapped(b: string)
    ensures Body("ENC[" + b + "]") == b
  {
    var t := "ENC[" + b + "]";
    assert t == PREFIX + (b + SUFFIX) && t[|PREFIX|..] == b + SUFFIX;
    assert (b + SUFFIX)[..|b|] == b && (b + SUFFIX)[|b|..] == SUFFIX;
  }

  /** A token carries an envelope in URL-safe base64 without padding, wrapped in `ENC[...]` or bare. */
  ghost predicate Carries(token: string, env: Bytes) {
    var text := Base64.Encode(Base64.UrlSafe, env);
    token == "ENC[" + text + "]" || token == text
  }

  lemma BodyIsCarried(token: string, env: Bytes)
    ensures Body(token) == Base64.Encode(Base64.UrlSafe, env) <==> Carries(token, env)
  {
    var text := Base64.Encode(Base64.UrlSafe, env);
    BodyOfWrapped(text);
    BodyOfBareText(env);
    if Body(token) == text && Body(token) != token {
      var rest := StripPrefix(token, PREFIX).value;
      assert token == PREFIX + rest && rest == text + SUFFIX;
      assert token == "ENC[" + text + "]";
    }
  }

  /** Version, algorithm, public key of the sender, nonce, ciphertext. */
  lemma EnvelopeLayout(c: Crypto, pk: Bytes, plaintext: string, ephemeral: Bytes, nonce: Bytes)
    requires |c.publicOf(ephemeral)| == 32 && |nonce| == 12
    ensures var env := Envelope(c, pk, plaintext, ephemeral, nonce);
            && |env| >= 46 && env[0] == 2 && env[1] == 1
            && env[2..34] == c.publicOf(ephemeral) && env[34..46] == nonce
            && env[46..] == c.encrypt(c.deriveCek(c.agree(ephemeral, pk)), nonce, Utf8.Encode(plaintext))
  {
  }

  /** The plaintext of a complete envelope: of version 2, algorithm 1, and at least 62 bytes long. */
  ghost predicate Yields(c: Crypto, key: Bytes, env: Bytes, s: string) {
    && |env| >= 62 && env[0] == 2 && env[1] == 1
    && var pt := c.decrypt(c.deriveCek(c.agree(key, env[2..34])), env[34..46], env[46..]);
       pt.Some? && Utf8.Decode(pt.value) == Some(s)
  }

  lemma EnvelopeYields(c: Crypto, key: Bytes, env: Bytes, s: string)
    requires env != []
    ensures env[0] == 2 && OpenEnvelope(c, key, env) == Ok(s) <==> Yields(c, key, env, s)
  {
    if |env| >= 62 {
      var rest := env[2..];
      assert rest[..PK_LEN] == env[2..34] && rest[PK_LEN..][..NONCE_LEN] == env[34..46];
      assert rest[PK_LEN..][NONCE_LEN..] == env[46..];
    }
  }

  /** What a token opens to, for every token: exactly the plaintext of the envelope it carries. */
  lemma OpensIff(c: Crypto, key: Bytes, token: string, s: string)
    ensures Open(c, key, token) == Ok(s) <==> exists env :: Carries(token, env) && Yields(c, key, env, s)
  {
    hide OpenEnvelope, Yields, Body, Carries;
    var decoded := Base64.Decode(Base64.UrlSafe, Body(token));
    if decoded.Some? {
      Base64.EncodeDecode(Base64.UrlSafe, Body(token));
      BodyIsCarried(token, decoded.value);
    }
    forall env | Carries(token, env)
      ensures decoded == Some(env)
    {
      BodyIsCarried(token, env);
      Base64.DecodeEncode(Base64.UrlSafe, env);
    }
    if decoded.Some? && decoded.value != [] {
      EnvelopeYields(c, key, decoded.value, s);
    }
    NothingYields(c, key, s);
  }

  lemma NothingYields(c: Crypto, key: Bytes, s: string)
    ensures !Yields(c, key, [], s)
  {
  }
}
