/** The encrypted-blob envelope of src/crypto.ts: AES-256-GCM under a key taken from
    ENCRYPTION_KEY, serialised as `base64url(iv).base64url(tag).base64url(ciphertext)`. */
module Crypto {
  import opened Common
  import opened Text
  import opened Foreign

  const Separator := '.'

  /** The three parts of an encrypted blob, before serialisation. */
  datatype EncryptedBlob = EncryptedBlob(iv: Bytes, tag: Bytes, ciphertext: Bytes)

  /** The key from the ENCRYPTION_KEY variable (`env`). A missing or empty value and a
      value that does not base64-decode to exactly 32 bytes are configuration errors. */
  function KeyFromEnv(p: Primitives, env: Option<string>): (r: Result<Bytes>)
    ensures r.Ok? <==> Present(env) && |p.base64Decode(env.value)| == AesKeyLength
    ensures r.Ok? ==> |r.value| == AesKeyLength && r.value == p.base64Decode(env.value)
    ensures r.Err? ==> (r.error == MissingKey <==> !Present(env))
    ensures r.Err? ==> r.error in {MissingKey, KeyWrongLength}
  {
    if !Present(env) then Err(MissingKey)
    else
      var key := p.base64Decode(env.value);
      if |key| != AesKeyLength then Err(KeyWrongLength) else Ok(key)
  }

  /** The wire form of a blob: its three parts, each base64url-encoded, joined by '.'.
      Since base64url never produces '.', the result holds exactly two of them and
      starts with the encoded IV. */
  function Pack(p: Primitives, b: EncryptedBlob): (r: string)
    ensures Base64urlLaws(p) ==> Occurrences(r, Separator) == 2
    ensures var iv := p.base64urlEncode(b.iv); |iv| < |r| && r[..|iv|] == iv
  {
    Join([p.base64urlEncode(b.iv), p.base64urlEncode(b.tag), p.base64urlEncode(b.ciphertext)], Separator)
  }

  /** Reads the wire form back. Anything that does not split into exactly three
      segments, that is anything without exactly two '.', is a format error. */
  function Unpack(p: Primitives, blob: string): (r: Result<EncryptedBlob>)
    ensures r.Err? <==> Occurrences(blob, Separator) != 2
    ensures r.Err? ==> r.error == BlobFormat
  {
    var parts := Split(blob, Separator);
    if |parts| != 3 then Err(BlobFormat)
    else Ok(EncryptedBlob(p.base64urlDecode(parts[0]), p.base64urlDecode(parts[1]), p.base64urlDecode(parts[2])))
  }

  /** `encryptString`: fails only when the key is unusable; otherwise seals the UTF-8
      bytes of `plaintext` under the fresh `iv` and packs IV, tag and ciphertext. */
  function EncryptString(p: Primitives, env: Option<string>, iv: Bytes, plaintext: string): (r: Result<string>)
    requires |iv| == IvLength
    ensures r.Err? <==> KeyFromEnv(p, env).Err?
    ensures r.Err? ==> r.error == KeyFromEnv(p, env).error
  {
    match KeyFromEnv(p, env)
    case Err(e) => Err(e)
    case Ok(key) =>
      var s := p.seal(key, iv, p.utf8Encode(plaintext));
      Ok(Pack(p, EncryptedBlob(iv, s.tag, s.ciphertext)))
  }

  /** `decryptString`: the key is checked first, then the format, then the tag. */
  function DecryptString(p: Primitives, env: Option<string>, blob: string): (r: Result<string>)
    ensures KeyFromEnv(p, env).Err? ==> r == Err(KeyFromEnv(p, env).error)
    ensures KeyFromEnv(p, env).Ok? ==> (r == Err(BlobFormat) <==> Occurrences(blob, Separator) != 2)
    ensures r.Ok? ==> KeyFromEnv(p, env).Ok? && Unpack(p, blob).Ok?
  {
    match KeyFromEnv(p, env)
    case Err(e) => Err(e)
    case Ok(key) =>
      match Unpack(p, blob)
      case Err(e) => Err(e)
      case Ok(b) =>
        match p.open(key, b.iv, b.tag, b.ciphertext)
        case None => Err(AuthenticationFailed)
        case Some(m) => Ok(p.utf8Decode(m))
  }

  /** A configuration error is raised before any encryption or decryption, whatever
      the plaintext or the blob. */
  lemma ConfigErrorFirst(p: Primitives, env: Option<string>, iv: Bytes, plaintext: string, blob: string)
    requires |iv| == IvLength
    requires !Present(env) || |p.base64Decode(env.value)| != AesKeyLength
    ensures EncryptString(p, env, iv, plaintext).Err?
    ensures DecryptString(p, env, blob).Err?
    ensures EncryptString(p, env, iv, plaintext).error == DecryptString(p, env, blob).error
    ensures DecryptString(p, env, blob).error == (if Present(env) then KeyWrongLength else MissingKey)
  {
  }

  /** Splitting a packed blob on '.' recovers exactly the three encoded segments, in the
      order IV, tag, ciphertext, and unpacking recovers the parts. */
  lemma {:induction false} UnpackPack(p: Primitives, b: EncryptedBlob)
    requires Base64urlLaws(p)
    ensures Split(Pack(p, b), Separator) == [p.base64urlEncode(b.iv), p.base64urlEncode(b.tag), p.base64urlEncode(b.ciphertext)]
    ensures Unpack(p, Pack(p, b)) == Ok(b)
  {
    var segs := [p.base64urlEncode(b.iv), p.base64urlEncode(b.tag), p.base64urlEncode(b.ciphertext)];
    SplitJoin(segs, Separator);
  }

  /** The layout of every blob `encryptString` produces: three segments, the first
      decoding to the 12-byte IV, the second to a 16-byte tag. */
  lemma EncryptedLayout(p: Primitives, env: Option<string>, iv: Bytes, plaintext: string)
    requires Lawful(p)
    requires |iv| == IvLength
    requires EncryptString(p, env, iv, plaintext).Ok?
    ensures var blob := EncryptString(p, env, iv, plaintext).value;
      && Occurrences(blob, Separator) == 2
      && Unpack(p, blob).Ok?
      && Unpack(p, blob).value.iv == iv
      && |Unpack(p, blob).value.tag| == GcmTagLength
  {
    var key := KeyFromEnv(p, env).value;
    var s := p.seal(key, iv, p.utf8Encode(plaintext));
    UnpackPack(p, EncryptedBlob(iv, s.tag, s.ciphertext));
  }

  /** Decryption undoes encryption under the same key configuration. */
  lemma DecryptEncrypt(p: Primitives, env: Option<string>, iv: Bytes, plaintext: string)
    requires Lawful(p)
    requires |iv| == IvLength
    requires EncryptString(p, env, iv, plaintext).Ok?
    ensures DecryptString(p, env, EncryptString(p, env, iv, plaintext).value) == Ok(plaintext)
  {
    var key := KeyFromEnv(p, env).value;
    var s := p.seal(key, iv, p.utf8Encode(plaintext));
    UnpackPack(p, EncryptedBlob(iv, s.tag, s.ciphertext));
  }
}
