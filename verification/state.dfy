/** src/state.ts: the single-use nonce registry and the HMAC-signed OAuth state token. */
module State {
  import opened Common
  import opened Text
  import opened Foreign

  /** A nonce stays valid for ten minutes after it is issued. */
  const NonceTtlMs := 10 * 60 * 1000
  /** `crypto.randomBytes(16)` feeds each nonce. */
  const NonceBytes := 16
  const Separator := '.'

  datatype NonceEntry = NonceEntry(workspaceId: string, expiresAt: int)

  /** Whether `consumeNonce(nonce, workspaceId)` at time `now` succeeds against the
      registry contents `entries`: the nonce is present, was issued for this workspace,
      and its expiry has not been passed (the comparison is strict, so the nonce is
      still good at exactly `expiresAt`). */
  predicate Accepts(entries: map<string, NonceEntry>, nonce: string, workspaceId: string, now: int) {
    && nonce in entries
    && entries[nonce].workspaceId == workspaceId
    && now <= entries[nonce].expiresAt
  }

  /** The module-level `nonceStore` map and the two operations on it. Clock readings
      and random bytes are passed in. */
  class NonceRegistry {
    const codec: Primitives
    var entries: map<string, NonceEntry>

    constructor (codec: Primitives)
      ensures this.codec == codec && entries == map[]
    {
      this.codec := codec;
      entries := map[];
    }

    /** `createNonce`: encodes the random bytes and records the workspace and expiry
        under them, overwriting nothing else. */
    method CreateNonce(workspaceId: string, random: Bytes, now: int) returns (nonce: string)
      requires |random| == NonceBytes
      modifies this
      ensures nonce == codec.base64urlEncode(random)
      ensures entries == old(entries)[nonce := NonceEntry(workspaceId, now + NonceTtlMs)]
    {
      nonce := codec.base64urlEncode(random);
      entries := entries[nonce := NonceEntry(workspaceId, now + NonceTtlMs)];
    }

    /** `consumeNonce`: a present entry is deleted before it is checked, so every
        attempt burns the nonce, successful or not; no other entry is touched. */
    method ConsumeNonce(nonce: string, workspaceId: string, now: int) returns (ok: bool)
      modifies this
      ensures entries == old(entries) - {nonce}
      ensures ok == Accepts(old(entries), nonce, workspaceId, now)
      ensures nonce !in old(entries) ==> !ok && entries == old(entries)
    {
      if nonce !in entries {
        return false;
      }
      var entry := entries[nonce];
      entries := entries - {nonce};
      if entry.workspaceId != workspaceId {
        return false;
      }
      if now > entry.expiresAt {
        return false;
      }
      return true;
    }
  }

  /** Once a consumption attempt has removed a nonce, no later attempt succeeds,
      whatever the workspace or the time. */
  lemma SingleUse(entries: map<string, NonceEntry>, nonce: string, workspaceId: string, now: int)
    ensures !Accepts(entries - {nonce}, nonce, workspaceId, now)
  {
  }

  /** A nonce issued at `issuedAt` for `w` is accepted for `w` exactly while
      `now <= issuedAt + NonceTtlMs`, the boundary included, and never for another
      workspace. */
  lemma IssuedNonceWindow(entries: map<string, NonceEntry>, nonce: string, w: string, issuedAt: int, other: string, now: int)
    requires other != w
    ensures var e := entries[nonce := NonceEntry(w, issuedAt + NonceTtlMs)];
      && (Accepts(e, nonce, w, now) <==> now <= issuedAt + 600000)
      && Accepts(e, nonce, w, issuedAt + NonceTtlMs)
      && !Accepts(e, nonce, w, issuedAt + NonceTtlMs + 1)
      && !Accepts(e, nonce, other, now)
  {
  }

  /** The full life of a nonce: issued, redeemed once within its lifetime, refused the
      second time. */
  method IssueAndRedeemTwice(registry: NonceRegistry, w: string, random: Bytes, issuedAt: int, now: int, later: int)
      returns (first: bool, second: bool)
    requires |random| == NonceBytes
    requires now <= issuedAt + NonceTtlMs
    modifies registry
    ensures first && !second
  {
    var nonce := registry.CreateNonce(w, random, issuedAt);
    first := registry.ConsumeNonce(nonce, w, now);
    second := registry.ConsumeNonce(nonce, w, later);
  }

  /** `getStateSecret`: the raw ENCRYPTION_KEY string, which must be set and non-empty. */
  function StateSecret(env: Option<string>): (r: Result<string>)
    ensures r.Ok? <==> Present(env)
    ensures r.Ok? ==> r.value == env.value
    ensures r.Err? ==> r.error == MissingSecret
  {
    if Present(env) then Ok(env.value) else Err(MissingSecret)
  }

  /** `hmac`: the base64url HMAC-SHA256 digest of `payloadB64` under the secret. */
  function Hmac(p: Primitives, env: Option<string>, payloadB64: string): (r: Result<string>)
    ensures r.Ok? <==> Present(env)
    ensures r.Ok? ==> r.value == p.base64urlEncode(p.hmacSha256(env.value, payloadB64))
    ensures r.Err? ==> r.error == MissingSecret
  {
    match StateSecret(env)
    case Err(e) => Err(e)
    case Ok(secret) => Ok(p.base64urlEncode(p.hmacSha256(secret, payloadB64)))
  }

  /** The first segment of a state token: base64url of the UTF-8 bytes of the JSON,
      so it never holds the separator. */
  function PayloadSegment(p: Primitives, data: OAuthState): (r: string)
    ensures Base64urlLaws(p) ==> Separator !in r
    ensures Utf8Laws(p) && JsonLaws(p) && Base64urlLaws(p) ==>
      p.jsonParse(p.utf8Decode(p.base64urlDecode(r))) == Some(data)
  {
    p.base64urlEncode(p.utf8Encode(p.jsonStringify(data)))
  }

  /** `signState`: the payload segment, '.', and the signature of that segment. */
  function SignState(p: Primitives, env: Option<string>, data: OAuthState): (r: Result<string>)
    ensures r.Ok? <==> Present(env)
    ensures r.Err? ==> r.error == MissingSecret
    ensures r.Ok? ==> r.value == Join([PayloadSegment(p, data), Hmac(p, env, PayloadSegment(p, data)).value], Separator)
  {
    var payloadB64 := PayloadSegment(p, data);
    match Hmac(p, env, payloadB64)
    case Err(e) => Err(e)
    case Ok(sig) =>
      assert [payloadB64, sig][1..] == [sig];
      Ok(payloadB64 + [Separator] + sig)
  }

  /** `verifyState`: exactly two segments, then the recomputed signature must equal the
      second, and only then is the payload decoded and parsed. */
  function VerifyState(p: Primitives, env: Option<string>, token: string): (r: Result<OAuthState>)
    ensures r == Err(StateFormat) <==> Occurrences(token, Separator) != 1
    ensures Occurrences(token, Separator) == 1 && Present(env) ==>
      (r == Err(StateSignature) <==> Split(token, Separator)[1] != Hmac(p, env, Split(token, Separator)[0]).value)
    ensures r.Ok? ==>
      && Present(env)
      && token == Join([Split(token, Separator)[0], Hmac(p, env, Split(token, Separator)[0]).value], Separator)
  {
    var parts := Split(token, Separator);
    if |parts| != 2 then Err(StateFormat)
    else
      match Hmac(p, env, parts[0])
      case Err(e) => Err(e)
      case Ok(expected) =>
        if parts[1] != expected then Err(StateSignature)
        else
          assert parts == [parts[0], expected];
          match p.jsonParse(p.utf8Decode(p.base64urlDecode(parts[0])))
          case None => Err(StatePayload)
          case Some(data) => Ok(data)
  }

  /** A signed token splits into exactly its payload segment and its signature. */
  lemma SignedTokenSegments(p: Primitives, env: Option<string>, data: OAuthState)
    requires Base64urlLaws(p)
    requires Present(env)
    ensures Split(SignState(p, env, data).value, Separator) == [PayloadSegment(p, data), Hmac(p, env, PayloadSegment(p, data)).value]
  {
    SplitJoin([PayloadSegment(p, data), Hmac(p, env, PayloadSegment(p, data)).value], Separator);
  }

  /** Verifying a token this backend signed gives back the signed payload. */
  lemma VerifySign(p: Primitives, env: Option<string>, data: OAuthState)
    requires Lawful(p)
    requires Present(env)
    ensures VerifyState(p, env, SignState(p, env, data).value) == Ok(data)
  {
    SignedTokenSegments(p, env, data);
  }
}
