/** src/tokenStore.ts: one encrypted credential record per workspace. */
module TokenStore {
  import opened Common
  import opened Foreign
  import opened Crypto

  /** A record as kept in the store: both tokens only in encrypted form. */
  datatype StoredTokens = StoredTokens(
    accessTokenEnc: string,
    refreshTokenEnc: string,
    expiryDateMs: int,
    scopes: seq<string>,
    updatedAt: int)

  /** The plaintext view `getTokens` hands out. */
  datatype Tokens = Tokens(accessToken: string, refreshToken: string, expiryDateMs: int, scopes: seq<string>)

  /** The record `setTokens` builds: each token encrypted by its own call, with its own
      IV, the access token first; `updatedAt` is the current time. */
  function SealRecord(p: Primitives, env: Option<string>, accessToken: string, refreshToken: string,
                      expiryDateMs: int, scopes: seq<string>, accessIv: Bytes, refreshIv: Bytes, now: int): (r: Result<StoredTokens>)
    requires |accessIv| == IvLength && |refreshIv| == IvLength
    ensures r.Err? <==> KeyFromEnv(p, env).Err?
    ensures r.Err? ==> r.error == KeyFromEnv(p, env).error
    ensures r.Ok? ==>
      && r.value.accessTokenEnc == EncryptString(p, env, accessIv, accessToken).value
      && r.value.refreshTokenEnc == EncryptString(p, env, refreshIv, refreshToken).value
      && r.value.expiryDateMs == expiryDateMs && r.value.scopes == scopes && r.value.updatedAt == now
  {
    match EncryptString(p, env, accessIv, accessToken)
    case Err(e) => Err(e)
    case Ok(accessEnc) =>
      match EncryptString(p, env, refreshIv, refreshToken)
      case Err(e) => Err(e)
      case Ok(refreshEnc) => Ok(StoredTokens(accessEnc, refreshEnc, expiryDateMs, scopes, now))
  }

  /** The plaintext view of a record: both tokens decrypted, access token first; a
      decryption error is propagated. */
  function OpenRecord(p: Primitives, env: Option<string>, t: StoredTokens): (r: Result<Tokens>)
    ensures r.Ok? <==> DecryptString(p, env, t.accessTokenEnc).Ok? && DecryptString(p, env, t.refreshTokenEnc).Ok?
    ensures r.Ok? ==>
      && r.value.accessToken == DecryptString(p, env, t.accessTokenEnc).value
      && r.value.refreshToken == DecryptString(p, env, t.refreshTokenEnc).value
      && r.value.expiryDateMs == t.expiryDateMs && r.value.scopes == t.scopes
  {
    match DecryptString(p, env, t.accessTokenEnc)
    case Err(e) => Err(e)
    case Ok(accessToken) =>
      match DecryptString(p, env, t.refreshTokenEnc)
      case Err(e) => Err(e)
      case Ok(refreshToken) => Ok(Tokens(accessToken, refreshToken, t.expiryDateMs, t.scopes))
  }

  /** Reading back a record gives exactly the tokens, expiry and scopes written. */
  lemma OpenSealRecord(p: Primitives, env: Option<string>, accessToken: string, refreshToken: string,
                       expiryDateMs: int, scopes: seq<string>, accessIv: Bytes, refreshIv: Bytes, now: int)
    requires Lawful(p)
    requires |accessIv| == IvLength && |refreshIv| == IvLength
    requires SealRecord(p, env, accessToken, refreshToken, expiryDateMs, scopes, accessIv, refreshIv, now).Ok?
    ensures OpenRecord(p, env, SealRecord(p, env, accessToken, refreshToken, expiryDateMs, scopes, accessIv, refreshIv, now).value)
         == Ok(Tokens(accessToken, refreshToken, expiryDateMs, scopes))
  {
    DecryptEncrypt(p, env, accessIv, accessToken);
    DecryptEncrypt(p, env, refreshIv, refreshToken);
  }

  /** The module-level `store` map, workspace id to record. The key configuration and
      the primitives are fixed for the life of the process. */
  class CredentialStore {
    const prims: Primitives
    const keyEnv: Option<string>
    var records: map<string, StoredTokens>

    constructor (prims: Primitives, keyEnv: Option<string>)
      ensures this.prims == prims && this.keyEnv == keyEnv && records == map[]
    {
      this.prims := prims;
      this.keyEnv := keyEnv;
      records := map[];
    }

    /** `setTokens`: replaces the workspace's record (last write wins) and leaves every
        other workspace's record alone; when encryption throws, nothing is written. */
    method SetTokens(workspaceId: string, accessToken: string, refreshToken: string, expiryDateMs: int,
                     scopes: seq<string>, accessIv: Bytes, refreshIv: Bytes, now: int) returns (r: Result<()>)
      requires |accessIv| == IvLength && |refreshIv| == IvLength
      modifies this
      ensures var rec := SealRecord(prims, keyEnv, accessToken, refreshToken, expiryDateMs, scopes, accessIv, refreshIv, now);
        && (rec.Ok? ==> r.Ok? && records == old(records)[workspaceId := rec.value])
        && (rec.Err? ==> r == Err(rec.error) && records == old(records))
      ensures r.Ok? && Lawful(prims) ==>
        GetTokens(workspaceId) == Ok(Some(Tokens(accessToken, refreshToken, expiryDateMs, scopes)))
    {
      var rec := SealRecord(prims, keyEnv, accessToken, refreshToken, expiryDateMs, scopes, accessIv, refreshIv, now);
      if rec.Err? {
        return Err(rec.error);
      }
      records := records[workspaceId := rec.value];
      r := Ok(());
      if Lawful(prims) {
        OpenSealRecord(prims, keyEnv, accessToken, refreshToken, expiryDateMs, scopes, accessIv, refreshIv, now);
      }
    }

    /** `getTokens`: absent when the workspace has no record, otherwise the decrypted
        view of its record, expiry and scopes as stored. */
    function GetTokens(workspaceId: string): (r: Result<Option<Tokens>>)
      reads this
      ensures r == Ok(None) <==> workspaceId !in records
      ensures r.Ok? && r.value.Some? ==>
        && workspaceId in records
        && r.value.value.expiryDateMs == records[workspaceId].expiryDateMs
        && r.value.value.scopes == records[workspaceId].scopes
      ensures r.Err? ==> workspaceId in records && r.error in {MissingKey, KeyWrongLength, BlobFormat, AuthenticationFailed}
    {
      if workspaceId !in records then Ok(None)
      else
        match OpenRecord(prims, keyEnv, records[workspaceId])
        case Err(e) => Err(e)
        case Ok(t) => Ok(Some(t))
    }
  }

  /** Two writes for one workspace: the second is what is read back. */
  method LastWriteWins(store: CredentialStore, w: string,
                       a1: string, r1: string, e1: int, s1: seq<string>,
                       a2: string, r2: string, e2: int, s2: seq<string>,
                       ivs: seq<Bytes>, t1: int, t2: int) returns (view: Result<Option<Tokens>>)
    requires Lawful(store.prims)
    requires KeyFromEnv(store.prims, store.keyEnv).Ok?
    requires |ivs| == 4 && forall i :: 0 <= i < 4 ==> |ivs[i]| == IvLength
    modifies store
    ensures view == Ok(Some(Tokens(a2, r2, e2, s2)))
    ensures store.records.Keys == old(store.records.Keys) + {w}
  {
    var _ := store.SetTokens(w, a1, r1, e1, s1, ivs[0], ivs[1], t1);
    var _ := store.SetTokens(w, a2, r2, e2, s2, ivs[2], ivs[3], t2);
    view := store.GetTokens(w);
  }
}
