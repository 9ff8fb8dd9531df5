/** The credential parts of src/google.ts: storing the result of the authorization-code
    exchange, and the refresh gate in front of every downstream API call. The provider
    calls (`getToken`, `getAccessToken`) are replaced by their replies, passed in. */
module Google {
  import opened Common
  import opened Foreign
  import opened Crypto
  import opened TokenStore

  const GscScope := "https://www.googleapis.com/auth/webmasters.readonly"
  /** A cached access token is refreshed once it is within 60 seconds of expiry. */
  const RefreshMarginMs := 60000
  /** Lifetime assumed for an access token whose expiry the provider did not report. */
  const FallbackLifetimeMs := 55 * 60 * 1000

  /** What `getToken(code)` yields: each field may be missing. */
  datatype TokenSet = TokenSet(accessToken: Option<string>, refreshToken: Option<string>, expiryDate: Option<int>)

  /** `tokens.expiry_date ?? (now + 55 min)`. */
  function ExpiryOrFallback(expiryDate: Option<int>, now: int): (e: int)
    ensures expiryDate.Some? ==> e == expiryDate.value
    ensures expiryDate.None? ==> e - now == 3300000
  {
    match expiryDate
    case Some(d) => d
    case None => now + FallbackLifetimeMs
  }

  /** The freshness test: a cached token is used only while `now` is strictly more than
      60 seconds before its expiry. */
  predicate IsFresh(now: int, expiryDateMs: int)
    ensures IsFresh(now, expiryDateMs) <==> expiryDateMs - now > 60000
  {
    now < expiryDateMs - RefreshMarginMs
  }

  /** The 60-second margin: a token expiring within 60 seconds (or already expired) is
      refreshed, one expiring later is served from the cache. */
  lemma FreshnessMargin(now: int, remainingMs: int)
    ensures IsFresh(now, now + remainingMs) <==> remainingMs > 60000
    ensures !IsFresh(now, now + 30000) && IsFresh(now, now + 5 * 60 * 1000)
  {
  }

  /** `exchangeCodeAndStore`, given the provider's reply to `getToken(code)`: a missing
      access token or refresh token is a hard failure that writes nothing; otherwise
      the tokens are stored with the reported expiry (or now + 55 min) and the single
      Search Console scope. */
  method ExchangeCodeAndStore(store: CredentialStore, workspaceId: string, tokens: TokenSet,
                              now: int, accessIv: Bytes, refreshIv: Bytes) returns (r: Result<()>)
    requires |accessIv| == IvLength && |refreshIv| == IvLength
    modifies store
    ensures !Present(tokens.accessToken) ==> r == Err(NoAccessToken) && store.records == old(store.records)
    ensures Present(tokens.accessToken) && !Present(tokens.refreshToken) ==>
      r == Err(NoRefreshToken) && store.records == old(store.records)
    ensures Present(tokens.accessToken) && Present(tokens.refreshToken) ==>
      var rec := SealRecord(store.prims, store.keyEnv, tokens.accessToken.value, tokens.refreshToken.value,
                            ExpiryOrFallback(tokens.expiryDate, now), [GscScope], accessIv, refreshIv, now);
      && (rec.Ok? ==> r.Ok? && store.records == old(store.records)[workspaceId := rec.value])
      && (rec.Err? ==> r == Err(rec.error) && store.records == old(store.records))
    ensures r.Ok? && Lawful(store.prims) ==>
      store.GetTokens(workspaceId) == Ok(Some(Tokens(tokens.accessToken.value, tokens.refreshToken.value,
                                                     ExpiryOrFallback(tokens.expiryDate, now), [GscScope])))
  {
    if !Present(tokens.accessToken) {
      return Err(NoAccessToken);
    }
    if !Present(tokens.refreshToken) {
      return Err(NoRefreshToken);
    }
    var expiryDateMs := ExpiryOrFallback(tokens.expiryDate, now);
    r := store.SetTokens(workspaceId, tokens.accessToken.value, tokens.refreshToken.value, expiryDateMs,
                         [GscScope], accessIv, refreshIv, now);
  }

  /** `getValidAccessToken`. `now` is the clock at the freshness test; `reply` is the
      token `getAccessToken()` yields and `later` the clock after it returns, both
      consulted only when the cached token is not fresh. */
  method GetValidAccessToken(store: CredentialStore, workspaceId: string, now: int,
                             reply: Option<string>, later: int, accessIv: Bytes, refreshIv: Bytes)
      returns (r: Result<string>)
    requires |accessIv| == IvLength && |refreshIv| == IvLength
    modifies store
    ensures var existing := old(store.GetTokens(workspaceId));
      && (existing.Err? ==> r == Err(existing.error) && store.records == old(store.records))
      && (existing == Ok(None) ==> r == Err(NotConnected) && store.records == old(store.records))
      && (existing.Ok? && existing.value.Some? ==>
            var t := existing.value.value;
            && (IsFresh(now, t.expiryDateMs) ==> r == Ok(t.accessToken) && store.records == old(store.records))
            && (!IsFresh(now, t.expiryDateMs) && !Present(reply) ==>
                  r == Err(RefreshFailed) && store.records == old(store.records))
            && (!IsFresh(now, t.expiryDateMs) && Present(reply) ==>
                  var rec := SealRecord(store.prims, store.keyEnv, reply.value, t.refreshToken,
                                        later + FallbackLifetimeMs, t.scopes, accessIv, refreshIv, later);
                  && rec.Ok?
                  && r == Ok(reply.value)
                  && store.records == old(store.records)[workspaceId := rec.value]
                  && (Lawful(store.prims) ==>
                        store.GetTokens(workspaceId) ==
                          Ok(Some(Tokens(reply.value, t.refreshToken, later + FallbackLifetimeMs, t.scopes))))))
  {
    var existing := store.GetTokens(workspaceId);
    if existing.Err? {
      return Err(existing.error);
    }
    if existing.value.None? {
      return Err(NotConnected);
    }
    var t := existing.value.value;
    if now < t.expiryDateMs - RefreshMarginMs {
      return Ok(t.accessToken);
    }
    if !Present(reply) {
      return Err(RefreshFailed);
    }
    var newExpiry := later + FallbackLifetimeMs;
    // The key already decrypted the record, so re-encrypting cannot fail.
    var _ := store.SetTokens(workspaceId, reply.value, t.refreshToken, newExpiry, t.scopes, accessIv, refreshIv, later);
    return Ok(reply.value);
  }
}
