# Credential security core of the SEO backend, in Dafny

This project models the credential-security logic of a small OAuth backend for
Google Search Console. The logic has four parts:

- **Encrypted-blob envelope** (`Crypto`, src/crypto.ts). Strings are encrypted with
  AES-256-GCM under the key in `ENCRYPTION_KEY`. The result is stored as
  `base64url(iv).base64url(tag).base64url(ciphertext)`.
- **Nonce registry and signed state token** (`State`, src/state.ts). Single-use CSRF
  nonces are kept in a map. The OAuth `state` parameter is `payloadB64.sig`, where
  `sig` is an HMAC-SHA256 over the payload segment.
- **Credential store** (`TokenStore`, src/tokenStore.ts). There is one record per
  workspace. Both OAuth tokens are encrypted at rest.
- **Refresh gate and code-exchange write-back** (`Google`, src/google.ts). This part
  stores the tokens from the code exchange, applies the 60-second freshness rule, and
  writes back a refreshed access token.

Supporting modules:

- `Common`: bytes, `Option`, `Result` and the error taxonomy. Each `Error`
  constructor is one `throw` site of the backend, except two that stand for library
  exceptions. `AuthenticationFailed` is the decipher's `final` rejecting the tag
  (src/crypto.ts:37-40). `StatePayload` is `JSON.parse` failing (src/state.ts:53).
- `Text`: the exact semantics of JavaScript `split`/`join` with `.`.
- `Foreign`: the library primitives, as fields of a `Primitives` record of
  function values. These are Buffer base64/base64url/UTF-8, AES-256-GCM
  (NIST SP 800-38D), HMAC-SHA256 (RFC 2104) and JSON. The facts the backend relies
  on are stated as law predicates, and the lemmas take them as hypotheses:
  - base64url output (section 5 of RFC 4648) never contains `.`, and decodes back;
  - UTF-8 round-trips;
  - GCM opens what it sealed under the same 32-byte key and 12-byte IV, with a
    16-byte tag;
  - JSON parses what it printed.
- `Witness`: a toy instance of every primitive. `Witness.LawsAreConsistent` proves
  that all the laws can hold at once, so no lemma that assumes them is vacuous.

Randomness (the 12-byte IVs and the 16-byte nonce source) is passed in as
arguments. So is the clock (`Date.now()`), and so are the provider's replies to
`getToken` and `getAccessToken`. The refresh path takes two clock values: `now` at
the freshness test (src/google.ts:50), and `later` after the provider call returns
(src/google.ts:62).

Notes on the source's behaviour:

- A refresh always sets the new expiry to `later + 55 min`. It never reads an
  expiry from the provider (src/google.ts:62).
- The state signature is compared with plain string inequality, not in constant
  time (src/state.ts:51).
- The HMAC secret is the raw `ENCRYPTION_KEY` string. It is the same variable as
  the encryption key, used without base64-decoding it (src/state.ts:12-17).
- A nonce is still accepted at exactly `expiresAt`, because the expiry test is the
  strict `now > expiresAt` (src/state.ts:30).

## Model

| member | source | states |
|---|---|---|
| `Text.Split` | src/crypto.ts:29 | `split('.')` yields one piece more than there are separators. No piece holds the separator, and joining the pieces restores the input. |
| `Text.Join` | src/crypto.ts:20-24 | `join('.')` of separator-free parts holds exactly one `.` fewer than there are parts, and starts with the first part. |
| `Text.SplitJoin` | src/crypto.ts:20-30 | Splitting a join of separator-free parts gives back exactly those parts. |
| `Crypto.KeyFromEnv` | src/crypto.ts:3-9 | A key is returned exactly when the variable is set, non-empty and base64-decodes to 32 bytes. An unset or empty variable is `MissingKey`. Any other length is `KeyWrongLength`. |
| `Crypto.ConfigErrorFirst` | src/crypto.ts:4-7 | With a missing or wrong-length key, both encryption and decryption fail with that configuration error, whatever the plaintext or the blob. |
| `Crypto.EncryptString` | src/crypto.ts:11-25 | Encryption fails exactly when the key is unusable, and then with the key's error. |
| `Crypto.Pack` | src/crypto.ts:19-24 | The wire form starts with the encoded IV. Because base64url never produces `.`, it holds exactly two `.`. |
| `Crypto.Unpack` | src/crypto.ts:29-35 | A blob is rejected with `BlobFormat` exactly when it does not contain exactly two `.` (that is, it does not split into three parts). |
| `Crypto.DecryptString` | src/crypto.ts:27-42 | Key errors come first. With a usable key, the result is `BlobFormat` exactly when the blob does not contain exactly two `.`. Any success implies a usable key and a well-formed blob. |
| `Crypto.UnpackPack` | src/crypto.ts:20-31 | Splitting a packed blob on `.` gives exactly the three encoded segments in the order IV, tag, ciphertext. Unpacking gives back the parts. |
| `Crypto.EncryptedLayout` | src/crypto.ts:13-24 | Every blob `encryptString` produces has exactly two `.`. It unpacks to the 12-byte IV that was used and a 16-byte tag. |
| `Crypto.DecryptEncrypt` | src/crypto.ts:11-41 | Under the same key configuration, decrypting an encryption of `s` gives `s`. |
| `State.NonceRegistry.constructor` | src/state.ts:10 | The registry starts empty. |
| `State.NonceRegistry.CreateNonce` | src/state.ts:19-23 | The nonce is the base64url encoding of the 16 random bytes. Its entry records the workspace and `now + 600000`. All other entries are unchanged. |
| `State.NonceRegistry.ConsumeNonce` | src/state.ts:25-32 | The nonce's entry is removed whatever the outcome, and no other entry changes. The result is true iff the entry existed, its workspace matches and `now <= expiresAt`. An absent nonce gives false and leaves the registry unchanged. |
| `State.SingleUse` | src/state.ts:26-28 | Once an attempt has removed a nonce, no later attempt accepts it, for any workspace or time. |
| `State.IssuedNonceWindow` | src/state.ts:19-31 | A freshly issued nonce is accepted for its workspace exactly until `issuedAt + 600000`, that instant included. It is never accepted for another workspace. |
| `State.IssueAndRedeemTwice` | src/state.ts:19-32 | Issue, redeem within the lifetime, redeem again: the first attempt succeeds and the second fails. |
| `State.StateSecret` | src/state.ts:12-17 | The secret is the raw variable when it is set and non-empty; otherwise `MissingSecret`. |
| `State.Hmac` | src/state.ts:34-37 | The signature is the base64url HMAC-SHA256 of the segment under that secret; without a secret, `MissingSecret`. |
| `State.PayloadSegment` | src/state.ts:40-41 | The payload segment never holds `.`. Decoding it as base64url, then UTF-8, then JSON gives back the payload. |
| `State.SignState` | src/state.ts:39-44 | Signing fails only for a missing secret. The token is the payload segment and its own signature joined by `.`. |
| `State.VerifyState` | src/state.ts:46-54 | `StateFormat` exactly when the token does not contain exactly one `.`. With a secret, `StateSignature` exactly when the second segment differs from the signature of the first. Any accepted token is a segment followed by its own signature. |
| `State.SignedTokenSegments` | src/state.ts:41-49 | A signed token splits into exactly two segments: the payload segment and its signature. |
| `State.VerifySign` | src/state.ts:39-54 | Verifying a token this backend signed gives back the signed payload. |
| `TokenStore.SealRecord` | src/tokenStore.ts:14-20 | The record holds each token encrypted by its own call with its own IV, plus the given expiry and scopes, with `updatedAt = now`. It fails exactly when the key is unusable. |
| `TokenStore.OpenRecord` | src/tokenStore.ts:26-31 | The plaintext view succeeds exactly when both tokens decrypt. It carries the decrypted tokens and the stored expiry and scopes. |
| `TokenStore.OpenSealRecord` | src/tokenStore.ts:13-31 | Reading back a sealed record gives exactly the tokens, expiry and scopes written. |
| `TokenStore.CredentialStore.constructor` | src/tokenStore.ts:11 | The store starts empty. |
| `TokenStore.CredentialStore.SetTokens` | src/tokenStore.ts:13-21 | The workspace's record is replaced by the sealed record, and all other records are unchanged. On an encryption error nothing is written. After a successful write, `GetTokens` returns exactly the values written. |
| `TokenStore.CredentialStore.GetTokens` | src/tokenStore.ts:23-32 | Absent exactly when the workspace has no record. Otherwise the view carries the stored expiry and scopes, and only decryption errors can occur. |
| `TokenStore.LastWriteWins` | src/tokenStore.ts:14 | After two writes for one workspace, reading it back gives the second write, and there is one record for the workspace. |
| `Google.ExpiryOrFallback` | src/google.ts:40 | The stored expiry is the provider's `expiry_date` when present, else exactly 3,300,000 ms (55 min) after `now`. |
| `Google.IsFresh` | src/google.ts:50 | A cached token counts as fresh exactly when more than 60,000 ms remain before its expiry. |
| `Google.FreshnessMargin` | src/google.ts:49-50 | A cached token is used only when more than 60,000 ms remain. A token with 30 s left is refreshed; one with 5 min left is served. |
| `Google.ExchangeCodeAndStore` | src/google.ts:30-43 | A missing or empty access token gives `NoAccessToken`, and a missing or empty refresh token gives `NoRefreshToken`; neither writes anything. Otherwise the record is written with the expiry from `ExpiryOrFallback` and scopes exactly `[GSC_SCOPE]`, and reads back as those values. |
| `Google.GetValidAccessToken` | src/google.ts:45-65 | No record gives `NotConnected`. A fresh token is returned as cached, whatever the provider would say, and the store is unchanged. A stale token with no provider token gives `RefreshFailed` and leaves the store unchanged. Otherwise the record becomes {new token, same refresh token, `later + 3300000`, same scopes} and the new token is returned. |

## Left out

- src/index.ts (HTTP routing, CORS, query parsing, redirects, status codes) is not
  part of this model. Neither is the callback's order verifyState → consumeNonce →
  exchange.
- `gscSites` and `gscInspect` (src/google.ts:67-92) are `fetch` calls plus
  `JSON.parse` of the response.
- `oauthClient`, `makeAuthUrl` and `mustEnv` (src/google.ts:4-28) wrap the Google
  client library and environment reads. The authorization `code` is therefore not
  an argument: the provider's reply to `getToken(code)` is passed in instead.
- The internals of AES-256-GCM, HMAC-SHA256, `crypto.randomBytes` and the
  base64/base64url/UTF-8/JSON codecs are foreign library code. They appear only
  through the laws in `Foreign`.
- GCM tamper detection is a property of the cipher and is not proved. A library
  exception inside decryption (for example an IV length Node rejects) is folded
  into `open` returning `None`, which the model reports as `AuthenticationFailed`.
- A provider call that throws (an invalid or reused code, a network failure) is not
  modelled. In the source such a throw also leaves the store untouched.
- Concurrency: interleavings across `await`, single-flight refresh, and the
  atomicity of check-and-delete under concurrent callers. The model is sequential,
  like the single-threaded event loop between awaits.
- Constant-time comparison: timing is not expressible.
- Strings are sequences of Unicode scalar values. JavaScript strings with lone UTF-16
  surrogates have no counterpart here; UTF-8 would not round-trip them.
- Clock reads: the source reads `Date.now()` again inside `setTokens`
  (src/tokenStore.ts:19). It reads it once at src/google.ts:40 during the code
  exchange, and once at src/google.ts:62 during a refresh. The model treats each such
  pair of reads as one value, so `updatedAt` equals the base of the fallback expiry.
  The source's two reads may differ by a few milliseconds.
- Numbers are unbounded integers, not IEEE doubles. NaN, fractional and very large
  epoch values are not modelled.
- `JSON.parse(...) as OAuthState` performs no shape check; in the model, `jsonParse`
  yields a payload or fails.
- Arrays are values: the `scopes` array that `setTokens` stores by reference is not
  modelled as aliased with the caller's array.
