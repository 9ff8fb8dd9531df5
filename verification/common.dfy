/** Values shared by every component: bytes, optional values, the error taxonomy
    and the failure-carrying result of an operation that may throw. */
module Common {

  newtype Byte = b: int | 0 <= b < 256
  type Bytes = seq<Byte>

  datatype Option<+T> = None | Some(value: T)

  /** Every way an operation of the core can fail. Each constructor is one
      `throw new Error(...)` site of the backend, except `AuthenticationFailed` and
      `StatePayload`, which stand for exceptions the libraries raise (the decipher's
      `final`, and `JSON.parse`). */
  datatype Error =
    | MissingKey            // ENCRYPTION_KEY unset or empty (crypto)
    | KeyWrongLength        // ENCRYPTION_KEY does not decode to 32 bytes
    | BlobFormat            // encrypted blob is not three dot-separated segments
    | AuthenticationFailed  // library: the AEAD rejected the tag (tampering, wrong key or IV)
    | MissingSecret         // ENCRYPTION_KEY unset or empty (state signing)
    | StateFormat           // state token is not two dot-separated segments
    | StateSignature        // state token signature does not match
    | StatePayload          // library: JSON.parse rejected the state payload
    | NoAccessToken         // provider returned no access token on code exchange
    | NoRefreshToken        // provider returned no refresh token on code exchange
    | NotConnected          // no credential stored for the workspace
    | RefreshFailed         // provider returned no access token on refresh

  datatype Result<+T> = Ok(value: T) | Err(error: Error)

  /** The signed anti-CSRF payload carried through the authorization redirect. */
  datatype OAuthState = OAuthState(workspaceId: string, nonce: string, issuedAt: int)

  /** JavaScript truthiness of an optional string: absent and "" are both falsy. */
  predicate Present(v: Option<string>) {
    v.Some? && v.value != ""
  }
}
