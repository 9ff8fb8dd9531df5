/** The library calls the backend relies on but does not implement: Node's Buffer
    codecs, AES-256-GCM from the `crypto` module, HMAC-SHA256 and JSON. Each is a
    function value of the `Primitives` record; what the backend needs to know about
    them is stated by the law predicates below, which the lemmas take as hypotheses. */
module Foreign {
  import opened Common

  /** AES-256 takes a 32-byte key (NIST SP 800-38D with the AES-256 block cipher). */
  const AesKeyLength := 32
  /** The backend draws 12-byte IVs (`crypto.randomBytes(12)`), the length recommended
      for GCM; the cipher laws below are stated for that length only. */
  const IvLength := 12
  /** Node's `getAuthTag()` yields a full 16-byte GCM tag by default. */
  const GcmTagLength := 16

  /** What the cipher hands back: the ciphertext bytes and the authentication tag. */
  datatype Sealed = Sealed(ciphertext: Bytes, tag: Bytes)

  datatype Primitives = Primitives(
    /** `Buffer.from(s, "base64")`: lenient, never throws. */
    base64Decode: string -> Bytes,
    /** `buf.toString("base64url")`: section 5 of RFC 4648, no padding. */
    base64urlEncode: Bytes -> string,
    /** `Buffer.from(s, "base64url")`: lenient, never throws. */
    base64urlDecode: string -> Bytes,
    /** `Buffer.from(s, "utf8")` and `buf.toString("utf8")`. */
    utf8Encode: string -> Bytes,
    utf8Decode: Bytes -> string,
    /** `createCipheriv("aes-256-gcm", key, iv)`, `update`, `final`, `getAuthTag`. */
    seal: (Bytes, Bytes, Bytes) -> Sealed,
    /** `createDecipheriv`, `setAuthTag`, `update`, `final`: None when `final` throws. */
    open: (Bytes, Bytes, Bytes, Bytes) -> Option<Bytes>,
    /** `createHmac("sha256", secret).update(message).digest()`, section 2 of RFC 2104. */
    hmacSha256: (string, string) -> Bytes,
    /** `JSON.stringify` of a state payload, and `JSON.parse` (None when it throws). */
    jsonStringify: OAuthState -> string,
    jsonParse: string -> Option<OAuthState>
  )

  /** The base64url alphabet is A-Z, a-z, 0-9, '-' and '_', so an encoding never holds
      '.', and decoding an encoding gives the bytes back. */
  ghost predicate Base64urlLaws(p: Primitives) {
    && (forall b :: '.' !in p.base64urlEncode(b))
    && (forall b :: p.base64urlDecode(p.base64urlEncode(b)) == b)
  }

  /** Strings here are sequences of Unicode scalar values, which UTF-8 round-trips. */
  ghost predicate Utf8Laws(p: Primitives) {
    forall s :: p.utf8Decode(p.utf8Encode(s)) == s
  }

  /** GCM under a 256-bit key and a 12-byte IV: the tag is 16 bytes, and opening what
      was sealed with the same key and IV gives back the plaintext. */
  ghost predicate AeadLaws(p: Primitives) {
    forall key, iv, m | |key| == AesKeyLength && |iv| == IvLength ::
      var s := p.seal(key, iv, m);
      |s.tag| == GcmTagLength && p.open(key, iv, s.tag, s.ciphertext) == Some(m)
  }

  /** Parsing what was stringified gives the payload back. */
  ghost predicate JsonLaws(p: Primitives) {
    forall x :: p.jsonParse(p.jsonStringify(x)) == Some(x)
  }

  ghost predicate Lawful(p: Primitives) {
    Base64urlLaws(p) && Utf8Laws(p) && AeadLaws(p) && JsonLaws(p)
  }
}
