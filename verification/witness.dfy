/** The laws of module Foreign can all hold at once: a toy instance of every primitive
    (no cryptographic strength intended) that satisfies each of them. The lemmas that
    take `Lawful(p)` as a hypothesis are therefore not vacuous. */
module Witness {
  import opened Common
  import opened Foreign

  /** One character per byte, from 'A' (code 65) upwards; '.' (code 46) never occurs. */
  function Letters(b: Bytes): string {
    if b == [] then [] else [(65 + b[0] as int) as char] + Letters(b[1..])
  }

  function Unletters(s: string): Bytes {
    if s == [] then []
    else [if 65 <= s[0] as int < 321 then (s[0] as int - 65) as Byte else 0] + Unletters(s[1..])
  }

  lemma {:induction false} LettersRoundTrip(b: Bytes)
    ensures Unletters(Letters(b)) == b
    ensures '.' !in Letters(b)
  {
    if b != [] {
      LettersRoundTrip(b[1..]);
      assert [b[0]] + b[1..] == b;
    }
  }

  /** Three bytes per character: its code point, most significant byte first. */
  function CharBytes(c: char): Bytes {
    var n := c as int;
    [(n / 256 / 256) as Byte, (n / 256 % 256) as Byte, (n % 256) as Byte]
  }

  function BytesChar(x: Byte, y: Byte, z: Byte): char {
    var n := x as int * 65536 + y as int * 256 + z as int;
    if n < 0xD800 || 0xE000 <= n < 0x11_0000 then n as char else ' '
  }

  lemma Digits(n: int)
    requires 0 <= n < 0x11_0000
    ensures n / 256 / 256 < 256
    ensures n == (n / 256 / 256) * 65536 + (n / 256 % 256) * 256 + n % 256
  {
    var q1, r0 := n / 256, n % 256;
    var q2, r1 := q1 / 256, q1 % 256;
    assert n == q1 * 256 + r0;
    assert q1 == q2 * 256 + r1;
  }

  lemma CharRoundTrip(c: char)
    ensures var b := CharBytes(c); BytesChar(b[0], b[1], b[2]) == c
  {
    var n := c as int;
    Digits(n);
    var b := CharBytes(c);
    assert b[0] as int == n / 256 / 256;
    assert b[1] as int == n / 256 % 256;
    assert b[2] as int == n % 256;
  }

  function Utf8(s: string): Bytes {
    if s == [] then [] else CharBytes(s[0]) + Utf8(s[1..])
  }

  function Unutf8(b: Bytes): string
    decreases |b|
  {
    if |b| < 3 then [] else [BytesChar(b[0], b[1], b[2])] + Unutf8(b[3..])
  }

  lemma {:induction false} Utf8RoundTrip(s: string)
    ensures Unutf8(Utf8(s)) == s
  {
    if s != [] {
      var b := Utf8(s);
      assert b[3..] == Utf8(s[1..]);
      CharRoundTrip(s[0]);
      Utf8RoundTrip(s[1..]);
      assert [s[0]] + s[1..] == s;
    }
  }

  /** A string is written as 'a' before each of its characters and a closing 'b'. */
  function EncodeString(s: string): string {
    if s == [] then "b" else ['a', s[0]] + EncodeString(s[1..])
  }

  /** Reads one encoded string off the front of `t`, with what follows it. */
  function DecodeString(t: string): Option<(string, string)>
    decreases |t|
  {
    if |t| >= 1 && t[0] == 'b' then Some(("", t[1..]))
    else if |t| >= 2 && t[0] == 'a' then
      match DecodeString(t[2..])
      case None => None
      case Some((s, rest)) => Some(([t[1]] + s, rest))
    else None
  }

  lemma {:induction false} StringRoundTrip(s: string, rest: string)
    ensures DecodeString(EncodeString(s) + rest) == Some((s, rest))
  {
    var t := EncodeString(s) + rest;
    if s == [] {
      assert t[1..] == rest;
    } else {
      assert t[2..] == EncodeString(s[1..]) + rest;
      StringRoundTrip(s[1..], rest);
      assert [s[0]] + s[1..] == s;
    }
  }

  /** An integer is written as its sign ('p' or 'm') and its magnitude in unary 'x's,
      closed by 'b'. */
  function Unary(n: nat): string {
    if n == 0 then "b" else "x" + Unary(n - 1)
  }

  function Ununary(t: string): Option<(nat, string)>
    decreases |t|
  {
    if |t| >= 1 && t[0] == 'b' then Some((0, t[1..]))
    else if |t| >= 1 && t[0] == 'x' then
      match Ununary(t[1..])
      case None => None
      case Some((n, rest)) => Some((n + 1, rest))
    else None
  }

  lemma {:induction false} UnaryRoundTrip(n: nat, rest: string)
    ensures Ununary(Unary(n) + rest) == Some((n, rest))
  {
    var t := Unary(n) + rest;
    if n == 0 {
      assert t[1..] == rest;
    } else {
      assert t[1..] == Unary(n - 1) + rest;
      UnaryRoundTrip(n - 1, rest);
    }
  }

  function EncodeInt(i: int): string {
    if i >= 0 then "p" + Unary(i) else "m" + Unary(-i)
  }

  function DecodeInt(t: string): Option<(int, string)> {
    if |t| >= 1 && (t[0] == 'p' || t[0] == 'm') then
      match Ununary(t[1..])
      case None => None
      case Some((n, rest)) =>
        var i: int := if t[0] == 'p' then n as int else -(n as int);
        Some((i, rest))
    else None
  }

  lemma IntRoundTrip(i: int, rest: string)
    ensures DecodeInt(EncodeInt(i) + rest) == Some((i, rest))
  {
    var t := EncodeInt(i) + rest;
    var n: nat := if i >= 0 then i else -i;
    assert t[1..] == Unary(n) + rest;
    UnaryRoundTrip(n, rest);
  }

  function Stringify(x: OAuthState): string {
    EncodeString(x.workspaceId) + EncodeString(x.nonce) + EncodeInt(x.issuedAt)
  }

  function Parse(t: string): Option<OAuthState> {
    match DecodeString(t)
    case None => None
    case Some((w, t1)) =>
      match DecodeString(t1)
      case None => None
      case Some((n, t2)) =>
        match DecodeInt(t2)
        case None => None
        case Some((i, t3)) => if t3 == "" then Some(OAuthState(w, n, i)) else None
  }

  lemma JsonRoundTrip(x: OAuthState)
    ensures Parse(Stringify(x)) == Some(x)
  {
    var a, b, c := EncodeString(x.workspaceId), EncodeString(x.nonce), EncodeInt(x.issuedAt);
    assert a + b + c == a + (b + c);
    StringRoundTrip(x.workspaceId, b + c);
    StringRoundTrip(x.nonce, c);
    IntRoundTrip(x.issuedAt, "");
    assert c + "" == c;
  }

  function ToyPrimitives(): Primitives {
    Primitives(
      s => Unletters(s),
      Letters,
      Unletters,
      Utf8,
      Unutf8,
      (key, iv, m) => Sealed(m, seq(GcmTagLength, _ => 0)),
      (key, iv, tag, ct) => if |tag| == GcmTagLength then Some(ct) else None,
      (secret, m) => Utf8(secret + m),
      Stringify,
      Parse)
  }

  lemma LawsAreConsistent()
    ensures exists p :: Lawful(p)
  {
    var p := ToyPrimitives();
    forall b ensures '.' !in p.base64urlEncode(b) && p.base64urlDecode(p.base64urlEncode(b)) == b {
      LettersRoundTrip(b);
    }
    forall s ensures p.utf8Decode(p.utf8Encode(s)) == s {
      Utf8RoundTrip(s);
    }
    forall x ensures p.jsonParse(p.jsonStringify(x)) == Some(x) {
      JsonRoundTrip(x);
    }
    assert Lawful(p);
  }
}
