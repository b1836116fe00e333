/** The foreign code the service calls and that this model does not look
    inside: scrypt (RFC 7914), base64 (RFC 4648 section 4), UTF-8, Unicode
    NFKC normalisation (UAX #15), SHA-256 (FIPS 180-4) in hex, JWT signing and
    verification (RFC 7519) under the configured secret, and JavaScript's
    `Number(string)`. Each is a field of `Primitives`, which the operations
    take as a parameter; nothing is assumed of them except where a lemma
    states a law as a hypothesis. */
module Foreign {
  import opened Base

  /** The payload of a signed token. `typ` is "at" for an access token and
      "rt" for a refresh token; `username` and `email` are absent on refresh
      tokens and on access tokens minted by the refresh exchange. */
  datatype Claims = Claims(
    sub: string,
    uid: string,
    username: Option<string>,
    email: Option<string>,
    typ: string)

  datatype Primitives = Primitives(
    /** scrypt(password bytes, salt bytes, key length) */
    scrypt: (seq<byte>, seq<byte>, nat) -> seq<byte>,
    /** the bytes Node hands to scrypt for a string argument */
    utf8: string -> seq<byte>,
    base64Encode: seq<byte> -> string,
    /** Node's lenient `Buffer.from(s, "base64")` */
    base64Decode: string -> seq<byte>,
    nfkc: string -> string,
    sha256Hex: string -> string,
    /** jwt.sign(claims, secret, { expiresIn: seconds }) at the given time in milliseconds */
    jwtSign: (Claims, nat, int) -> string,
    /** jwt.verify(token, secret) at the given time: the claims, or None when
        the signature is bad, the token is malformed or it has expired */
    jwtVerify: (string, int) -> Option<Claims>,
    /** `Number(s)` */
    toNumber: string -> JsNumber)

  /** The RFC 4648 section 4 alphabet and its padding character. */
  predicate IsBase64Char(c: char) {
    ('A' <= c <= 'Z') || ('a' <= c <= 'z') || ('0' <= c <= '9') || c == '+' || c == '/' || c == '='
  }

  predicate IsBase64Text(s: string) {
    forall i :: 0 <= i < |s| ==> IsBase64Char(s[i])
  }

  /** What every base64 codec guarantees: the encoding uses only the base64
      alphabet, and decoding an encoding gives back the bytes. */
  ghost predicate Base64Laws(p: Primitives) {
    forall b :: IsBase64Text(p.base64Encode(b)) && p.base64Decode(p.base64Encode(b)) == b
  }

  /** What scrypt guarantees: the derived key has the requested length. */
  ghost predicate ScryptLaws(p: Primitives) {
    forall pw, salt, n :: |p.scrypt(pw, salt, n)| == n
  }
}
