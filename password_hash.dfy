/** The stored password format `scrypt$<base64 salt>$<base64 key>`, the
    check a login performs against it, and the encoders that produce it. */
module PasswordHash {
  import opened Base
  import opened Text
  import opened Foreign

  const Algorithm := "scrypt"
  const SaltLength := 16
  const KeyLength := 64

  /** The text every credential failure starts with. */
  const CredentialsPrefix := "invalid credentials"
  const BadHashFormat := CredentialsPrefix + ": bad_hash_format"
  const PasswordMismatch := CredentialsPrefix + ": password_mismatch"

  /** The two base64 fields of a stored hash, still as text. */
  datatype StoredHash = StoredHash(salt: string, key: string)

  function Encode(salt: string, key: string): string {
    Algorithm + "$" + salt + "$" + key
  }

  /** Splits the stored value on `$`; only three parts tagged `scrypt` are
      accepted, and then the value is exactly the encoding of the two fields. */
  function Parse(stored: string): (r: Option<StoredHash>)
    ensures r.Some? ==> stored == Encode(r.value.salt, r.value.key)
    ensures r.Some? ==> '$' !in r.value.salt && '$' !in r.value.key
    ensures r.None? <==> |Split(stored, '$')| != 3 || Split(stored, '$')[0] != Algorithm
  {
    var parts := Split(stored, '$');
    if |parts| != 3 || parts[0] != Algorithm then None
    else
      JoinSplit(stored, '$');
      assert parts[1..][1..] == [parts[2]];
      assert Join(parts[1..], "$") == parts[1] + "$" + parts[2];
      Some(StoredHash(parts[1], parts[2]))
  }

  /** Parsing an encoding whose fields contain no `$` gives the fields back. */
  lemma EncodeParse(salt: string, key: string)
    requires '$' !in salt && '$' !in key
    ensures Parse(Encode(salt, key)) == Some(StoredHash(salt, key))
  {
    assert '$' !in Algorithm;
    SplitWithoutSep(key, '$');
    SplitFirst(salt, '$', key);
    SplitFirst(Algorithm, '$', salt + "$" + key);
    assert Encode(salt, key) == Algorithm + ['$'] + (salt + ['$'] + key);
  }

  /** A base64 text never contains the separator. */
  lemma Base64HasNoSeparator(s: string)
    requires IsBase64Text(s)
    ensures '$' !in s
  {
    forall i | 0 <= i < |s| ensures s[i] != '$' {
      assert IsBase64Char(s[i]);
    }
  }

  /** The candidate password as verification sees it: NFKC-normalised, then trimmed. */
  function NormalizeCandidate(p: Primitives, password: string): string {
    Trim(p.nfkc(password))
  }

  /** The key verification derives: from the normalised candidate, the
      decoded salt, at the decoded stored key's length. */
  function DeriveKey(p: Primitives, password: string, h: StoredHash): seq<byte> {
    p.scrypt(p.utf8(NormalizeCandidate(p, password)), p.base64Decode(h.salt), |p.base64Decode(h.key)|)
  }

  /** `timingSafeEqual` after the length check: equal lengths and equal bytes. */
  predicate SameBytes(actual: seq<byte>, expected: seq<byte>) {
    |actual| == |expected| && forall i :: 0 <= i < |actual| ==> actual[i] == expected[i]
  }

  /** verifyPassword: a malformed stored value fails before derivation, a
      derived key that differs from the stored one fails as a mismatch. */
  function VerifyPassword(p: Primitives, password: string, stored: string): (r: Result<()>)
    ensures Parse(stored).None? ==> r == Err(BadHashFormat)
    ensures Parse(stored).Some? && r.Err? ==> r == Err(PasswordMismatch)
  {
    match Parse(stored)
    case None => Err(BadHashFormat)
    case Some(h) =>
      var expected := p.base64Decode(h.key);
      var actual := DeriveKey(p, password, h);
      if SameBytes(actual, expected) then Ok(()) else Err(PasswordMismatch)
  }

  /** Verification succeeds exactly when the stored value is well formed and
      the derived key equals the stored key. */
  lemma VerifyPasswordAccepts(p: Primitives, password: string, stored: string)
    ensures VerifyPassword(p, password, stored).Ok? <==>
      Parse(stored).Some? && DeriveKey(p, password, Parse(stored).value) == p.base64Decode(Parse(stored).value.key)
  {
    if Parse(stored).Some? {
      var h := Parse(stored).value;
      var actual, expected := DeriveKey(p, password, h), p.base64Decode(h.key);
      assert SameBytes(actual, expected) <==> actual == expected by {
        if SameBytes(actual, expected) {
          assert actual == expected;
        }
      }
    }
  }

  /** Every failure of verification reads as a credential failure. */
  lemma VerifyFailuresAreCredentialErrors(p: Primitives, password: string, stored: string)
    requires VerifyPassword(p, password, stored).Err?
    ensures Contains(VerifyPassword(p, password, stored).msg, CredentialsPrefix)
  {
    if Parse(stored).None? {
      ConcatContains(CredentialsPrefix, ": bad_hash_format");
    } else {
      ConcatContains(CredentialsPrefix, ": password_mismatch");
    }
  }

  /** A malformed stored value is rejected whatever the primitives compute:
      no key derivation is involved in the outcome. */
  lemma MalformedIgnoresPrimitives(p: Primitives, q: Primitives, password: string, password': string, stored: string)
    requires Parse(stored).None?
    ensures VerifyPassword(p, password, stored) == VerifyPassword(q, password', stored) == Err(BadHashFormat)
  {
  }

  /** registerUser and updateUserFull as written: the salt handed to scrypt is
      the base64 TEXT of the random bytes, and the password is neither
      normalised nor trimmed. */
  function EncodeAsWritten(p: Primitives, password: string, salt: seq<byte>): string
    requires |salt| == SaltLength
  {
    var saltText := p.base64Encode(salt);
    Encode(saltText, p.base64Encode(p.scrypt(p.utf8(password), p.utf8(saltText), KeyLength)))
  }

  /** The format round trip of the written encoder: the stored value parses
      into the salt text and the key text. */
  lemma EncodeAsWrittenParses(p: Primitives, password: string, salt: seq<byte>)
    requires |salt| == SaltLength && Base64Laws(p)
    ensures Parse(EncodeAsWritten(p, password, salt)).Some?
    ensures Parse(EncodeAsWritten(p, password, salt)).value.salt == p.base64Encode(salt)
    ensures p.base64Decode(Parse(EncodeAsWritten(p, password, salt)).value.salt) == salt
  {
    var saltText := p.base64Encode(salt);
    var keyText := p.base64Encode(p.scrypt(p.utf8(password), p.utf8(saltText), KeyLength));
    Base64HasNoSeparator(saltText);
    Base64HasNoSeparator(keyText);
    EncodeParse(saltText, keyText);
  }

  /** Verifying against what the written encoder stored succeeds exactly when
      scrypt happens to give the same key for two different inputs: the
      normalised password with the salt BYTES, and the raw password with the
      salt TEXT. */
  lemma AsWrittenVerifiesOnlyOnCollision(p: Primitives, password: string, salt: seq<byte>)
    requires |salt| == SaltLength && Base64Laws(p)
    ensures VerifyPassword(p, password, EncodeAsWritten(p, password, salt)).Ok?
        <==> (var key := p.scrypt(p.utf8(password), p.utf8(p.base64Encode(salt)), KeyLength);
              p.scrypt(p.utf8(NormalizeCandidate(p, password)), salt, |key|) == key)
  {
    var saltText := p.base64Encode(salt);
    var key := p.scrypt(p.utf8(password), p.utf8(saltText), KeyLength);
    var keyText := p.base64Encode(key);
    Base64HasNoSeparator(saltText);
    Base64HasNoSeparator(keyText);
    EncodeParse(saltText, keyText);
    assert p.base64Decode(keyText) == key;
    assert p.base64Decode(saltText) == salt;
  }

  /** The encoder the verifier evidently expects: scrypt over the normalised
      password and the salt bytes, 64-byte key, both base64-encoded. */
  function HashPassword(p: Primitives, password: string, salt: seq<byte>): string
    requires |salt| == SaltLength
  {
    var key := p.scrypt(p.utf8(NormalizeCandidate(p, password)), salt, KeyLength);
    Encode(p.base64Encode(salt), p.base64Encode(key))
  }

  /** The stored value parses into a 16-byte salt and a 64-byte key. */
  lemma HashPasswordFormat(p: Primitives, password: string, salt: seq<byte>)
    requires |salt| == SaltLength && Base64Laws(p) && ScryptLaws(p)
    ensures Parse(HashPassword(p, password, salt)).Some?
    ensures |p.base64Decode(Parse(HashPassword(p, password, salt)).value.salt)| == SaltLength
    ensures |p.base64Decode(Parse(HashPassword(p, password, salt)).value.key)| == KeyLength
  {
    var key := p.scrypt(p.utf8(NormalizeCandidate(p, password)), salt, KeyLength);
    Base64HasNoSeparator(p.base64Encode(salt));
    Base64HasNoSeparator(p.base64Encode(key));
    EncodeParse(p.base64Encode(salt), p.base64Encode(key));
  }

  /** A password verifies against its own hash. */
  lemma VerifyAfterHash(p: Primitives, password: string, salt: seq<byte>)
    requires |salt| == SaltLength && Base64Laws(p) && ScryptLaws(p)
    ensures VerifyPassword(p, password, HashPassword(p, password, salt)) == Ok(())
  {
    var key := p.scrypt(p.utf8(NormalizeCandidate(p, password)), salt, KeyLength);
    Base64HasNoSeparator(p.base64Encode(salt));
    Base64HasNoSeparator(p.base64Encode(key));
    EncodeParse(p.base64Encode(salt), p.base64Encode(key));
    assert p.base64Decode(p.base64Encode(key)) == key;
    assert p.base64Decode(p.base64Encode(salt)) == salt;
  }

  /** Any password whose normalised form equals another's verifies against
      the other's hash: verification depends only on the normalised form. */
  lemma VerifyUpToNormalization(p: Primitives, password: string, candidate: string, salt: seq<byte>)
    requires |salt| == SaltLength && Base64Laws(p) && ScryptLaws(p)
    requires NormalizeCandidate(p, candidate) == NormalizeCandidate(p, password)
    ensures VerifyPassword(p, candidate, HashPassword(p, password, salt)) == Ok(())
  {
    VerifyAfterHash(p, password, salt);
  }

  // A concrete codec and key function under which the written encoder is
  // refuted: the base64 laws hold, and the key depends on the salt.

  function DemoLetter(v: nat): (c: char)
    requires v < 16
    ensures IsBase64Char(c)
  {
    ('A' as int + v) as char
  }

  function DemoEncode(b: seq<byte>): (s: string)
    ensures IsBase64Text(s) && |s| == 2 * |b|
  {
    if b == [] then "" else [DemoLetter(b[0] as nat / 16), DemoLetter(b[0] as nat % 16)] + DemoEncode(b[1..])
  }

  function DemoDecode(s: string): seq<byte> {
    if |s| < 2 then []
    else [(((s[0] as int - 'A' as int) % 16) * 16 + (s[1] as int - 'A' as int) % 16) as byte] + DemoDecode(s[2..])
  }

  lemma {:induction false} DemoRoundTrip(b: seq<byte>)
    ensures DemoDecode(DemoEncode(b)) == b
  {
    if b != [] {
      DemoRoundTrip(b[1..]);
      var s := DemoEncode(b);
      assert s[2..] == DemoEncode(b[1..]);
      assert b == [b[0]] + b[1..];
    }
  }

  function DemoUtf8(s: string): (b: seq<byte>)
    ensures |b| == |s|
  {
    if s == [] then [] else [(s[0] as int % 256) as byte] + DemoUtf8(s[1..])
  }

  /** A key function that copies the salt into the key. */
  function DemoScrypt(pw: seq<byte>, salt: seq<byte>, n: nat): (k: seq<byte>)
    ensures |k| == n
    ensures forall i :: 0 <= i < n && i < |salt| ==> k[i] == salt[i]
  {
    seq(n, i => if 0 <= i < |salt| then salt[i] else 0)
  }

  function DemoPrimitives(): Primitives {
    Primitives(
      (pw: seq<byte>, salt: seq<byte>, n: nat) => DemoScrypt(pw, salt, n),
      s => DemoUtf8(s),
      b => DemoEncode(b),
      s => DemoDecode(s),
      s => s,
      s => s,
      (c: Claims, lifetime, now) => c.sub,
      (t, now) => None,
      s => NaN)
  }

  lemma DemoLaws()
    ensures Base64Laws(DemoPrimitives()) && ScryptLaws(DemoPrimitives())
  {
    forall b: seq<byte> ensures DemoDecode(DemoEncode(b)) == b {
      DemoRoundTrip(b);
    }
  }

  /** Counterexample: with lawful primitives, a password stored by the
      written encoder does not verify. */
  lemma RegisteredPasswordRejected()
    ensures var p := DemoPrimitives(); var salt := seq(SaltLength, i => 0 as byte);
      Base64Laws(p) && ScryptLaws(p)
      && VerifyPassword(p, "secret1", EncodeAsWritten(p, "secret1", salt)) == Err(PasswordMismatch)
  {
    var p := DemoPrimitives();
    var salt: seq<byte> := seq(SaltLength, i => 0 as byte);
    DemoLaws();
    var saltText := p.base64Encode(salt);
    assert saltText == DemoEncode(salt);
    assert saltText[0] == 'A';
    var saltBytes := p.utf8(saltText);
    assert saltBytes == DemoUtf8(saltText);
    assert saltBytes[0] == 65 as byte;
    var key := p.scrypt(p.utf8("secret1"), saltBytes, KeyLength);
    assert key == DemoScrypt(DemoUtf8("secret1"), saltBytes, KeyLength);
    assert key[0] == 65 as byte;
    var derived := p.scrypt(p.utf8(NormalizeCandidate(p, "secret1")), salt, |key|);
    assert derived == DemoScrypt(DemoUtf8(NormalizeCandidate(p, "secret1")), salt, |key|);
    assert derived[0] == 0 as byte;
    AsWrittenVerifiesOnlyOnCollision(p, "secret1", salt);
    EncodeAsWrittenParses(p, "secret1", salt);
  }
}
