/** The two cryptographic collaborators of app.js, bcryptjs and jsonwebtoken,
    as uninterpreted functions with the properties the authorization layer
    relies on. The work factor, the secret and the signature algorithm are
    folded into the functions. */
module Crypto {
  import opened Common

  /** A bcrypt digest, as stored in the user's `password` field. */
  type Digest = string

  /** A bcrypt salt (drawn at random by `bcrypt.hash`; here an input). */
  type Salt = string

  /** An octet. */
  newtype Byte = x: int | 0 <= x < 0x100

  /** The UTF-8 encoding of one character (a Unicode scalar value). */
  function EncodeChar(c: char): (r: seq<Byte>)
    ensures 1 <= |r| <= 4
    ensures (c as int < 0x80) <==> |r| == 1
    ensures c as int < 0x80 ==> r == [c as int as Byte]
  {
    var n := c as int;
    if n < 0x80 then [n as Byte]
    else if n < 0x800 then [(0xC0 + n / 0x40) as Byte, (0x80 + n % 0x40) as Byte]
    else if n < 0x10000 then
      [(0xE0 + n / 0x1000) as Byte, (0x80 + (n / 0x40) % 0x40) as Byte, (0x80 + n % 0x40) as Byte]
    else
      [(0xF0 + n / 0x40000) as Byte, (0x80 + (n / 0x1000) % 0x40) as Byte,
       (0x80 + (n / 0x40) % 0x40) as Byte, (0x80 + n % 0x40) as Byte]
  }

  /** The UTF-8 bytes of a string, which is what bcryptjs hashes. */
  function Utf8(s: string): (r: seq<Byte>)
    ensures |s| <= |r| <= 4 * |s|
  {
    if s == [] then [] else EncodeChar(s[0]) + Utf8(s[1..])
  }

  /** Encoding distributes over concatenation. */
  lemma {:induction false} Utf8Append(a: string, b: string)
    ensures Utf8(a + b) == Utf8(a) + Utf8(b)
  {
    if a == [] {
      assert a + b == b;
    } else {
      var ab := a + b;
      assert ab[0] == a[0] && ab[1..] == a[1..] + b;
      Utf8Append(a[1..], b);
      calc {
        Utf8(ab);
        EncodeChar(a[0]) + Utf8(a[1..] + b);
        EncodeChar(a[0]) + (Utf8(a[1..]) + Utf8(b));
        (EncodeChar(a[0]) + Utf8(a[1..])) + Utf8(b);
      }
    }
  }

  /** bcrypt reads at most this many bytes of a password. */
  const MaxKeyBytes: nat := 72

  /** The part of a password bcrypt actually uses: its first 72 UTF-8 bytes. */
  function Key(password: string): (k: seq<Byte>)
    ensures |k| <= MaxKeyBytes
    ensures |Utf8(password)| <= MaxKeyBytes ==> k == Utf8(password)
    ensures |Utf8(password)| > MaxKeyBytes ==> k == Utf8(password)[..MaxKeyBytes]
  {
    var bytes := Utf8(password);
    if |bytes| <= MaxKeyBytes then bytes else bytes[..MaxKeyBytes]
  }

  /** `hash(key, salt)` is the digest bcrypt computes from the key bytes of a
      password with that salt; `saltOf(digest)` reads back the salt embedded
      in a digest. */
  datatype Bcrypt = Bcrypt(hash: (seq<Byte>, Salt) -> Digest, saltOf: Digest -> Salt)

  /** What is assumed of bcrypt: a digest records its salt, and under one salt
      different keys (of at most 72 bytes) give different digests. */
  ghost predicate BcryptSound(b: Bcrypt) {
    && (forall k, s :: b.saltOf(b.hash(k, s)) == s)
    && (forall k1, k2, s :: |k1| <= MaxKeyBytes && |k2| <= MaxKeyBytes && b.hash(k1, s) == b.hash(k2, s) ==> k1 == k2)
  }

  /** `bcrypt.hash(password, 10)` with the salt it draws. */
  function Hash(b: Bcrypt, password: string, salt: Salt): (d: Digest)
    ensures BcryptSound(b) ==> b.saltOf(d) == salt
  {
    b.hash(Key(password), salt)
  }

  /** `bcrypt.compare(password, digest)`: hash the candidate's key with the salt
      recorded in the digest and compare. */
  function Compare(b: Bcrypt, password: string, digest: Digest): (ok: bool)
    requires BcryptSound(b)
    ensures forall pw, s :: digest == Hash(b, pw, s) ==> (ok <==> Key(password) == Key(pw))
  {
    b.hash(Key(password), b.saltOf(digest)) == digest
  }

  /** Passwords that agree on their first 72 bytes are interchangeable: a
      digest of one is accepted for the other. */
  lemma LongPasswordsCollide(b: Bcrypt, p: string, x: string, y: string, s: Salt)
    requires BcryptSound(b)
    requires |Utf8(p)| >= MaxKeyBytes
    ensures Hash(b, p + x, s) == Hash(b, p + y, s)
    ensures Compare(b, p + y, Hash(b, p + x, s))
  {
    Utf8Append(p, x);
    Utf8Append(p, y);
    assert Key(p + x) == Utf8(p)[..MaxKeyBytes] == Key(p + y);
  }

  /** A string of ASCII characters. */
  predicate Ascii(s: string) {
    forall i :: 0 <= i < |s| ==> s[i] as int < 0x80
  }

  /** An ASCII string encodes to one byte per character. */
  lemma {:induction false} Utf8Ascii(s: string)
    requires Ascii(s)
    ensures |Utf8(s)| == |s|
    ensures forall i :: 0 <= i < |s| ==> Utf8(s)[i] == s[i] as int as Byte
  {
    if s != [] {
      assert Ascii(s[1..]) by {
        forall i | 0 <= i < |s[1..]| ensures s[1..][i] as int < 0x80 {
          assert s[1..][i] == s[i + 1];
        }
      }
      Utf8Ascii(s[1..]);
      assert Utf8(s) == [s[0] as int as Byte] + Utf8(s[1..]);
      forall i | 0 <= i < |s| ensures Utf8(s)[i] == s[i] as int as Byte {
        if i > 0 {
          assert Utf8(s)[i] == Utf8(s[1..])[i - 1];
          assert s[1..][i - 1] == s[i];
        }
      }
    }
  }

  /** For ASCII passwords of at most 72 characters the key is the whole
      password, so distinct passwords have distinct keys. */
  lemma ShortAsciiKeysDiffer(p: string, q: string)
    requires Ascii(p) && Ascii(q) && |p| <= MaxKeyBytes && |q| <= MaxKeyBytes
    requires p != q
    ensures Key(p) != Key(q)
  {
    Utf8Ascii(p);
    Utf8Ascii(q);
    assert Key(p) == Utf8(p) && Key(q) == Utf8(q);
    if |p| == |q| {
      var i :| 0 <= i < |p| && p[i] != q[i];
      assert Utf8(p)[i] != Utf8(q)[i];
    }
  }

  /** The JSON payload of a session token: the user id and the two
      timestamps jsonwebtoken adds (issued-at and expiry, in seconds). */
  datatype Claims = Claims(id: UserId, iat: int, exp: int)

  /** `sign(claims)` is the compact token `jwt.sign` produces with the server
      secret; `verify(token)` is the payload `jwt.verify` accepts, or None when
      the token is malformed or its signature does not check (expiry is
      checked separately). */
  datatype Jwt = Jwt(sign: Claims -> string, verify: string -> Option<Claims>)

  /** What is assumed of jsonwebtoken: a signed token verifies to its own
      payload, a compact token contains no space, and the empty string is
      refused ("jwt must be provided"). */
  ghost predicate JwtSound(j: Jwt) {
    && (forall c :: j.verify(j.sign(c)) == Some(c))
    && (forall c :: ' ' !in j.sign(c))
    && j.verify("") == None
  }

  /** `expiresIn: '1h'`. */
  const TokenLifetime: int := 3600

  /** The token `jwt.sign({ id }, secret, { expiresIn: '1h' })` issues at time
      `now`, the one the login route returns. What it verifies to holds for a
      sound jsonwebtoken. */
  function Issue(j: Jwt, id: UserId, now: int): (token: string)
    ensures JwtSound(j) ==> j.verify(token) == Some(Claims(id, now, now + TokenLifetime))
    ensures JwtSound(j) ==> ' ' !in token && token != ""
  {
    j.sign(Claims(id, now, now + TokenLifetime))
  }

  /** jsonwebtoken refuses a token whose expiry is not after the current time. */
  predicate Expired(c: Claims, now: int) {
    now >= c.exp
  }
}
