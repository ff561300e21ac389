/** Salted password storage (`src/lib/password.ts`): `salt:hash`, both parts
    lower-case hexadecimal. The key-derivation function (scrypt with a 64-byte
    output) and the 16 random salt bytes are parameters. */
module Password {
  import opened Common
  import opened Text

  type Byte = b: int | 0 <= b < 256

  /** The 16 bytes `randomBytes(16)` returns. */
  type Salt = s: seq<Byte> | |s| == 16 witness seq(16, i => 0)

  /** The 64 bytes `scryptSync(password, salt, 64)` returns. */
  type Digest = s: seq<Byte> | |s| == 64 witness seq(64, i => 0)

  /** scrypt as an uninterpreted function of the password and the salt text. */
  type Kdf = (string, string) -> Digest

  // Hexadecimal, as Node's Buffer encodes and decodes it

  function HexDigit(d: nat): (c: char)
    requires d < 16
    ensures IsHexChar(c) && HexValue(c) == d
  {
    if d < 10 then ('0' as int + d) as char else ('a' as int + d - 10) as char
  }

  predicate IsHexChar(c: char) {
    ('0' <= c <= '9') || ('a' <= c <= 'f') || ('A' <= c <= 'F')
  }

  predicate IsLowerHex(s: string) {
    forall i :: 0 <= i < |s| ==> ('0' <= s[i] <= '9') || ('a' <= s[i] <= 'f')
  }

  function HexValue(c: char): (d: nat)
    requires IsHexChar(c)
    ensures d < 16
  {
    if '0' <= c <= '9' then c as int - '0' as int
    else if 'a' <= c <= 'f' then c as int - 'a' as int + 10
    else c as int - 'A' as int + 10
  }

  /** `buf.toString("hex")`: two lower-case digits per byte. */
  function HexEncode(b: seq<Byte>): (r: string)
    ensures |r| == 2 * |b| && IsLowerHex(r) && ':' !in r
  {
    if b == [] then ""
    else [HexDigit(b[0] / 16), HexDigit(b[0] % 16)] + HexEncode(b[1..])
  }

  /** `Buffer.from(s, "hex")`: decodes pairs of hex digits from the left and
      stops at the first pair that is not two hex digits; a trailing odd
      digit is dropped. */
  function HexDecode(s: string): (r: seq<Byte>)
    ensures |r| <= |s| / 2
  {
    if |s| < 2 || !IsHexChar(s[0]) || !IsHexChar(s[1]) then []
    else [16 * HexValue(s[0]) + HexValue(s[1])] + HexDecode(s[2..])
  }

  /** Decoding an encoding gives the bytes back. */
  lemma {:induction false} HexRoundTrip(b: seq<Byte>)
    ensures HexDecode(HexEncode(b)) == b
  {
    if b != [] {
      var s := HexEncode(b);
      assert s[2..] == HexEncode(b[1..]);
      HexRoundTrip(b[1..]);
    }
  }

  /** `hashPassword`: `salt + ":" + hash` with a 32-digit salt and a
      128-digit hash. */
  function HashPassword(password: string, salt: Salt, kdf: Kdf): (r: string)
    ensures |r| == 161 && r[32] == ':'
    ensures IsLowerHex(r[..32]) && IsLowerHex(r[33..])
    ensures r[..32] == HexEncode(salt)
    ensures r[33..] == HexEncode(kdf(password, HexEncode(salt)))
  {
    var saltHex := HexEncode(salt);
    var hash := HexEncode(kdf(password, saltHex));
    assert (saltHex + ":" + hash)[..32] == saltHex;
    assert (saltHex + ":" + hash)[33..] == hash;
    saltHex + ":" + hash
  }

  /** What `verifyPassword` does: return a verdict, or throw (the
      equal-length comparison throws a RangeError). */
  datatype Verdict = Returns(ok: bool) | Throws

  /** The first two `:`-separated segments of a stored value. */
  function Segments(stored: string): (r: (string, Option<string>))
    ensures r.0 == Before(stored, ':')
    ensures r.1.None? <==> ':' !in stored
  {
    var parts := Split(stored, ':');
    SplitJoin(stored, ':');
    (parts[0], if |parts| > 1 then Some(parts[1]) else None)
  }

  /** `verifyPassword(password, stored)`. */
  function VerifyPassword(password: string, stored: string, kdf: Kdf): (r: Verdict)
    ensures ':' !in stored ==> r == Returns(false)
    ensures Before(stored, ':') == "" ==> r == Returns(false)
    ensures Segments(stored).1 == Some("") ==> r == Returns(false)
    ensures r == Throws <==>
              (Truthy(Segments(stored).1) && Before(stored, ':') != "" &&
               |HexDecode(Segments(stored).1.value)| != 64)
    ensures r == Returns(true) ==>
              HexDecode(Segments(stored).1.value) == kdf(password, Before(stored, ':'))
    ensures r != Throws && Before(stored, ':') != "" && Truthy(Segments(stored).1) ==>
              r == Returns(HexDecode(Segments(stored).1.value) == kdf(password, Before(stored, ':')))
  {
    var (salt, hash) := Segments(stored);
    if salt == "" || !Truthy(hash) then Returns(false)
    else
      var given := HexDecode(hash.value);
      var derived := kdf(password, salt);
      if |given| != |derived| then Throws else Returns(given == derived)
  }

  /** Segments after the second are ignored. */
  lemma ExtraSegmentsIgnored(a: string, b: string, rest: string, password: string, kdf: Kdf)
    requires ':' !in a && ':' !in b
    ensures VerifyPassword(password, a + ":" + b + ":" + rest, kdf) ==
            VerifyPassword(password, a + ":" + b, kdf)
  {
    SegmentsOfLonger(a, b, rest);
    SegmentsOfPair(a, b);
  }

  lemma SegmentsOfLonger(a: string, b: string, rest: string)
    requires ':' !in a && ':' !in b
    ensures Segments(a + ":" + b + ":" + rest) == (a, Some(b))
  {
    assert a + ":" + b + ":" + rest == a + [':'] + (b + [':'] + rest);
    SplitCons(a, ':', b + [':'] + rest);
    SplitCons(b, ':', rest);
  }

  lemma SegmentsOfPair(a: string, b: string)
    requires ':' !in a && ':' !in b
    ensures Segments(a + ":" + b) == (a, Some(b))
  {
    assert a + ":" + b == a + [':'] + b;
    SplitCons(a, ':', b);
    SplitNone(b, ':');
  }

  /** A hash made for a password verifies that password. */
  lemma VerifyHashed(password: string, salt: Salt, kdf: Kdf)
    ensures VerifyPassword(password, HashPassword(password, salt, kdf), kdf) == Returns(true)
  {
    SameAsOtherPassword(password, password, salt, kdf);
  }

  /** Against a stored hash, another password verifies exactly when the
      KDF gives it the same digest under that salt. */
  lemma SameAsOtherPassword(given: string, original: string, salt: Salt, kdf: Kdf)
    ensures VerifyPassword(given, HashPassword(original, salt, kdf), kdf) ==
            Returns(kdf(given, HexEncode(salt)) == kdf(original, HexEncode(salt)))
  {
    var saltHex := HexEncode(salt);
    var hash := HexEncode(kdf(original, saltHex));
    var stored := HashPassword(original, salt, kdf);
    assert stored == saltHex + [':'] + hash;
    SplitCons(saltHex, ':', hash);
    SplitNone(hash, ':');
    HexRoundTrip(kdf(original, saltHex));
  }
}
