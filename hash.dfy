/** Message identifiers (packages/factory/src/core/messages/hash.rs): the first
    six characters of the standard base64 encoding of the SHA-256 digest of
    the UTF-8 bytes of the ICU text, a 0x1F unit separator, and the UTF-8
    bytes of the context (none counts as the empty string).

    SHA-256 itself is a parameter: any function from byte strings to 32-byte
    digests. UTF-8 and base64 are written out, so that what is proved about the
    input layout and the shape of the output holds for the real encoders. */
module Hash {
  import opened Wrappers

  newtype byte = x: int | 0 <= x < 0x100

  /** A SHA-256 implementation, seen only through the length of its digests. */
  type Sha256 = f: seq<byte> -> seq<byte> | forall m :: |f(m)| == 32
    witness (m: seq<byte>) => seq(32, _ => 0 as byte)

  // ---------------------------------------------------------------------------
  // UTF-8

  /** The UTF-8 encoding of one Unicode scalar value. */
  function EncodeChar(c: char): (r: seq<byte>)
    ensures 1 <= |r| <= 4
  {
    var n := c as int;
    var q1 := n / 0x40;
    var q2 := q1 / 0x40;
    var q3 := q2 / 0x40;
    if n < 0x80 then [n as byte]
    else if n < 0x800 then [(0xC0 + q1) as byte, (0x80 + n % 0x40) as byte]
    else if n < 0x10000 then [(0xE0 + q2) as byte, (0x80 + q1 % 0x40) as byte, (0x80 + n % 0x40) as byte]
    else [(0xF0 + q3) as byte, (0x80 + q2 % 0x40) as byte, (0x80 + q1 % 0x40) as byte, (0x80 + n % 0x40) as byte]
  }

  /** How many bytes a UTF-8 sequence has, read off its leading byte. */
  function SequenceLength(lead: byte): nat {
    if lead < 0x80 then 1
    else if lead < 0xE0 then 2
    else if lead < 0xF0 then 3
    else 4
  }

  /** The scalar value a complete UTF-8 sequence stands for. */
  function DecodeSequence(e: seq<byte>): int
    requires 1 <= |e| <= 4
  {
    if |e| == 1 then e[0] as int
    else if |e| == 2 then (e[0] as int - 0xC0) * 0x40 + (e[1] as int - 0x80)
    else if |e| == 3 then ((e[0] as int - 0xE0) * 0x40 + (e[1] as int - 0x80)) * 0x40 + (e[2] as int - 0x80)
    else (((e[0] as int - 0xF0) * 0x40 + (e[1] as int - 0x80)) * 0x40 + (e[2] as int - 0x80)) * 0x40 + (e[3] as int - 0x80)
  }

  /** A character's encoding announces its own length and decodes back to it. */
  lemma EncodeCharDecodes(c: char)
    ensures |EncodeChar(c)| == SequenceLength(EncodeChar(c)[0])
    ensures DecodeSequence(EncodeChar(c)) == c as int
  {
    var n := c as int;
    var q1 := n / 0x40;
    var q2 := q1 / 0x40;
    var q3 := q2 / 0x40;
    assert n == q1 * 0x40 + n % 0x40;
    assert q1 == q2 * 0x40 + q1 % 0x40;
    assert q2 == q3 * 0x40 + q2 % 0x40;
  }

  function Utf8(s: string): (r: seq<byte>)
    ensures |r| >= |s|
  {
    if s == [] then [] else EncodeChar(s[0]) + Utf8(s[1..])
  }

  lemma {:induction false} Utf8Append(a: string, b: string)
    ensures Utf8(a + b) == Utf8(a) + Utf8(b)
  {
    if a == [] {
      assert a + b == b;
    } else {
      assert (a + b)[0] == a[0];
      assert (a + b)[1..] == a[1..] + b;
      Utf8Append(a[1..], b);
    }
  }

  /** Different strings have different UTF-8 encodings. */
  lemma {:induction false} Utf8Injective(a: string, b: string)
    requires Utf8(a) == Utf8(b)
    ensures a == b
  {
    if a == [] || b == [] {
      assert |Utf8(a)| == 0 || |Utf8(b)| == 0;
    } else {
      var ea, eb := EncodeChar(a[0]), EncodeChar(b[0]);
      EncodeCharDecodes(a[0]);
      EncodeCharDecodes(b[0]);
      assert Utf8(a) == ea + Utf8(a[1..]);
      assert Utf8(b) == eb + Utf8(b[1..]);
      assert ea[0] == Utf8(a)[0] == Utf8(b)[0] == eb[0];
      assert ea == Utf8(a)[..|ea|] == Utf8(b)[..|eb|] == eb;
      assert a[0] as int == b[0] as int;
      assert Utf8(a[1..]) == Utf8(a)[|ea|..] == Utf8(b)[|eb|..] == Utf8(b[1..]);
      Utf8Injective(a[1..], b[1..]);
      assert a == [a[0]] + a[1..];
      assert b == [b[0]] + b[1..];
    }
  }

  // ---------------------------------------------------------------------------
  // Base64 (RFC 4648, section 4: standard alphabet, with padding)

  /** The base64 alphabet: A-Z, a-z, 0-9, '+', '/'. */
  predicate IsBase64Char(c: char) {
    'A' <= c <= 'Z' || 'a' <= c <= 'z' || '0' <= c <= '9' || c == '+' || c == '/'
  }

  /** The character standing for a six-bit value. */
  function Sextet(v: int): (c: char)
    requires 0 <= v < 64
    ensures IsBase64Char(c)
  {
    if v < 26 then ('A' as int + v) as char
    else if v < 52 then ('a' as int + v - 26) as char
    else if v < 62 then ('0' as int + v - 52) as char
    else if v == 62 then '+'
    else '/'
  }

  /** One base64 quantum: up to three bytes as four characters, padded with '='. */
  function Quantum(b: seq<byte>): (r: string)
    requires 1 <= |b| <= 3
    ensures |r| == 4 && IsBase64Char(r[0]) && IsBase64Char(r[1])
    ensures |b| > 1 ==> IsBase64Char(r[2])
    ensures |b| > 2 ==> IsBase64Char(r[3])
  {
    var x0 := b[0] as int;
    var x1 := if |b| > 1 then b[1] as int else 0;
    var x2 := if |b| > 2 then b[2] as int else 0;
    [Sextet(x0 / 4),
     Sextet((x0 % 4) * 16 + x1 / 16),
     if |b| > 1 then Sextet((x1 % 16) * 4 + x2 / 64) else '=',
     if |b| > 2 then Sextet(x2 % 64) else '=']
  }

  /** The first two characters of a quantum depend on its first two bytes only. */
  lemma QuantumHead(b: seq<byte>, c: seq<byte>)
    requires 2 <= |b| <= 3 && 2 <= |c| <= 3 && b[..2] == c[..2]
    ensures Quantum(b)[..2] == Quantum(c)[..2]
  {
    assert b[0] == c[0] && b[1] == c[1];
  }

  function Base64(b: seq<byte>): (r: string)
    ensures |b| > 0 ==> |b| < |r|
    decreases |b|
  {
    if |b| == 0 then []
    else if |b| <= 3 then Quantum(b)
    else Quantum(b[..3]) + Base64(b[3..])
  }

  // ---------------------------------------------------------------------------
  // The identifier

  /** The bytes fed to SHA-256: input, unit separator, context. */
  function DigestInput(input: string, context: Option<string>): seq<byte> {
    Utf8(input) + [0x1F] + Utf8(context.GetOr(""))
  }

  /** `generate_hash`: six base64 characters taken from the digest, which depend
      only on its first five bytes (36 of its bits). */
  function GenerateHash(sha256: Sha256, input: string, context: Option<string>): (r: string)
    ensures |r| == 6
    ensures forall i :: 0 <= i < 6 ==> IsBase64Char(r[i])
    ensures r == Base64(sha256(DigestInput(input, context))[..5])[..6]
  {
    var digest := sha256(DigestInput(input, context));
    Base64Head(digest);
    Base64HeadNoPadding(digest);
    Base64(digest)[..6]
  }

  /** Base64 of three or more bytes starts with the quantum of the first three. */
  lemma Base64FirstQuantum(d: seq<byte>)
    requires |d| >= 3
    ensures |Base64(d)| >= 4 && Base64(d)[..4] == Quantum(d[..3])
  {
    if |d| > 3 {
      var q, rest := Quantum(d[..3]), Base64(d[3..]);
      assert Base64(d) == q + rest;
      assert (q + rest)[..4] == q;
    }
  }

  lemma SixOfConcat(x: string, y: string)
    requires |x| == 4 && |y| >= 4
    ensures (x + y)[..6] == x + y[..4][..2]
  {
  }

  /** The first six base64 characters of at least six bytes: one full quantum
      and the head of the next. */
  lemma Base64SixChars(d: seq<byte>)
    requires |d| >= 6
    ensures Base64(d)[..6] == Quantum(d[..3]) + Quantum(d[3..6])[..2]
  {
    Base64FirstQuantum(d[3..]);
    assert d[3..][..3] == d[3..6];
    assert Base64(d) == Quantum(d[..3]) + Base64(d[3..]);
    SixOfConcat(Quantum(d[..3]), Base64(d[3..]));
  }

  /** The first six base64 characters of five bytes. */
  lemma Base64FiveBytes(e: seq<byte>)
    requires |e| == 5
    ensures Base64(e)[..6] == Quantum(e[..3]) + Quantum(e[3..])[..2]
  {
    assert Base64(e) == Quantum(e[..3]) + Quantum(e[3..]);
  }

  /** The first six base64 characters of a digest come from its first five bytes. */
  lemma Base64Head(d: seq<byte>)
    requires |d| >= 6
    ensures Base64(d)[..6] == Base64(d[..5])[..6]
  {
    Base64SixChars(d);
    Base64HeadFromFive(d);
  }

  /** ... and are never padding. */
  lemma Base64HeadNoPadding(d: seq<byte>)
    requires |d| >= 6
    ensures forall i :: 0 <= i < 6 ==> IsBase64Char(Base64(d)[..6][i])
  {
    Base64SixChars(d);
    var x, y := Quantum(d[..3]), Quantum(d[3..6]);
    assert IsBase64Char(x[2]) && IsBase64Char(x[3]);
    Base64HeadChars(x, y);
  }

  lemma Base64HeadFromFive(d: seq<byte>)
    requires |d| >= 6
    ensures Base64(d[..5])[..6] == Quantum(d[..3]) + Quantum(d[3..6])[..2]
  {
    var e := d[..5];
    Base64FiveBytes(e);
    assert e[..3] == d[..3] && e[3..] == d[3..5];
    QuantumHead(d[3..6], d[3..5]);
  }

  lemma Base64HeadChars(x: string, y: string)
    requires |x| == 4 && |y| == 4
    requires forall i :: 0 <= i < 4 ==> IsBase64Char(x[i])
    requires IsBase64Char(y[0]) && IsBase64Char(y[1])
    ensures forall i :: 0 <= i < 6 ==> IsBase64Char((x + y[..2])[i])
  {
  }

  /** An absent context and an empty one give the same identifier. */
  lemma FalsyContextSameHash(sha256: Sha256, input: string)
    ensures GenerateHash(sha256, input, None) == GenerateHash(sha256, input, Some(""))
  {
  }

  /** For one input text, the digest input tells contexts apart exactly when
      they differ once an absent context is read as empty. */
  lemma DigestInputSeparatesContexts(input: string, c1: Option<string>, c2: Option<string>)
    ensures DigestInput(input, c1) == DigestInput(input, c2) <==> c1.GetOr("") == c2.GetOr("")
  {
    if DigestInput(input, c1) == DigestInput(input, c2) {
      var k := |Utf8(input)| + 1;
      assert Utf8(c1.GetOr("")) == DigestInput(input, c1)[k..];
      assert Utf8(c2.GetOr("")) == DigestInput(input, c2)[k..];
      Utf8Injective(c1.GetOr(""), c2.GetOr(""));
    }
  }

  /** The separator is only unambiguous while neither text contains U+001F:
      moving a separator character from the context into the text keeps the
      digest input, and so the identifier, the same. */
  lemma SeparatorInTextCollides(sha256: Sha256)
    ensures DigestInput("a\U{1F}b", None) == DigestInput("a", Some("b\U{1F}"))
    ensures GenerateHash(sha256, "a\U{1F}b", None) == GenerateHash(sha256, "a", Some("b\U{1F}"))
  {
    assert DigestInput("a\U{1F}b", None) == [0x61, 0x1F, 0x62, 0x1F];
    assert DigestInput("a", Some("b\U{1F}")) == [0x61, 0x1F, 0x62, 0x1F];
  }
}
