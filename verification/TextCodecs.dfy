/** Lowercase hexadecimal and padded base64 (sections 8 and 4 of RFC 4648), decoded as strictly as the crates do. */
module TextCodecs {
  import opened Prelude

  type Nibble = n: int | 0 <= n < 16
  type Sextet = n: int | 0 <= n < 64

  function CharAt(base: char, offset: nat): (c: char)
    requires base as int + offset < 0x80
  {
    (base as int + offset) as char
  }

  /* ---------- hexadecimal ---------- */

  function HexDigit(n: Nibble): (c: char)
  {
    if n < 10 then CharAt('0', n) else CharAt('a', n - 10)
  }

  function HexValue(c: char): (n: Option<Nibble>)
  {
    if '0' <= c <= '9' then Some(c as int - '0' as int)
    else if 'a' <= c <= 'f' then Some(c as int - 'a' as int + 10)
    else if 'A' <= c <= 'F' then Some(c as int - 'A' as int + 10)
    else None
  }

  function HexEncode(b: Bytes): (s: string)
  {
    if b == [] then "" else [HexDigit(b[0] / 16), HexDigit(b[0] % 16)] + HexEncode(b[1..])
  }

  function HexDecode(s: string): (b: Option<Bytes>)
  {
    if s == "" then Some([])
    else if |s| == 1 || HexValue(s[0]).None? || HexValue(s[1]).None? then None
    else match HexDecode(s[2..])
      case None => None
      case Some(rest) => Some([16 * HexValue(s[0]).value + HexValue(s[1]).value] + rest)
  }

  lemma HexDigitRoundTrip(n: Nibble)
    ensures HexValue(HexDigit(n)) == Some(n)
  {
  }

  lemma HexPrepend(x: Byte, rest: string)
    requires HexDecode(rest).Some?
    ensures HexDecode([HexDigit(x / 16), HexDigit(x % 16)] + rest) == Some([x] + HexDecode(rest).value)
  {
    HexDigitRoundTrip(x / 16);
    HexDigitRoundTrip(x % 16);
    assert ([HexDigit(x / 16), HexDigit(x % 16)] + rest)[2..] == rest;
  }

  lemma {:induction false} HexRoundTrip(b: Bytes)
    ensures HexDecode(HexEncode(b)) == Some(b)
  {
    if b != [] {
      HexRoundTrip(b[1..]);
      HexPrepend(b[0], HexEncode(b[1..]));
      assert b == [b[0]] + b[1..];
    }
  }

  const HEX_DIGITS := "0123456789abcdef"

  lemma HexDigitByPlace(n: Nibble)
    ensures HexDigit(n) == HEX_DIGITS[n]
  {
  }

  /** Two lower-case digits per byte, the high half first. */
  lemma {:induction false} HexByPlace(b: Bytes, i: nat)
    requires i < |b|
    ensures |HexEncode(b)| == 2 * |b|
    ensures HexEncode(b)[2 * i] == HEX_DIGITS[b[i] / 16] && HexEncode(b)[2 * i + 1] == HEX_DIGITS[b[i] % 16]
  {
    HexDigitByPlace(b[0] / 16);
    HexDigitByPlace(b[0] % 16);
    if |b| > 1 {
      HexByPlace(b[1..], if i > 0 then i - 1 else 0);
    }
  }

  /* ---------- base64 ---------- */

  function SextetChar(n: Sextet): (c: char)
  {
    if n < 26 then CharAt('A', n)
    else if n < 52 then CharAt('a', n - 26)
    else if n < 62 then CharAt('0', n - 52)
    else if n == 62 then '+' else '/'
  }

  function SextetValue(c: char): (n: Option<Sextet>)
  {
    if 'A' <= c <= 'Z' then Some(c as int - 'A' as int)
    else if 'a' <= c <= 'z' then Some(c as int - 'a' as int + 26)
    else if '0' <= c <= '9' then Some(c as int - '0' as int + 52)
    else if c == '+' then Some(62)
    else if c == '/' then Some(63)
    else None
  }

  lemma SextetRoundTrip(n: Sextet)
    ensures SextetValue(SextetChar(n)) == Some(n) && SextetChar(n) != '='
  {
  }

  lemma SextetCharOfValue(c: char)
    requires SextetValue(c).Some?
    ensures SextetChar(SextetValue(c).value) == c && c != '='
  {
  }

  function Triple(x: Byte, y: Byte, z: Byte): (s: string)
    ensures |s| == 4
  {
    [SextetChar(x / 4), SextetChar(x % 4 * 16 + y / 16), SextetChar(y % 16 * 4 + z / 64), SextetChar(z % 64)]
  }

  function Base64Encode(b: Bytes): (s: string)
  {
    if |b| == 0 then ""
    else if |b| == 1 then [SextetChar(b[0] / 4), SextetChar(b[0] % 4 * 16), '=', '=']
    else if |b| == 2 then [SextetChar(b[0] / 4), SextetChar(b[0] % 4 * 16 + b[1] / 16), SextetChar(b[1] % 16 * 4), '=']
    else Triple(b[0], b[1], b[2]) + Base64Encode(b[3..])
  }

  /** Four characters, all in the alphabet. */
  function DecodeQuad(s: string): (b: Option<Bytes>)
    requires |s| == 4
  {
    var v, w, x, y := SextetValue(s[0]), SextetValue(s[1]), SextetValue(s[2]), SextetValue(s[3]);
    if v.None? || w.None? || x.None? || y.None? then None
    else Some([v.value * 4 + w.value / 16, w.value % 16 * 16 + x.value / 4, x.value % 4 * 64 + y.value])
  }

  /** The last four characters, which may be padded; bits hidden by the padding must be zero. */
  function DecodeLastQuad(s: string): (b: Option<Bytes>)
    requires |s| == 4
  {
    var v, w, x := SextetValue(s[0]), SextetValue(s[1]), SextetValue(s[2]);
    if s[3] != '=' then DecodeQuad(s)
    else if v.None? || w.None? then None
    else if s[2] == '=' then if w.value % 16 == 0 then Some([v.value * 4 + w.value / 16]) else None
    else if x.None? || x.value % 4 != 0 then None
    else Some([v.value * 4 + w.value / 16, w.value % 16 * 16 + x.value / 4])
  }

  function Base64Decode(s: string): (b: Option<Bytes>)
  {
    if s == "" then Some([])
    else if |s| < 4 then None
    else if |s| == 4 then DecodeLastQuad(s)
    else match (DecodeQuad(s[..4]), Base64Decode(s[4..]))
      case (Some(first), Some(rest)) => Some(first + rest)
      case _ => None
  }

  lemma ByteArithmetic(x: Byte, y: Byte, z: Byte)
    ensures var v, w, u, t := x / 4, x % 4 * 16 + y / 16, y % 16 * 4 + z / 64, z % 64;
      v * 4 + w / 16 == x && w % 16 * 16 + u / 4 == y && u % 4 * 64 + t == z
  {
  }

  lemma QuadOfSextets(v: Sextet, w: Sextet, u: Sextet, t: Sextet)
    ensures var s := [SextetChar(v), SextetChar(w), SextetChar(u), SextetChar(t)];
      s[3] != '=' && DecodeQuad(s) == Some([v * 4 + w / 16, w % 16 * 16 + u / 4, u % 4 * 64 + t])
  {
    SextetRoundTrip(v);
    SextetRoundTrip(w);
    SextetRoundTrip(u);
    SextetRoundTrip(t);
  }

  lemma BytesAsSextets(x: Byte, y: Byte, z: Byte) returns (v: Sextet, w: Sextet, u: Sextet, t: Sextet)
    ensures Triple(x, y, z) == [SextetChar(v), SextetChar(w), SextetChar(u), SextetChar(t)]
    ensures v * 4 + w / 16 == x && w % 16 * 16 + u / 4 == y && u % 4 * 64 + t == z
  {
    v, w, u, t := x / 4, x % 4 * 16 + y / 16, y % 16 * 4 + z / 64, z % 64;
    ByteArithmetic(x, y, z);
  }

  lemma TripleRoundTrip(x: Byte, y: Byte, z: Byte)
    ensures DecodeQuad(Triple(x, y, z)) == Some([x, y, z]) && Triple(x, y, z)[3] != '='
  {
    var v, w, u, t := BytesAsSextets(x, y, z);
    QuadOfSextets(v, w, u, t);
  }

  lemma OneByteRoundTrip(x: Byte)
    ensures Base64Decode(Base64Encode([x])) == Some([x])
  {
    ByteArithmetic(x, 0, 0);
    SextetRoundTrip(x / 4);
    SextetRoundTrip(x % 4 * 16);
  }

  lemma PaddedOnceOfSextets(v: Sextet, w: Sextet, u: Sextet)
    requires u % 4 == 0
    ensures Base64Decode([SextetChar(v), SextetChar(w), SextetChar(u), '='])
         == Some([v * 4 + w / 16, w % 16 * 16 + u / 4])
  {
    SextetRoundTrip(v);
    SextetRoundTrip(w);
    SextetRoundTrip(u);
  }

  lemma TwoByteRoundTrip(x: Byte, y: Byte)
    ensures Base64Decode(Base64Encode([x, y])) == Some([x, y])
  {
    ByteArithmetic(x, y, 0);
    PaddedOnceOfSextets(x / 4, x % 4 * 16 + y / 16, y % 16 * 4);
  }

  lemma {:induction false} FirstThree(b: Bytes)
    requires |b| > 2
    ensures Base64Encode(b) == Triple(b[0], b[1], b[2]) + Base64Encode(b[3..])
    ensures b == [b[0], b[1], b[2]] + b[3..]
  {
  }

  lemma {:induction false} Base64RoundTrip(b: Bytes)
    ensures Base64Decode(Base64Encode(b)) == Some(b)
  {
    if |b| == 1 {
      OneByteRoundTrip(b[0]);
      assert b == [b[0]];
    } else if |b| == 2 {
      TwoByteRoundTrip(b[0], b[1]);
      assert b == [b[0], b[1]];
    } else if |b| > 2 {
      Base64RoundTrip(b[3..]);
      LongerRoundTrip(b[0], b[1], b[2], b[3..]);
      FirstThree(b);
    }
  }

  lemma LongerRoundTrip(x: Byte, y: Byte, z: Byte, rest: Bytes)
    requires Base64Decode(Base64Encode(rest)) == Some(rest)
    ensures Base64Decode(Triple(x, y, z) + Base64Encode(rest)) == Some([x, y, z] + rest)
  {
    TripleRoundTrip(x, y, z);
    DecodePrepend(Triple(x, y, z), Base64Encode(rest));
  }

  lemma DecodePrepend(quad: string, rest: string)
    requires |quad| == 4 && quad[3] != '=' && DecodeQuad(quad).Some?
    requires Base64Decode(rest).Some?
    ensures Base64Decode(quad + rest) == Some(DecodeQuad(quad).value + Base64Decode(rest).value)
  {
    if rest == "" {
      assert quad + rest == quad && DecodeQuad(quad).value + [] == DecodeQuad(quad).value;
    } else {
      assert (quad + rest)[..4] == quad && (quad + rest)[4..] == rest;
    }
  }

  lemma QuadArithmetic(v: Sextet, w: Sextet, x: Sextet, y: Sextet)
    ensures var b0, b1, b2 := v * 4 + w / 16, w % 16 * 16 + x / 4, x % 4 * 64 + y;
      b0 / 4 == v && b0 % 4 * 16 + b1 / 16 == w && b1 % 16 * 4 + b2 / 64 == x && b2 % 64 == y
  {
  }

  lemma QuadIsTriple(s: string)
    requires |s| == 4 && DecodeQuad(s).Some?
    ensures |DecodeQuad(s).value| == 3
    ensures var b := DecodeQuad(s).value; Triple(b[0], b[1], b[2]) == s
  {
    var v, w, x, y := SextetValue(s[0]).value, SextetValue(s[1]).value, SextetValue(s[2]).value,
      SextetValue(s[3]).value;
    TripleOfSextets(v, w, x, y);
    SextetCharOfValue(s[0]);
    SextetCharOfValue(s[1]);
    SextetCharOfValue(s[2]);
    SextetCharOfValue(s[3]);
    assert s == [SextetChar(v), SextetChar(w), SextetChar(x), SextetChar(y)];
  }

  lemma TripleOfSextets(v: Sextet, w: Sextet, x: Sextet, y: Sextet)
    ensures Triple(v * 4 + w / 16, w % 16 * 16 + x / 4, x % 4 * 64 + y)
         == [SextetChar(v), SextetChar(w), SextetChar(x), SextetChar(y)]
  {
    QuadArithmetic(v, w, x, y);
  }

  lemma PaddedOnceIsCanonical(s: string)
    requires |s| == 4 && s[3] == '=' && s[2] != '=' && DecodeLastQuad(s).Some?
    ensures |DecodeLastQuad(s).value| == 2 && Base64Encode(DecodeLastQuad(s).value) == s
  {
    QuadArithmetic(SextetValue(s[0]).value, SextetValue(s[1]).value, SextetValue(s[2]).value, 0);
    SextetCharOfValue(s[0]);
    SextetCharOfValue(s[1]);
    SextetCharOfValue(s[2]);
  }

  lemma PaddedTwiceIsCanonical(s: string)
    requires |s| == 4 && s[3] == '=' && s[2] == '=' && DecodeLastQuad(s).Some?
    ensures |DecodeLastQuad(s).value| == 1 && Base64Encode(DecodeLastQuad(s).value) == s
  {
    QuadArithmetic(SextetValue(s[0]).value, SextetValue(s[1]).value, 0, 0);
    SextetCharOfValue(s[0]);
    SextetCharOfValue(s[1]);
  }

  lemma LastQuadIsCanonical(s: string)
    requires |s| == 4 && DecodeLastQuad(s).Some?
    ensures Base64Encode(DecodeLastQuad(s).value) == s
  {
    if s[3] != '=' {
      QuadIsTriple(s);
      assert Base64Encode(DecodeQuad(s).value[3..]) == "";
    } else if s[2] != '=' {
      PaddedOnceIsCanonical(s);
    } else {
      PaddedTwiceIsCanonical(s);
    }
  }

  /** Decoding accepts nothing but canonical encodings. */
  lemma {:induction false} Base64IsCanonical(s: string)
    requires Base64Decode(s).Some?
    ensures Base64Encode(Base64Decode(s).value) == s
  {
    if |s| == 4 {
      LastQuadIsCanonical(s);
    } else if |s| > 4 {
      QuadIsTriple(s[..4]);
      Base64IsCanonical(s[4..]);
      var b := Base64Decode(s).value;
      assert b[3..] == Base64Decode(s[4..]).value;
      assert s == s[..4] + s[4..];
    }
  }

  const UPPER := "ABCDEFGHIJKLMNOPQRSTUVWXYZ"
  const LOWER := "abcdefghijklmnopqrstuvwxyz"
  const DIGITS := "0123456789"

  /** The standard alphabet. */
  const ALPHABET := UPPER + LOWER + DIGITS + "+/"

  lemma UpperByPlace(n: nat)
    requires n < 26
    ensures UPPER[n] == CharAt('A', n)
  {
  }

  lemma LowerByPlace(n: nat)
    requires n < 26
    ensures LOWER[n] == CharAt('a', n)
  {
  }

  lemma DigitByPlace(n: nat)
    requires n < 10
    ensures DIGITS[n] == CharAt('0', n)
  {
  }

  lemma SextetByPlace(n: Sextet)
    ensures SextetChar(n) == ALPHABET[n]
  {
    if n < 26 {
      UpperByPlace(n);
    } else if n < 52 {
      LowerByPlace(n - 26);
    } else if n < 62 {
      DigitByPlace(n - 52);
    }
  }

  /** The 24-bit number of three bytes. */
  function Word(x: int, y: int, z: int): (n: int)
  {
    0x1_0000 * x + 0x100 * y + z
  }

  /** Four characters spell a 24-bit number: its digits in base 64, most significant first. */
  predicate Spells(c0: char, c1: char, c2: char, c3: char, n: int)
  {
    && 0 <= n < 0x100_0000
    && c0 == ALPHABET[n / 0x4_0000] && c1 == ALPHABET[n / 0x1000 % 64]
    && c2 == ALPHABET[n / 64 % 64] && c3 == ALPHABET[n % 64]
  }

  lemma Base64Digits(a: Sextet, b: Sextet, c: Sextet, d: Sextet, n: int)
    requires n == 0x4_0000 * (a as int) + 0x1000 * (b as int) + 64 * (c as int) + d
    ensures n / 0x4_0000 == a && n / 0x1000 % 64 == b && n / 64 % 64 == c && n % 64 == d
  {
    QuotientIs(n, 0x1000, 64 * (a as int) + b, 64 * (c as int) + d);
    QuotientIs(n, 64, 0x1000 * (a as int) + 64 * (b as int) + c, d);
  }

  lemma WordDigits(x: Byte, y: Byte, z: Byte)
    ensures var n := Word(x, y, z);
      && n / 0x4_0000 == x / 4 && n / 0x1000 % 64 == x % 4 * 16 + y / 16
      && n / 64 % 64 == y % 16 * 4 + z / 64 && n % 64 == z % 64
  {
    Base64Digits(x / 4, x % 4 * 16 + y / 16, y % 16 * 4 + z / 64, z % 64, Word(x, y, z));
  }

  lemma SextetsSpell(a: Sextet, b: Sextet, c: Sextet, d: Sextet, n: int)
    requires 0 <= n < 0x100_0000
    requires n / 0x4_0000 == a && n / 0x1000 % 64 == b && n / 64 % 64 == c && n % 64 == d
    ensures Spells(SextetChar(a), SextetChar(b), SextetChar(c), SextetChar(d), n)
  {
    SextetByPlace(a);
    SextetByPlace(b);
    SextetByPlace(c);
    SextetByPlace(d);
  }

  predicate SpelledBy(q: string, n: int)
  {
    |q| == 4 && Spells(q[0], q[1], q[2], q[3], n)
  }

  lemma TripleSpells(x: Byte, y: Byte, z: Byte)
    ensures SpelledBy(Triple(x, y, z), Word(x, y, z))
  {
    WordDigits(x, y, z);
    SextetsSpell(x / 4, x % 4 * 16 + y / 16, y % 16 * 4 + z / 64, z % 64, Word(x, y, z));
  }

  predicate SpelledAt(s: string, p: nat, n: int)
  {
    p + 4 <= |s| && SpelledBy(s[p..p + 4], n)
  }

  lemma SpelledBehind(quad: string, s: string, p: nat, n: int)
    requires |quad| == 4 && SpelledAt(s, p, n)
    ensures SpelledAt(quad + s, p + 4, n)
  {
    assert (quad + s)[p + 4..p + 8] == s[p..p + 4];
  }

  lemma SpelledFirst(quad: string, s: string, n: int)
    requires SpelledBy(quad, n)
    ensures SpelledAt(quad + s, 0, n)
  {
    assert (quad + s)[0..4] == quad;
  }

  lemma {:induction false} FirstIsSpelled(b: Bytes)
    requires |b| >= 3
    ensures SpelledAt(Base64Encode(b), 0, Word(b[0], b[1], b[2]))
  {
    TripleSpells(b[0], b[1], b[2]);
    SpelledFirst(Triple(b[0], b[1], b[2]), Base64Encode(b[3..]), Word(b[0], b[1], b[2]));
  }

  /** Each whole triple of bytes is spelled by four characters of the standard alphabet. */
  lemma {:induction false} Base64ByPlace(b: Bytes, k: nat, x: Byte, y: Byte, z: Byte)
    requires 3 * k + 3 <= |b| && b[3 * k..3 * k + 3] == [x, y, z]
    ensures SpelledAt(Base64Encode(b), 4 * k, Word(x, y, z))
  {
    if k == 0 {
      FirstIsSpelled(b);
      assert b[0] == b[0..3][0] && b[1] == b[0..3][1] && b[2] == b[0..3][2];
    } else {
      assert b[3..][3 * k - 3..3 * k] == b[3 * k..3 * k + 3];
      Base64ByPlace(b[3..], k - 1, x, y, z);
      SpelledBehind(Triple(b[0], b[1], b[2]), Base64Encode(b[3..]), 4 * k - 4, Word(x, y, z));
    }
  }

  /** One byte left over is spelled as if two zeros followed, with `==` for what would spell only zeros. */
  predicate OneLeftQuad(q: string, x: Byte)
  {
    |q| == 4 && q[2] == '=' == q[3] && Spells(q[0], q[1], 'A', 'A', Word(x, 0, 0))
  }

  predicate TwoLeftQuad(q: string, x: Byte, y: Byte)
  {
    |q| == 4 && q[3] == '=' && Spells(q[0], q[1], q[2], 'A', Word(x, y, 0))
  }

  predicate OneLeft(s: string, x: Byte)
  {
    |s| >= 4 && OneLeftQuad(s[|s| - 4..], x)
  }

  predicate TwoLeft(s: string, x: Byte, y: Byte)
  {
    |s| >= 4 && TwoLeftQuad(s[|s| - 4..], x, y)
  }

  lemma OneByteSpells(x: Byte)
    ensures Spells(SextetChar(x / 4), SextetChar(x % 4 * 16), 'A', 'A', Word(x, 0, 0))
  {
    WordDigits(x, 0, 0);
    SextetsSpell(x / 4, x % 4 * 16, 0, 0, Word(x, 0, 0));
  }

  lemma TwoBytesSpell(x: Byte, y: Byte)
    ensures Spells(SextetChar(x / 4), SextetChar(x % 4 * 16 + y / 16), SextetChar(y % 16 * 4), 'A', Word(x, y, 0))
  {
    WordDigits(x, y, 0);
    SextetsSpell(x / 4, x % 4 * 16 + y / 16, y % 16 * 4, 0, Word(x, y, 0));
  }

  lemma OneLeftBehind(quad: string, s: string, x: Byte)
    requires OneLeft(s, x)
    ensures OneLeft(quad + s, x)
  {
    assert (quad + s)[|quad + s| - 4..] == s[|s| - 4..];
  }

  lemma TwoLeftBehind(quad: string, s: string, x: Byte, y: Byte)
    requires TwoLeft(s, x, y)
    ensures TwoLeft(quad + s, x, y)
  {
    assert (quad + s)[|quad + s| - 4..] == s[|s| - 4..];
  }

  /** A last single byte. */
  lemma {:induction false} Base64TailOne(b: Bytes, x: Byte)
    requires |b| % 3 == 1 && b[|b| - 1] == x
    ensures OneLeft(Base64Encode(b), x)
  {
    if |b| == 1 {
      OneByteSpells(x);
    } else {
      Base64TailOne(b[3..], x);
      OneLeftBehind(Triple(b[0], b[1], b[2]), Base64Encode(b[3..]), x);
    }
  }

  /** A last pair of bytes. */
  lemma {:induction false} Base64TailTwo(b: Bytes, x: Byte, y: Byte)
    requires |b| % 3 == 2 && b[|b| - 2] == x && b[|b| - 1] == y
    ensures TwoLeft(Base64Encode(b), x, y)
  {
    if |b| == 2 {
      TwoBytesSpell(x, y);
    } else {
      Base64TailTwo(b[3..], x, y);
      TwoLeftBehind(Triple(b[0], b[1], b[2]), Base64Encode(b[3..]), x, y);
    }
  }

  lemma {:induction false} Base64Length(b: Bytes)
    ensures |Base64Encode(b)| == (|b| + 2) / 3 * 4
  {
    if |b| > 2 {
      Base64Length(b[3..]);
      assert (|b| + 2) / 3 == (|b[3..]| + 2) / 3 + 1;
    }
  }
}
