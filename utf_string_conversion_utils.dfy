/**
 * Low-level Unicode helpers of winlib/winbase/strings/
 * utf_string_conversion_utils.h: the code point and character validity
 * checks, and the documented contracts of ReadUnicodeCharacter and
 * WriteUnicodeCharacter.
 *
 * The ICU macros those rest on are not part of this model; in their place
 * the UTF-8 encoding form of RFC 3629 (section 3 for encoding, section 4
 * for the byte-sequence syntax) and the UTF-16 encoding of RFC 2781
 * (sections 2.1 and 2.2) are written out here.
 */
module UtfStringConversionUtils {

  /** A UTF-8 code unit (an unsigned char). */
  type Byte = x: int | 0 <= x < 0x100
  /** A UTF-16 code unit (char16). */
  type Char16 = x: int | 0 <= x < 0x1_0000
  /** uint32_t. */
  type Uint32 = x: int | 0 <= x < 0x1_0000_0000

  const MaxCodepoint: int := 0x10_FFFF

  /** An int32_t converted to uint32_t: taken modulo 2^32. */
  function ToUint32(x: int): (r: Uint32)
    ensures 0 <= x < 0x1_0000_0000 ==> r == x
    ensures -0x1_0000_0000 <= x < 0 ==> r == x + 0x1_0000_0000
  {
    x % 0x1_0000_0000
  }

  // Code points and characters -------------------------------------------

  /** The surrogate range U+D800..U+DFFF, reserved for UTF-16 pairs. */
  predicate IsSurrogate(u: int)
  {
    0xD800 <= u <= 0xDFFF
  }

  /**
   * IsValidCodepoint: a Unicode scalar value, i.e. at most U+10FFFF and
   * not a surrogate. Non-characters and unassigned code points pass.
   */
  predicate IsValidCodepoint(c: Uint32)
    ensures IsValidCodepoint(c) <==> c <= MaxCodepoint && !IsSurrogate(c)
  {
    c < 0xD800 || (c >= 0xE000 && c <= 0x10_FFFF)
  }

  /**
   * The Unicode non-characters: U+FDD0..U+FDEF and the last two code
   * points of every plane.
   */
  predicate IsNoncharacter(c: int)
  {
    (0xFDD0 <= c <= 0xFDEF) || c % 0x1_0000 >= 0xFFFE
  }

  /**
   * c & 0xFFFE: bits 1 to 15 of c, i.e. its low 16 bits with bit 0
   * cleared.
   */
  function MaskFFFE(c: Uint32): nat
  {
    c % 0x1_0000 - c % 2
  }

  /** The mask test c & 0xFFFE == 0xFFFE singles out the last two code points of a plane. */
  lemma LastTwoOfPlane(c: Uint32)
    ensures MaskFFFE(c) == 0xFFFE <==> c % 0x1_0000 >= 0xFFFE
  {
  }

  /**
   * IsValidCharacter: a valid code point that is not a non-character.
   */
  predicate IsValidCharacter(c: Uint32)
    ensures IsValidCharacter(c) <==> IsValidCodepoint(c) && !IsNoncharacter(c)
  {
    c < 0xD800 || (c >= 0xE000 && c < 0xFDD0) ||
    (c > 0xFDEF && c <= 0x10_FFFF && MaskFFFE(c) != 0xFFFE)
  }

  /** U+FFFE is a valid code point but not a valid character; so is U+10FFFF. */
  lemma NoncharactersAreValidCodepoints()
    ensures IsValidCodepoint(0xFFFE) && !IsValidCharacter(0xFFFE)
    ensures IsValidCodepoint(0x10_FFFF) && !IsValidCharacter(0x10_FFFF)
    ensures forall c: Uint32 :: 0xFDD0 <= c <= 0xFDEF ==> IsValidCodepoint(c) && !IsValidCharacter(c)
  {
    LastTwoOfPlane(0xFFFE);
    LastTwoOfPlane(0x10_FFFF);
  }

  // UTF-8 (RFC 3629) -----------------------------------------------------

  /** A continuation byte 10xxxxxx. */
  predicate IsTrailByte(b: Byte)
  {
    0x80 <= b <= 0xBF
  }

  /**
   * The UTF-8 encoding of a code point, per the table of section 3 of
   * RFC 3629.
   */
  function Utf8Encode(cp: nat): (r: seq<Byte>)
    requires cp <= MaxCodepoint
    ensures 1 <= |r| <= 4
    ensures cp < 0x1_0000 ==> |r| <= 3
  {
    if cp < 0x80 then [cp]
    else if cp < 0x800 then [0xC0 + cp / 0x40, 0x80 + cp % 0x40]
    else if cp < 0x1_0000 then [0xE0 + cp / 0x1000, 0x80 + cp / 0x40 % 0x40, 0x80 + cp % 0x40]
    else [0xF0 + cp / 0x4_0000, 0x80 + cp / 0x1000 % 0x40, 0x80 + cp / 0x40 % 0x40, 0x80 + cp % 0x40]
  }

  /** The length announced by a lead byte; 0 for a byte that cannot start a sequence. */
  function LeadLength(b: Byte): nat
  {
    if b < 0x80 then 1
    else if b < 0xC2 then 0
    else if b < 0xE0 then 2
    else if b < 0xF0 then 3
    else if b < 0xF5 then 4
    else 0
  }

  /** The smallest second byte RFC 3629, section 4, allows after lead b. */
  function SecondMin(b: Byte): Byte
  {
    if b == 0xE0 then 0xA0 else if b == 0xF0 then 0x90 else 0x80
  }

  /** The largest second byte RFC 3629, section 4, allows after lead b. */
  function SecondMax(b: Byte): Byte
  {
    if b == 0xED then 0x9F else if b == 0xF4 then 0x8F else 0xBF
  }

  /**
   * The length of the well-formed UTF-8 sequence (RFC 3629, section 4) at
   * the head of s, or 0 when s does not start with one.
   */
  function WellFormedLength(s: seq<Byte>): (n: nat)
    ensures n <= |s| && n <= 4
    ensures n != 0 ==> n == LeadLength(s[0])
  {
    if s == [] then 0
    else
      var n := LeadLength(s[0]);
      if n == 0 || |s| < n then 0
      else if n == 1 then 1
      else if SecondMin(s[0]) <= s[1] <= SecondMax(s[0]) &&
              (forall k :: 2 <= k < n ==> IsTrailByte(s[k])) then n
      else 0
  }

  /** The scalar value carried by the first n bytes of s, per section 3 of RFC 3629. */
  function DecodeValue(s: seq<Byte>, n: nat): int
    requires 1 <= n <= 4 && n <= |s|
  {
    var b0: int, b1: int := s[0], if n >= 2 then s[1] else 0;
    var b2: int, b3: int := if n >= 3 then s[2] else 0, if n >= 4 then s[3] else 0;
    if n == 1 then b0
    else if n == 2 then (b0 - 0xC0) * 0x40 + (b1 - 0x80)
    else if n == 3 then (b0 - 0xE0) * 0x1000 + (b1 - 0x80) * 0x40 + (b2 - 0x80)
    else (b0 - 0xF0) * 0x4_0000 + (b1 - 0x80) * 0x1000 + (b2 - 0x80) * 0x40 + (b3 - 0x80)
  }

  /**
   * How many bytes a decoder consumes at the head of a non-empty input
   * that does not start with a well-formed sequence: at least one, at most
   * all of it.
   */
  type MalformedPolicy = f: seq<Byte> -> nat | forall s :: s != [] ==> 1 <= f(s) <= |s|
    witness (s: seq<Byte>) => if s == [] then 0 else 1

  /** One decoding step: the code point read (-1 on error) and the units consumed. */
  datatype Decoded = Decoded(codePoint: int, length: nat)

  /** The sentinel a decoder yields for a malformed sequence. */
  const ErrorSentinel: int := -1

  /**
   * The next code point of a UTF-8 input: a well-formed sequence yields
   * its scalar value; anything else yields the sentinel and consumes what
   * the policy says.
   */
  function NextUtf8(s: seq<Byte>, policy: MalformedPolicy): (d: Decoded)
    requires s != []
    ensures 1 <= d.length <= |s|
  {
    var n := WellFormedLength(s);
    if n != 0 then Decoded(DecodeValue(s, n), n) else Decoded(ErrorSentinel, policy(s))
  }

  /** The bytes of a sequence that satisfies section 4 of RFC 3629 are measured as such. */
  lemma WellFormedLengthIntro(s: seq<Byte>, n: nat)
    requires 1 <= n <= |s| && n == LeadLength(s[0])
    requires n >= 2 ==> SecondMin(s[0]) <= s[1] <= SecondMax(s[0])
    requires forall k :: 2 <= k < n ==> IsTrailByte(s[k])
    ensures WellFormedLength(s) == n
  {
  }

  /** Two-byte form: the bytes of a code point in U+0080..U+07FF. */
  lemma Utf8Arith2(cp: nat)
    requires 0x80 <= cp < 0x800
    ensures var b0, b1 := 0xC0 + cp / 0x40, 0x80 + cp % 0x40;
            LeadLength(b0) == 2 && SecondMin(b0) <= b1 <= SecondMax(b0) &&
            (b0 - 0xC0) * 0x40 + (b1 - 0x80) == cp
  {
  }

  /** Three-byte form: the bytes of a scalar value in U+0800..U+FFFF. */
  lemma Utf8Arith3(cp: nat)
    requires 0x800 <= cp < 0x1_0000 && !IsSurrogate(cp)
    ensures var b0, b1, b2 := 0xE0 + cp / 0x1000, 0x80 + cp / 0x40 % 0x40, 0x80 + cp % 0x40;
            LeadLength(b0) == 3 && SecondMin(b0) <= b1 <= SecondMax(b0) && IsTrailByte(b2) &&
            (b0 - 0xE0) * 0x1000 + (b1 - 0x80) * 0x40 + (b2 - 0x80) == cp
  {
    var q, r := cp / 0x40, cp % 0x40;
    assert cp == q * 0x40 + r;
    assert q / 0x40 == cp / 0x1000;
    assert q == (q / 0x40) * 0x40 + q % 0x40;
  }

  /** Four-byte form: the bytes of a code point in U+10000..U+10FFFF. */
  lemma Utf8Arith4(cp: nat)
    requires 0x1_0000 <= cp <= MaxCodepoint
    ensures var b0, b1 := 0xF0 + cp / 0x4_0000, 0x80 + cp / 0x1000 % 0x40;
            var b2, b3 := 0x80 + cp / 0x40 % 0x40, 0x80 + cp % 0x40;
            LeadLength(b0) == 4 && SecondMin(b0) <= b1 <= SecondMax(b0) &&
            IsTrailByte(b2) && IsTrailByte(b3) &&
            (b0 - 0xF0) * 0x4_0000 + (b1 - 0x80) * 0x1000 + (b2 - 0x80) * 0x40 + (b3 - 0x80) == cp
  {
    var q, r := cp / 0x40, cp % 0x40;
    assert cp == q * 0x40 + r;
    var q2, r2 := q / 0x40, q % 0x40;
    assert q == q2 * 0x40 + r2;
    assert q2 == cp / 0x1000;
    assert q2 == (q2 / 0x40) * 0x40 + q2 % 0x40;
    assert q2 / 0x40 == cp / 0x4_0000;
  }

  /** Decoding the encoding of a scalar value gives it back, whatever follows. */
  lemma Utf8EncodeThenDecode(cp: nat, rest: seq<Byte>)
    requires cp <= MaxCodepoint && !IsSurrogate(cp)
    ensures WellFormedLength(Utf8Encode(cp) + rest) == |Utf8Encode(cp)|
    ensures DecodeValue(Utf8Encode(cp) + rest, |Utf8Encode(cp)|) == cp
  {
    var e := Utf8Encode(cp);
    var s := e + rest;
    assert forall k :: 0 <= k < |e| ==> s[k] == e[k];
    if cp < 0x80 {
    } else if cp < 0x800 {
      Utf8Arith2(cp);
    } else if cp < 0x1_0000 {
      Utf8Arith3(cp);
    } else {
      Utf8Arith4(cp);
    }
    WellFormedLengthIntro(s, |e|);
  }

  /** Two-byte form: decoding a well-formed pair and encoding again. */
  lemma Utf8Unarith2(b0: int, b1: int)
    requires 0xC2 <= b0 <= 0xDF && 0x80 <= b1 <= 0xBF
    ensures var cp := (b0 - 0xC0) * 0x40 + (b1 - 0x80);
            0x80 <= cp < 0x800 && cp / 0x40 == b0 - 0xC0 && cp % 0x40 == b1 - 0x80
  {
  }

  /** Three-byte form: decoding a well-formed triple and encoding again. */
  lemma Utf8Unarith3(b0: int, b1: int, b2: int)
    requires 0xE0 <= b0 <= 0xEF && 0x80 <= b1 <= 0xBF && 0x80 <= b2 <= 0xBF
    requires b0 == 0xE0 ==> b1 >= 0xA0
    requires b0 == 0xED ==> b1 <= 0x9F
    ensures var cp := (b0 - 0xE0) * 0x1000 + (b1 - 0x80) * 0x40 + (b2 - 0x80);
            0x800 <= cp < 0x1_0000 && !IsSurrogate(cp) &&
            cp / 0x1000 == b0 - 0xE0 && cp / 0x40 % 0x40 == b1 - 0x80 && cp % 0x40 == b2 - 0x80
  {
    var cp := (b0 - 0xE0) * 0x1000 + (b1 - 0x80) * 0x40 + (b2 - 0x80);
    var q := (b0 - 0xE0) * 0x40 + (b1 - 0x80);
    assert cp == q * 0x40 + (b2 - 0x80);
    assert cp / 0x40 == q;
    assert q / 0x40 == b0 - 0xE0 && q % 0x40 == b1 - 0x80;
  }

  /** Four-byte form: decoding a well-formed quadruple and encoding again. */
  lemma Utf8Unarith4(b0: int, b1: int, b2: int, b3: int)
    requires 0xF0 <= b0 <= 0xF4 && 0x80 <= b1 <= 0xBF && 0x80 <= b2 <= 0xBF && 0x80 <= b3 <= 0xBF
    requires b0 == 0xF0 ==> b1 >= 0x90
    requires b0 == 0xF4 ==> b1 <= 0x8F
    ensures var cp := (b0 - 0xF0) * 0x4_0000 + (b1 - 0x80) * 0x1000 + (b2 - 0x80) * 0x40 + (b3 - 0x80);
            0x1_0000 <= cp <= MaxCodepoint &&
            cp / 0x4_0000 == b0 - 0xF0 && cp / 0x1000 % 0x40 == b1 - 0x80 &&
            cp / 0x40 % 0x40 == b2 - 0x80 && cp % 0x40 == b3 - 0x80
  {
    var cp := (b0 - 0xF0) * 0x4_0000 + (b1 - 0x80) * 0x1000 + (b2 - 0x80) * 0x40 + (b3 - 0x80);
    var q2 := (b0 - 0xF0) * 0x40 + (b1 - 0x80);
    var q := q2 * 0x40 + (b2 - 0x80);
    assert cp == q * 0x40 + (b3 - 0x80);
    assert cp / 0x40 == q;
    assert q / 0x40 == q2 && q % 0x40 == b2 - 0x80;
    assert cp / 0x1000 == q2;
    assert q2 / 0x40 == b0 - 0xF0 && q2 % 0x40 == b1 - 0x80;
    assert cp / 0x4_0000 == b0 - 0xF0;
  }

  /** A well-formed sequence carries a scalar value, and is that value's encoding. */
  lemma Utf8DecodeThenEncode(s: seq<Byte>)
    requires WellFormedLength(s) != 0
    ensures var n := WellFormedLength(s);
            var cp := DecodeValue(s, n);
            0 <= cp <= MaxCodepoint && !IsSurrogate(cp) && Utf8Encode(cp) == s[..n]
  {
    var n := WellFormedLength(s);
    var cp := DecodeValue(s, n);
    if n == 2 {
      Utf8Unarith2(s[0], s[1]);
    } else if n == 3 {
      assert IsTrailByte(s[2]);
      Utf8Unarith3(s[0], s[1], s[2]);
    } else if n == 4 {
      assert IsTrailByte(s[2]) && IsTrailByte(s[3]);
      Utf8Unarith4(s[0], s[1], s[2], s[3]);
    }
  }

  // UTF-16 (RFC 2781) ----------------------------------------------------

  /** A lead (high) surrogate, 0xD800..0xDBFF. */
  predicate IsLead(u: int)
  {
    0xD800 <= u <= 0xDBFF
  }

  /** A trail (low) surrogate, 0xDC00..0xDFFF. */
  predicate IsTrail(u: int)
  {
    0xDC00 <= u <= 0xDFFF
  }

  /**
   * The code point of a surrogate pair, per section 2.2 of RFC 2781: ten
   * bits from each unit, plus 0x10000.
   */
  function Supplementary(lead: Char16, trail: Char16): (cp: nat)
    requires IsLead(lead) && IsTrail(trail)
    ensures 0x1_0000 <= cp <= MaxCodepoint
  {
    (lead - 0xD800) * 0x400 + (trail - 0xDC00) + 0x1_0000
  }

  /**
   * The UTF-16 encoding of a code point, per section 2.1 of RFC 2781: one
   * unit below 0x10000, else a lead and a trail surrogate.
   */
  function Utf16Encode(cp: nat): (r: seq<Char16>)
    requires cp <= MaxCodepoint
    ensures |r| == if cp < 0x1_0000 then 1 else 2
  {
    if cp < 0x1_0000 then [cp]
    else [0xD800 + (cp - 0x1_0000) / 0x400, 0xDC00 + (cp - 0x1_0000) % 0x400]
  }

  /** A surrogate pair decodes back to the code point it encodes. */
  lemma Utf16PairRoundTrip(cp: nat)
    requires 0x1_0000 <= cp <= MaxCodepoint
    ensures var r := Utf16Encode(cp);
            IsLead(r[0]) && IsTrail(r[1]) && Supplementary(r[0], r[1]) == cp
  {
  }

  /** Encoding the code point of a surrogate pair gives the pair back. */
  lemma Utf16PairEncodes(lead: Char16, trail: Char16)
    requires IsLead(lead) && IsTrail(trail)
    ensures Utf16Encode(Supplementary(lead, trail)) == [lead, trail]
  {
    var cp := Supplementary(lead, trail);
    assert (cp - 0x1_0000) / 0x400 == lead - 0xD800;
    assert (cp - 0x1_0000) % 0x400 == trail - 0xDC00;
  }

  /**
   * The next code point of a UTF-16 input: a lead followed by a trail
   * surrogate yields their supplementary code point; any other unit yields
   * itself (a lone surrogate then fails IsValidCodepoint).
   */
  function NextUtf16(s: seq<Char16>): (d: Decoded)
    requires s != []
    ensures 1 <= d.length <= |s| && d.length <= 2
    ensures 0 <= d.codePoint <= MaxCodepoint
  {
    if |s| >= 2 && IsLead(s[0]) && IsTrail(s[1]) then Decoded(Supplementary(s[0], s[1]), 2)
    else Decoded(s[0], 1)
  }

  // ReadUnicodeCharacter / WriteUnicodeCharacter --------------------------

  /**
   * The result of ReadUnicodeCharacter: the success flag, the updated
   * char_index (the last unit read) and the code point.
   */
  datatype ReadResult = ReadResult(ok: bool, lastIndex: nat, codePoint: int)

  /**
   * ReadUnicodeCharacter over UTF-8: reads the code point starting at
   * charIndex. On success lastIndex is the last byte read, so that
   * lastIndex + 1 starts the next character, and those bytes are exactly
   * the code point's encoding.
   */
  function ReadUnicodeCharacter8(src: seq<Byte>, charIndex: nat, policy: MalformedPolicy): (r: ReadResult)
    requires charIndex < |src|
    ensures charIndex <= r.lastIndex < |src|
    ensures r.ok <==> WellFormedLength(src[charIndex..]) != 0
    ensures r.ok ==> 0 <= r.codePoint <= MaxCodepoint && IsValidCodepoint(r.codePoint) &&
                     src[charIndex..r.lastIndex + 1] == Utf8Encode(r.codePoint)
  {
    var rest := src[charIndex..];
    var d := NextUtf8(rest, policy);
    var r := ReadResult(IsValidCodepoint(ToUint32(d.codePoint)), charIndex + d.length - 1, d.codePoint);
    if WellFormedLength(rest) != 0 then
      Utf8DecodeThenEncode(rest);
      assert src[charIndex..r.lastIndex + 1] == rest[..d.length];
      r
    else
      assert d.codePoint == ErrorSentinel;
      r
  }

  /**
   * ReadUnicodeCharacter over UTF-16: a surrogate pair is read as one
   * code point and lastIndex is its trail unit; success exactly when no
   * unpaired surrogate is met, and the units read encode the code point.
   */
  function ReadUnicodeCharacter16(src: seq<Char16>, charIndex: nat): (r: ReadResult)
    requires charIndex < |src|
    ensures charIndex <= r.lastIndex < |src|
    ensures r.ok <==> !IsSurrogate(src[charIndex]) ||
                      (IsLead(src[charIndex]) && charIndex + 1 < |src| && IsTrail(src[charIndex + 1]))
    ensures r.ok ==> 0 <= r.codePoint <= MaxCodepoint && IsValidCodepoint(r.codePoint) &&
                     src[charIndex..r.lastIndex + 1] == Utf16Encode(r.codePoint)
  {
    var d := NextUtf16(src[charIndex..]);
    var r := ReadResult(IsValidCodepoint(d.codePoint), charIndex + d.length - 1, d.codePoint);
    if d.length == 2 then
      Utf16PairEncodes(src[charIndex], src[charIndex + 1]);
      assert src[charIndex..r.lastIndex + 1] == [src[charIndex], src[charIndex + 1]];
      r
    else
      r
  }

  /** The result of WriteUnicodeCharacter: the grown output and the units written. */
  datatype Written<T> = Written(output: seq<T>, count: nat)

  /** WriteUnicodeCharacter into UTF-8: appends the code point's encoding. */
  function WriteUnicodeCharacter8(cp: nat, output: seq<Byte>): (w: Written<Byte>)
    requires cp <= MaxCodepoint
    ensures 1 <= w.count <= 4 && |w.output| == |output| + w.count
    ensures w.output[..|output|] == output
  {
    Written(output + Utf8Encode(cp), |Utf8Encode(cp)|)
  }

  /** WriteUnicodeCharacter into UTF-16: appends one unit or a surrogate pair. */
  function WriteUnicodeCharacter16(cp: nat, output: seq<Char16>): (w: Written<Char16>)
    requires cp <= MaxCodepoint
    ensures w.count == (if cp < 0x1_0000 then 1 else 2) && |w.output| == |output| + w.count
    ensures w.output[..|output|] == output
  {
    Written(output + Utf16Encode(cp), |Utf16Encode(cp)|)
  }

  /** Reading back what WriteUnicodeCharacter appended gives the code point. */
  lemma ReadAfterWrite8(cp: nat, output: seq<Byte>, policy: MalformedPolicy)
    requires cp <= MaxCodepoint && IsValidCodepoint(cp)
    ensures var w := WriteUnicodeCharacter8(cp, output);
            ReadUnicodeCharacter8(w.output, |output|, policy) ==
              ReadResult(true, |output| + w.count - 1, cp)
  {
    var w := WriteUnicodeCharacter8(cp, output);
    assert w.output[|output|..] == Utf8Encode(cp) + [];
    Utf8EncodeThenDecode(cp, []);
  }

  /** Reading back what WriteUnicodeCharacter appended gives the code point. */
  lemma ReadAfterWrite16(cp: nat, output: seq<Char16>)
    requires cp <= MaxCodepoint && IsValidCodepoint(cp)
    ensures var w := WriteUnicodeCharacter16(cp, output);
            ReadUnicodeCharacter16(w.output, |output|) ==
              ReadResult(true, |output| + w.count - 1, cp)
  {
    var w := WriteUnicodeCharacter16(cp, output);
    assert w.output[|output|..] == Utf16Encode(cp);
    if cp >= 0x1_0000 {
      Utf16PairRoundTrip(cp);
    }
  }
}
