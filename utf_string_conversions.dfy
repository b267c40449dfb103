/**
 * The UTF-8 <-> UTF-16 converters of win/winbase/strings/
 * utf_string_conversions.cc: an ASCII fast path, else a decode, validate
 * and re-encode loop (DoUTFConversion) into a buffer preallocated at
 * SizeCoefficient units per input unit, substituting U+FFFD for every
 * code point that fails IsValidCodepoint and then reporting false.
 *
 * Each loop is proved against a recursive specification
 * (Utf8ToUtf16Spec, Utf16ToUtf8Spec), about which the round trips and
 * the meaning of the success flag are proved.
 */
module UtfStringConversions {
  import opened UtfStringConversionUtils

  /** kErrorCodePoint, the replacement character U+FFFD. */
  const ErrorCodePoint: nat := 0xFFFD

  /** The two encodings the converters handle. */
  datatype Encoding = Utf8 | Utf16

  /**
   * SizeCoefficient: the most destination units one source unit can
   * become, a bound that is reached. Only a conversion between the two
   * encodings is defined.
   */
  function SizeCoefficient(src: Encoding, dest: Encoding): (r: nat)
    requires src != dest
    ensures src == Utf8 ==> forall cp: nat :: cp <= MaxCodepoint ==>
              |Utf16Encode(cp)| <= r * |Utf8Encode(cp)|
    ensures src == Utf16 ==> forall cp: nat :: cp <= MaxCodepoint ==>
              |Utf8Encode(cp)| <= r * |Utf16Encode(cp)|
    ensures src == Utf16 ==> |Utf8Encode(ErrorCodePoint)| <= r
    ensures src == Utf8 ==> |Utf16Encode(0)| == r * |Utf8Encode(0)|
    ensures src == Utf16 ==> |Utf8Encode(0x800)| == r * |Utf16Encode(0x800)|
  {
    var r := if src == Utf16 && dest == Utf8 then 3 else 1;
    assert src == Utf16 ==> forall cp: nat :: cp <= MaxCodepoint ==> |Utf8Encode(cp)| <= r * |Utf16Encode(cp)|;
    r
  }

  /**
   * IsStringASCII: every unit is below 0x80, that is every unit is a code
   * point whose UTF-8 encoding is one byte.
   */
  predicate IsStringAscii(s: seq<int>)
    ensures IsStringAscii(s) <==>
              forall k :: 0 <= k < |s| ==> 0 <= s[k] <= MaxCodepoint && |Utf8Encode(s[k])| == 1
  {
    forall k :: 0 <= k < |s| ==> 0 <= s[k] < 0x80
  }

  /** One iteration of a conversion loop: the code point appended, the units consumed, and whether it was a valid one. */
  datatype Step = Step(codePoint: nat, length: nat, valid: bool)

  /** The result of a conversion: the output and the success flag. */
  datatype Conversion<T> = Conversion(output: seq<T>, ok: bool)

  /** Concatenation is associative. */
  lemma AppendAssociates<T>(a: seq<T>, b: seq<T>, c: seq<T>)
    ensures (a + b) + c == a + (b + c)
  {
  }

  /** A sequence is its prefix followed by the rest. */
  lemma TakeDropJoin<T>(s: seq<T>, n: nat)
    requires n <= |s|
    ensures s[..n] + s[n..] == s
  {
  }

  // UTF-8 input ----------------------------------------------------------

  /** A decoded value passes IsValidCodepoint exactly when it came from a well-formed sequence. */
  lemma Utf8NextIsValidIffWellFormed(s: seq<Byte>, policy: MalformedPolicy)
    requires s != []
    ensures var d := NextUtf8(s, policy);
            IsValidCodepoint(ToUint32(d.codePoint)) <==> WellFormedLength(s) != 0
    ensures WellFormedLength(s) != 0 ==> 0 <= NextUtf8(s, policy).codePoint <= MaxCodepoint
  {
    if WellFormedLength(s) != 0 {
      Utf8DecodeThenEncode(s);
    }
  }

  /**
   * One iteration of DoUTFConversion over UTF-8 input: the next code
   * point, or U+FFFD (and a failure) when it is not a valid one.
   */
  function Utf8Step(s: seq<Byte>, policy: MalformedPolicy): (st: Step)
    requires s != []
    ensures 1 <= st.length <= |s|
    ensures st.codePoint <= MaxCodepoint && !IsSurrogate(st.codePoint)
    ensures !st.valid ==> st.codePoint == ErrorCodePoint
    ensures st.codePoint >= 0x1_0000 ==> st.length == 4
  {
    var d := NextUtf8(s, policy);
    Utf8NextIsValidIffWellFormed(s, policy);
    if IsValidCodepoint(ToUint32(d.codePoint)) then Step(d.codePoint, d.length, true)
    else Step(ErrorCodePoint, d.length, false)
  }

  /** A step is valid exactly when the input starts with a well-formed sequence. */
  lemma Utf8StepValidIffWellFormed(s: seq<Byte>, policy: MalformedPolicy)
    requires s != []
    ensures Utf8Step(s, policy).valid <==> WellFormedLength(s) != 0
  {
    Utf8NextIsValidIffWellFormed(s, policy);
  }

  /** A valid step reads a whole well-formed sequence, which is its code point's encoding. */
  lemma Utf8StepEncodes(s: seq<Byte>, policy: MalformedPolicy)
    requires s != [] && Utf8Step(s, policy).valid
    ensures var st := Utf8Step(s, policy);
            st.length == WellFormedLength(s) && Utf8Encode(st.codePoint) == s[..st.length]
  {
    Utf8StepValidIffWellFormed(s, policy);
    Utf8DecodeThenEncode(s);
  }

  /**
   * What DoUTFConversion computes from UTF-8 input: the UTF-16 encodings
   * of the steps' code points, in order, and whether every step was
   * valid. The output is never longer than the input (SizeCoefficient 1).
   */
  function Utf8ToUtf16Spec(s: seq<Byte>, policy: MalformedPolicy): (r: Conversion<Char16>)
    ensures |r.output| <= |s|
    decreases |s|
  {
    if s == [] then Conversion([], true)
    else
      var st := Utf8Step(s, policy);
      var rest := Utf8ToUtf16Spec(s[st.length..], policy);
      Conversion(Utf16Encode(st.codePoint) + rest.output, st.valid && rest.ok)
  }

  /** A string of whole well-formed UTF-8 sequences, per section 4 of RFC 3629. */
  predicate WellFormedUtf8(s: seq<Byte>)
    decreases |s|
  {
    s == [] || (WellFormedLength(s) != 0 && WellFormedUtf8(s[WellFormedLength(s)..]))
  }

  /**
   * UTF-8 input converts without substitution exactly when it is
   * well-formed; the malformed-input policy plays no part in that.
   */
  lemma {:induction false} Utf8ToUtf16OkIffWellFormed(s: seq<Byte>, policy: MalformedPolicy)
    ensures Utf8ToUtf16Spec(s, policy).ok <==> WellFormedUtf8(s)
    decreases |s|
  {
    if s != [] {
      var st := Utf8Step(s, policy);
      Utf8StepValidIffWellFormed(s, policy);
      Utf8ToUtf16OkIffWellFormed(s[st.length..], policy);
    }
  }

  /** CBU16_APPEND_UNSAFE: writes the UTF-16 encoding of cp at dest[size..]. */
  method AppendUtf16(dest: array<Char16>, size: nat, cp: nat) returns (newSize: nat)
    requires cp <= MaxCodepoint && size + |Utf16Encode(cp)| <= dest.Length
    modifies dest
    ensures newSize == size + |Utf16Encode(cp)|
    ensures dest[..newSize] == old(dest[..size]) + Utf16Encode(cp)
  {
    if cp < 0x1_0000 {
      dest[size] := cp;
      newSize := size + 1;
    } else {
      dest[size] := 0xD800 + (cp - 0x1_0000) / 0x400;
      dest[size + 1] := 0xDC00 + (cp - 0x1_0000) % 0x400;
      newSize := size + 2;
    }
  }

  /** Utf8Step is CBU8_NEXT followed by the IsValidCodepoint check. */
  lemma Utf8StepOfNext(s: seq<Byte>, policy: MalformedPolicy)
    requires s != []
    ensures var d := NextUtf8(s, policy);
            var valid := IsValidCodepoint(ToUint32(d.codePoint));
            Utf8Step(s, policy).length == d.length &&
            Utf8Step(s, policy).valid == valid &&
            Utf8Step(s, policy).codePoint == if valid then d.codePoint else ErrorCodePoint
  {
  }

  /**
   * One iteration of the UTF-8 loop keeps its output invariant: the
   * step's code point is appended to what was written before.
   */
  lemma Utf8AdvanceOutput(src: seq<Byte>, policy: MalformedPolicy, i0: nat, i: nat, codePoint: nat, before: seq<Char16>)
    requires i0 < |src|
    requires codePoint == Utf8Step(src[i0..], policy).codePoint && i == i0 + Utf8Step(src[i0..], policy).length
    requires before + Utf8ToUtf16Spec(src[i0..], policy).output == Utf8ToUtf16Spec(src, policy).output
    ensures i <= |src| && codePoint <= MaxCodepoint
    ensures |before| + |Utf16Encode(codePoint)| <= |Utf8ToUtf16Spec(src, policy).output|
    ensures (before + Utf16Encode(codePoint)) + Utf8ToUtf16Spec(src[i..], policy).output ==
            Utf8ToUtf16Spec(src, policy).output
  {
    var st := Utf8Step(src[i0..], policy);
    var rest := Utf8ToUtf16Spec(src[i..], policy);
    assert src[i0..][st.length..] == src[i..];
    assert Utf8ToUtf16Spec(src[i0..], policy).output == Utf16Encode(codePoint) + rest.output;
    AppendAssociates(before, Utf16Encode(codePoint), rest.output);
  }

  /** One iteration of the UTF-8 loop keeps its success invariant: success drops with an invalid step. */
  lemma Utf8AdvanceOk(src: seq<Byte>, policy: MalformedPolicy, i0: nat, i: nat, success0: bool, success: bool)
    requires i0 < |src| && success == (success0 && Utf8Step(src[i0..], policy).valid)
    requires i == i0 + Utf8Step(src[i0..], policy).length
    requires (success0 && Utf8ToUtf16Spec(src[i0..], policy).ok) == Utf8ToUtf16Spec(src, policy).ok
    ensures (success && Utf8ToUtf16Spec(src[i..], policy).ok) == Utf8ToUtf16Spec(src, policy).ok
  {
    var st := Utf8Step(src[i0..], policy);
    assert src[i0..][st.length..] == src[i..];
    assert Utf8ToUtf16Spec(src[i0..], policy).ok == (st.valid && Utf8ToUtf16Spec(src[i..], policy).ok);
  }

  /**
   * DoUTFConversion over UTF-8 input into a buffer of at least |src|
   * units: the units written and the success flag are those of
   * Utf8ToUtf16Spec.
   */
  method DoUtf8Conversion(src: seq<Byte>, policy: MalformedPolicy, dest: array<Char16>)
      returns (success: bool, destLen: nat)
    requires dest.Length >= |src|
    modifies dest
    ensures destLen <= |src|
    ensures dest[..destLen] == Utf8ToUtf16Spec(src, policy).output
    ensures success == Utf8ToUtf16Spec(src, policy).ok
  {
    success := true;
    destLen := 0;
    var i := 0;
    assert src[i..] == src;
    while i < |src|
      invariant 0 <= i <= |src|
      invariant destLen <= dest.Length
      invariant dest[..destLen] + Utf8ToUtf16Spec(src[i..], policy).output ==
                Utf8ToUtf16Spec(src, policy).output
      invariant (success && Utf8ToUtf16Spec(src[i..], policy).ok) == Utf8ToUtf16Spec(src, policy).ok
    {
      ghost var before := dest[..destLen];
      ghost var success0 := success;
      ghost var i0 := i;
      // CBU8_NEXT
      var d := NextUtf8(src[i..], policy);
      var codePoint := d.codePoint;
      i := i + d.length;
      if !IsValidCodepoint(ToUint32(codePoint)) {
        success := false;
        codePoint := ErrorCodePoint;
      }
      Utf8StepOfNext(src[i0..], policy);
      Utf8AdvanceOutput(src, policy, i0, i, codePoint, before);
      Utf8AdvanceOk(src, policy, i0, i, success0, success);
      destLen := AppendUtf16(dest, destLen, codePoint);
    }
    assert src[i..] == [];
  }

  // UTF-16 input ---------------------------------------------------------

  /** The result of ConvertSingleChar: the code point and whether it was kept. */
  datatype Single = Single(codePoint: nat, valid: bool)

  /**
   * ConvertSingleChar: a unit that is not a surrogate stands for itself;
   * a surrogate becomes U+FFFD and a failure.
   */
  function ConvertSingleChar(u: Char16): (r: Single)
    ensures r.valid <==> !IsSurrogate(u)
    ensures r.codePoint == if r.valid then u else ErrorCodePoint
  {
    if IsSurrogate(u) || !IsValidCodepoint(u) then Single(ErrorCodePoint, false) else Single(u, true)
  }

  /**
   * One iteration of DoUTFConversion over UTF-16 input: a lead surrogate
   * followed by a trail surrogate is one supplementary code point
   * (section 2.2 of RFC 2781); any other unit is converted on its own.
   */
  function Utf16Step(s: seq<Char16>): (st: Step)
    requires s != []
    ensures 1 <= st.length <= |s| && st.length <= 2
    ensures st.codePoint <= MaxCodepoint && !IsSurrogate(st.codePoint)
    ensures st.length == 2 <==> |s| >= 2 && IsLead(s[0]) && IsTrail(s[1])
    ensures st.valid <==> st.length == 2 || !IsSurrogate(s[0])
    ensures !st.valid ==> st.codePoint == ErrorCodePoint
    ensures st.length == 1 ==> st.codePoint < 0x1_0000
  {
    if |s| >= 2 && IsLead(s[0]) && IsTrail(s[1]) then
      var cp := Supplementary(s[0], s[1]);
      if !IsValidCodepoint(cp) then Step(ErrorCodePoint, 2, false) else Step(cp, 2, true)
    else
      var c := ConvertSingleChar(s[0]);
      Step(c.codePoint, 1, c.valid)
  }

  /** A valid step reads exactly the UTF-16 encoding of its code point. */
  lemma Utf16StepEncodes(s: seq<Char16>)
    requires s != [] && Utf16Step(s).valid
    ensures Utf16Encode(Utf16Step(s).codePoint) == s[..Utf16Step(s).length]
  {
    if Utf16Step(s).length == 2 {
      Utf16PairEncodes(s[0], s[1]);
    }
  }

  /**
   * What DoUTFConversion computes from UTF-16 input: the UTF-8 encodings
   * (section 3 of RFC 3629) of the steps' code points, in order, and
   * whether every step was valid. The output is at most three bytes per
   * input unit (SizeCoefficient 3).
   */
  function Utf16ToUtf8Spec(s: seq<Char16>): (r: Conversion<Byte>)
    ensures |r.output| <= 3 * |s|
    decreases |s|
  {
    if s == [] then Conversion([], true)
    else
      var st := Utf16Step(s);
      var rest := Utf16ToUtf8Spec(s[st.length..]);
      Conversion(Utf8Encode(st.codePoint) + rest.output, st.valid && rest.ok)
  }

  /** The unit at i is not an unpaired surrogate. */
  predicate WellPairedAt(s: seq<Char16>, i: nat)
    requires i < |s|
  {
    (IsLead(s[i]) ==> i + 1 < |s| && IsTrail(s[i + 1])) &&
    (IsTrail(s[i]) ==> 0 < i && IsLead(s[i - 1]))
  }

  /** Every lead surrogate is followed by a trail surrogate and every trail surrogate preceded by a lead. */
  predicate WellFormedUtf16(s: seq<Char16>)
  {
    forall i :: 0 <= i < |s| ==> WellPairedAt(s, i)
  }

  /** Dropping a first unit that is not a lead surrogate keeps well-formedness of the rest, and loses it only at that unit. */
  lemma WellFormedUtf16Tail(s: seq<Char16>)
    requires s != [] && !IsLead(s[0])
    ensures WellFormedUtf16(s) <==> !IsTrail(s[0]) && WellFormedUtf16(s[1..])
  {
    var t := s[1..];
    if WellFormedUtf16(s) {
      assert WellPairedAt(s, 0);
      forall i | 0 <= i < |t| ensures WellPairedAt(t, i) {
        assert WellPairedAt(s, i + 1);
      }
    }
    if !IsTrail(s[0]) && WellFormedUtf16(t) {
      forall i | 0 <= i < |s| ensures WellPairedAt(s, i) {
        if i > 0 {
          assert WellPairedAt(t, i - 1);
          if i > 1 {
            assert WellPairedAt(t, i - 2);
          }
        }
      }
    }
  }

  /**
   * UTF-16 input converts without substitution exactly when it has no
   * unpaired surrogate, a lone final unit included.
   */
  lemma {:induction false} Utf16ToUtf8OkIffWellFormed(s: seq<Char16>)
    ensures Utf16ToUtf8Spec(s).ok <==> WellFormedUtf16(s)
    decreases |s|
  {
    if s != [] {
      var st := Utf16Step(s);
      Utf16ToUtf8OkIffWellFormed(s[st.length..]);
      if st.length == 2 {
        var t := s[2..];
        if WellFormedUtf16(t) {
          forall i | 0 <= i < |s| ensures WellPairedAt(s, i) {
            if i >= 2 {
              assert WellPairedAt(t, i - 2);
            }
          }
        }
        if WellFormedUtf16(s) {
          forall i | 0 <= i < |t| ensures WellPairedAt(t, i) {
            assert WellPairedAt(s, i + 2);
          }
        }
      } else if IsLead(s[0]) {
        assert !WellPairedAt(s, 0);
      } else {
        WellFormedUtf16Tail(s);
      }
    }
  }

  /**
   * One iteration of the UTF-16 loop keeps its invariant: the step's code
   * point is appended to what was written before, and success drops
   * with an invalid step.
   */
  lemma Utf16Advance(src: seq<Char16>, i0: nat, i: nat, codePoint: nat, before: seq<Byte>, success0: bool, success: bool)
    requires i0 < |src| && success == (success0 && Utf16Step(src[i0..]).valid)
    requires codePoint == Utf16Step(src[i0..]).codePoint && i == i0 + Utf16Step(src[i0..]).length
    requires before + Utf16ToUtf8Spec(src[i0..]).output == Utf16ToUtf8Spec(src).output
    requires (success0 && Utf16ToUtf8Spec(src[i0..]).ok) == Utf16ToUtf8Spec(src).ok
    ensures i <= |src| && codePoint <= MaxCodepoint
    ensures |before| + |Utf8Encode(codePoint)| <= |Utf16ToUtf8Spec(src).output|
    ensures (before + Utf8Encode(codePoint)) + Utf16ToUtf8Spec(src[i..]).output == Utf16ToUtf8Spec(src).output
    ensures (success && Utf16ToUtf8Spec(src[i..]).ok) == Utf16ToUtf8Spec(src).ok
  {
    var st := Utf16Step(src[i0..]);
    var rest := Utf16ToUtf8Spec(src[i..]);
    assert src[i0..][st.length..] == src[i..];
    assert Utf16ToUtf8Spec(src[i0..]) == Conversion(Utf8Encode(codePoint) + rest.output, st.valid && rest.ok);
    AppendAssociates(before, Utf8Encode(codePoint), rest.output);
  }

  /** CBU8_APPEND_UNSAFE: writes the UTF-8 encoding of cp at dest[size..]. */
  method AppendUtf8(dest: array<Byte>, size: nat, cp: nat) returns (newSize: nat)
    requires cp <= MaxCodepoint && size + |Utf8Encode(cp)| <= dest.Length
    modifies dest
    ensures newSize == size + |Utf8Encode(cp)|
    ensures dest[..newSize] == old(dest[..size]) + Utf8Encode(cp)
  {
    if cp < 0x80 {
      dest[size] := cp;
      newSize := size + 1;
    } else if cp < 0x800 {
      dest[size] := 0xC0 + cp / 0x40;
      dest[size + 1] := 0x80 + cp % 0x40;
      newSize := size + 2;
    } else if cp < 0x1_0000 {
      dest[size] := 0xE0 + cp / 0x1000;
      dest[size + 1] := 0x80 + cp / 0x40 % 0x40;
      dest[size + 2] := 0x80 + cp % 0x40;
      newSize := size + 3;
    } else {
      dest[size] := 0xF0 + cp / 0x4_0000;
      dest[size + 1] := 0x80 + cp / 0x1000 % 0x40;
      dest[size + 2] := 0x80 + cp / 0x40 % 0x40;
      dest[size + 3] := 0x80 + cp % 0x40;
      newSize := size + 4;
    }
  }

  /**
   * DoUTFConversion over UTF-16 input into a buffer of at least 3 * |src|
   * bytes. The loop always keeps one more unit in view so that a pair is
   * never split; a last unit left over is converted on its own.
   */
  method DoUtf16Conversion(src: seq<Char16>, dest: array<Byte>) returns (success: bool, destLen: nat)
    requires dest.Length >= 3 * |src|
    modifies dest
    ensures destLen <= 3 * |src|
    ensures dest[..destLen] == Utf16ToUtf8Spec(src).output
    ensures success == Utf16ToUtf8Spec(src).ok
  {
    success := true;
    destLen := 0;
    var i := 0;
    assert src[i..] == src;
    while i < |src| - 1
      invariant 0 <= i <= |src|
      invariant destLen <= dest.Length
      invariant dest[..destLen] + Utf16ToUtf8Spec(src[i..]).output == Utf16ToUtf8Spec(src).output
      invariant (success && Utf16ToUtf8Spec(src[i..]).ok) == Utf16ToUtf8Spec(src).ok
    {
      ghost var before := dest[..destLen];
      ghost var success0 := success;
      ghost var i0 := i;
      var codePoint: nat;
      if IsLead(src[i]) && IsTrail(src[i + 1]) {
        codePoint := Supplementary(src[i], src[i + 1]);
        if !IsValidCodepoint(codePoint) {
          codePoint := ErrorCodePoint;
          success := false;
        }
        i := i + 2;
      } else {
        var c := ConvertSingleChar(src[i]);
        if !c.valid {
          success := false;
        }
        codePoint := c.codePoint;
        i := i + 1;
      }
      Utf16Advance(src, i0, i, codePoint, before, success0, success);
      destLen := AppendUtf8(dest, destLen, codePoint);
    }
    if i < |src| {
      ghost var before := dest[..destLen];
      ghost var success0 := success;
      var c := ConvertSingleChar(src[i]);
      if !c.valid {
        success := false;
      }
      Utf16Advance(src, i, i + 1, c.codePoint, before, success0, success);
      destLen := AppendUtf8(dest, destLen, c.codePoint);
      i := i + 1;
    }
    assert src[i..] == [];
  }

  // UTFConversion and the public converters ------------------------------

  /** A unit-for-unit copy of 8-bit units into 16-bit units. */
  function Widen(s: seq<Byte>): (r: seq<Char16>)
    ensures |r| == |s| && forall k :: 0 <= k < |s| ==> r[k] == s[k]
  {
    seq(|s|, k requires 0 <= k < |s| => s[k])
  }

  /** Widening copies the first unit and then widens the rest. */
  lemma WidenCons(s: seq<Byte>)
    requires s != []
    ensures Widen(s) == [s[0]] + Widen(s[1..])
  {
  }

  /** A unit-for-unit copy of 16-bit units below 0x100 into 8-bit units. */
  function Narrow(s: seq<Char16>): (r: seq<Byte>)
    requires forall k :: 0 <= k < |s| ==> s[k] < 0x100
    ensures |r| == |s| && forall k :: 0 <= k < |s| ==> r[k] == s[k]
  {
    seq(|s|, k requires 0 <= k < |s| => s[k])
  }

  /** An ASCII byte converts to the one unit of the same value. */
  lemma Utf8AsciiHead(s: seq<Byte>, policy: MalformedPolicy)
    requires s != [] && s[0] < 0x80
    ensures var rest := Utf8ToUtf16Spec(s[1..], policy);
            Utf8ToUtf16Spec(s, policy) == Conversion([s[0]] + rest.output, rest.ok)
  {
    assert WellFormedLength(s) == 1 && DecodeValue(s, 1) == s[0];
    assert Utf8Step(s, policy) == Step(s[0], 1, true);
  }

  /** On ASCII input the general UTF-8 conversion is the unit-for-unit copy. */
  lemma {:induction false} Utf8AsciiFastPathAgrees(s: seq<Byte>, policy: MalformedPolicy)
    requires IsStringAscii(s)
    ensures Utf8ToUtf16Spec(s, policy) == Conversion(Widen(s), true)
    decreases |s|
  {
    if s != [] {
      Utf8AsciiHead(s, policy);
      Utf8AsciiFastPathAgrees(s[1..], policy);
      WidenCons(s);
    }
  }

  /** On ASCII input the general UTF-16 conversion is the unit-for-unit copy. */
  lemma {:induction false} Utf16AsciiFastPathAgrees(s: seq<Char16>)
    requires IsStringAscii(s)
    ensures Utf16ToUtf8Spec(s) == Conversion(Narrow(s), true)
    decreases |s|
  {
    if s != [] {
      Utf16AsciiFastPathAgrees(s[1..]);
      assert Narrow(s) == [s[0]] + Narrow(s[1..]);
    }
  }

  /**
   * UTFConversion from UTF-8: ASCII input is copied and succeeds;
   * anything else goes through DoUTFConversion in a buffer of
   * SizeCoefficient units per input byte, cut to the length written.
   */
  method Utf8ToUtf16Conversion(src: seq<Byte>, policy: MalformedPolicy) returns (ok: bool, dest: seq<Char16>)
    ensures Conversion(dest, ok) == Utf8ToUtf16Spec(src, policy)
    ensures IsStringAscii(src) ==> ok && dest == Widen(src)
    ensures |dest| <= SizeCoefficient(Utf8, Utf16) * |src|
  {
    if IsStringAscii(src) {
      Utf8AsciiFastPathAgrees(src, policy);
      return true, Widen(src);
    }
    var buffer := new Char16[|src| * SizeCoefficient(Utf8, Utf16)];
    var destLen;
    ok, destLen := DoUtf8Conversion(src, policy, buffer);
    dest := buffer[..destLen];
  }

  /**
   * UTFConversion from UTF-16: ASCII input is copied and succeeds;
   * anything else goes through DoUTFConversion in a buffer of
   * SizeCoefficient bytes per input unit, cut to the length written.
   */
  method Utf16ToUtf8Conversion(src: seq<Char16>) returns (ok: bool, dest: seq<Byte>)
    ensures Conversion(dest, ok) == Utf16ToUtf8Spec(src)
    ensures IsStringAscii(src) ==> ok && dest == Narrow(src)
    ensures |dest| <= SizeCoefficient(Utf16, Utf8) * |src|
  {
    if IsStringAscii(src) {
      Utf16AsciiFastPathAgrees(src);
      return true, Narrow(src);
    }
    var buffer := new Byte[|src| * SizeCoefficient(Utf16, Utf8)];
    var destLen;
    ok, destLen := DoUtf16Conversion(src, buffer);
    dest := buffer[..destLen];
  }

  /** UTF8ToUTF16(src, src_len, output): the flag and the converted text. */
  method UTF8ToUTF16(src: seq<Byte>, policy: MalformedPolicy) returns (ok: bool, output: seq<Char16>)
    ensures ok <==> WellFormedUtf8(src)
    ensures output == Utf8ToUtf16Spec(src, policy).output
  {
    ok, output := Utf8ToUtf16Conversion(src, policy);
    Utf8ToUtf16OkIffWellFormed(src, policy);
  }

  /** UTF8ToUTF16(StringPiece): the converted text, the flag dropped. */
  method UTF8ToUTF16Piece(utf8: seq<Byte>, policy: MalformedPolicy) returns (output: seq<Char16>)
    ensures output == Utf8ToUtf16Spec(utf8, policy).output
  {
    var ok;
    ok, output := Utf8ToUtf16Conversion(utf8, policy);
  }

  /** UTF16ToUTF8(src, src_len, output): the flag and the converted text. */
  method UTF16ToUTF8(src: seq<Char16>) returns (ok: bool, output: seq<Byte>)
    ensures ok <==> WellFormedUtf16(src)
    ensures output == Utf16ToUtf8Spec(src).output
  {
    ok, output := Utf16ToUtf8Conversion(src);
    Utf16ToUtf8OkIffWellFormed(src);
  }

  /** UTF16ToUTF8(StringPiece16): the converted text, the flag dropped. */
  method UTF16ToUTF8Piece(utf16: seq<Char16>) returns (output: seq<Byte>)
    ensures output == Utf16ToUtf8Spec(utf16).output
  {
    var ok;
    ok, output := Utf16ToUtf8Conversion(utf16);
  }

  // Round trips ----------------------------------------------------------

  /** Converting a scalar value's UTF-8 encoding yields its UTF-16 encoding first. */
  lemma Utf8ToUtf16OfEncoding(cp: nat, rest: seq<Byte>, policy: MalformedPolicy)
    requires cp <= MaxCodepoint && !IsSurrogate(cp)
    ensures Utf8ToUtf16Spec(Utf8Encode(cp) + rest, policy) ==
              var r := Utf8ToUtf16Spec(rest, policy);
              Conversion(Utf16Encode(cp) + r.output, r.ok)
  {
    var e := Utf8Encode(cp);
    Utf8EncodeThenDecode(cp, rest);
    var st := Utf8Step(e + rest, policy);
    assert st.codePoint == cp;
    assert (e + rest)[|e|..] == rest;
  }

  /** Converting a scalar value's UTF-16 encoding yields its UTF-8 encoding first. */
  lemma Utf16ToUtf8OfEncoding(cp: nat, rest: seq<Char16>)
    requires cp <= MaxCodepoint && !IsSurrogate(cp)
    ensures Utf16ToUtf8Spec(Utf16Encode(cp) + rest) ==
              var r := Utf16ToUtf8Spec(rest);
              Conversion(Utf8Encode(cp) + r.output, r.ok)
  {
    var e := Utf16Encode(cp);
    if cp >= 0x1_0000 {
      Utf16PairRoundTrip(cp);
    }
    var st := Utf16Step(e + rest);
    assert st.codePoint == cp;
    assert (e + rest)[|e|..] == rest;
  }

  /** UTF-16 that converts cleanly to UTF-8 converts back to itself. */
  lemma {:induction false} Utf16ToUtf8ToUtf16(s: seq<Char16>, policy: MalformedPolicy)
    requires Utf16ToUtf8Spec(s).ok
    ensures Utf8ToUtf16Spec(Utf16ToUtf8Spec(s).output, policy) == Conversion(s, true)
    decreases |s|
  {
    if s != [] {
      var st := Utf16Step(s);
      var rest := s[st.length..];
      var r := Utf16ToUtf8Spec(rest);
      assert Utf16ToUtf8Spec(s).output == Utf8Encode(st.codePoint) + r.output;
      Utf16ToUtf8ToUtf16(rest, policy);
      Utf16StepEncodes(s);
      Utf8ToUtf16OfEncoding(st.codePoint, r.output, policy);
      TakeDropJoin(s, st.length);
    }
  }

  /** UTF-8 that converts cleanly to UTF-16 converts back to itself. */
  lemma {:induction false} Utf8ToUtf16ToUtf8(s: seq<Byte>, policy: MalformedPolicy)
    requires Utf8ToUtf16Spec(s, policy).ok
    ensures Utf16ToUtf8Spec(Utf8ToUtf16Spec(s, policy).output) == Conversion(s, true)
    decreases |s|
  {
    if s != [] {
      var st := Utf8Step(s, policy);
      var rest := s[st.length..];
      var r := Utf8ToUtf16Spec(rest, policy);
      assert Utf8ToUtf16Spec(s, policy).output == Utf16Encode(st.codePoint) + r.output;
      Utf8ToUtf16ToUtf8(rest, policy);
      Utf8StepEncodes(s, policy);
      Utf16ToUtf8OfEncoding(st.codePoint, r.output);
      TakeDropJoin(s, st.length);
    }
  }

  // ASCII <-> UTF-16 ------------------------------------------------------

  /**
   * ASCIIToUTF16: each byte becomes one 16-bit unit. The bytes are
   * signed chars, so a byte of 0x80 or more is sign-extended to
   * 0xFF80..0xFFFF.
   */
  function ASCIIToUTF16(ascii: seq<Byte>): (r: seq<Char16>)
    ensures |r| == |ascii|
  {
    seq(|ascii|, k requires 0 <= k < |ascii| => if ascii[k] < 0x80 then ascii[k] else ascii[k] as int + 0xFF00)
  }

  /** UTF16ToASCII: each 16-bit unit is narrowed to its low byte. */
  function UTF16ToASCII(utf16: seq<Char16>): (r: seq<Byte>)
    ensures |r| == |utf16|
  {
    seq(|utf16|, k requires 0 <= k < |utf16| => utf16[k] % 0x100)
  }

  /** On ASCII input ASCIIToUTF16 agrees with UTF8ToUTF16, and maps unit for unit. */
  lemma AsciiToUtf16AgreesWithUtf8(s: seq<Byte>, policy: MalformedPolicy)
    requires IsStringAscii(s)
    ensures ASCIIToUTF16(s) == Widen(s) == Utf8ToUtf16Spec(s, policy).output
  {
    Utf8AsciiFastPathAgrees(s, policy);
  }

  /** On ASCII input UTF16ToASCII agrees with UTF16ToUTF8, and maps unit for unit. */
  lemma Utf16ToAsciiAgreesWithUtf8(s: seq<Char16>)
    requires IsStringAscii(s)
    ensures UTF16ToASCII(s) == Narrow(s) == Utf16ToUtf8Spec(s).output
  {
    Utf16AsciiFastPathAgrees(s);
  }

  /** Narrowing undoes widening for every byte string, ASCII or not. */
  lemma AsciiRoundTrip(s: seq<Byte>)
    ensures UTF16ToASCII(ASCIIToUTF16(s)) == s
  {
  }

  /** Widening undoes narrowing exactly on units below 0x80 or at 0xFF80 and above. */
  lemma Utf16AsciiRoundTrip(t: seq<Char16>)
    ensures ASCIIToUTF16(UTF16ToASCII(t)) == t <==>
              forall k :: 0 <= k < |t| ==> t[k] < 0x80 || t[k] >= 0xFF80
  {
    var w := ASCIIToUTF16(UTF16ToASCII(t));
    if forall k :: 0 <= k < |t| ==> t[k] < 0x80 || t[k] >= 0xFF80 {
      assert forall k :: 0 <= k < |t| ==> w[k] == t[k];
    }
    if w == t {
      forall k | 0 <= k < |t| ensures t[k] < 0x80 || t[k] >= 0xFF80 {
        assert w[k] == t[k];
      }
    }
  }
}
