/** `\uXXXX` escapes (tools/UnicodeConverter.tsx): every UTF-16 code unit becomes a backslash,
    `u` and four upper-case hex digits; decoding is one left-to-right `replace` with the global
    and ignore-case flags. The Quick Preview card (tools/QuickPreview.tsx) runs a variant of the
    same decoding, which differs from the converter's only on an upper-case `\U` escape. */
module UnicodeEscapes {
  import opened JsStrings
  import opened JsNumbers

  // ----- encoding -----

  /** The last `k` hex digits of `n`, upper case, most significant first. */
  function HexDigits(n: nat, k: nat): (h: JsString)
    ensures |h| == k
  {
    if k == 0 then [] else HexDigits(n / 16, k - 1) + [UpperHexChar(n % 16)]
  }

  /** The four hex digits of a code unit. `Hex4IsPaddedString` shows that this is
      `code.toString(16).toUpperCase().padStart(4, '0')`. */
  function Hex4(u: CodeUnit): (h: JsString)
    ensures |h| == 4
  {
    HexDigits(u, 4)
  }

  /** The digits are upper-case hex digits and, when `n` has at most `k` of them, their value
      is `n`. */
  lemma {:induction false} HexDigitsValue(n: nat, k: nat)
    requires n < Power(16, k)
    ensures AllDigitsIn(HexDigits(n, k), 16)
    ensures forall i :: 0 <= i < k ==> !IsLower(HexDigits(n, k)[i])
    ensures DigitsValue(HexDigits(n, k), 16) == n
  {
    if k > 0 {
      var h := HexDigits(n, k);
      SixteenDivision(n / 16, n % 16);
      HexDigitsValue(n / 16, k - 1);
      assert h[..k - 1] == HexDigits(n / 16, k - 1);
    }
  }

  lemma SixteenDivision(q: int, d: int)
    requires 0 <= d < 16
    ensures (q * 16 + d) / 16 == q && (q * 16 + d) % 16 == d
  {
  }

  /** `Hex4` has the properties the encoder relies on. */
  lemma Hex4Value(u: CodeUnit)
    ensures AllDigitsIn(Hex4(u), 16)
    ensures forall i :: 0 <= i < 4 ==> !IsLower(Hex4(u)[i])
    ensures DigitsValue(Hex4(u), 16) == u
  {
    assert Power(16, 4) == 0x1_0000;
    HexDigitsValue(u, 4);
  }

  /** `Hex4` is what the converter writes: `code.toString(16).toUpperCase().padStart(4, '0')`. */
  lemma Hex4IsPaddedString(u: CodeUnit)
    ensures Hex4(u) == PadStartZero(UpperAscii(NatToString(u, 16)), 4)
  {
    PaddedStringValue(u);
    Hex4Value(u);
    DigitsUnique(Hex4(u), PadStartZero(UpperAscii(NatToString(u, 16)), 4));
  }

  lemma PaddedStringValue(u: CodeUnit)
    ensures var padded := PadStartZero(UpperAscii(NatToString(u, 16)), 4);
            |padded| == 4 && AllDigitsIn(padded, 16) && DigitsValue(padded, 16) == u &&
            forall i :: 0 <= i < 4 ==> !IsLower(padded[i])
  {
    var digits := NatToString(u, 16);
    NatToStringLength(u, 16, 4);
    DigitsValueUpper(digits, 16);
    NatToStringRoundTrip(u, 16);
    var upper := UpperAscii(digits);
    assert forall i :: 0 <= i < |upper| ==> !IsLower(upper[i]);
    PaddedDigits(upper);
  }

  /** Zero-padding a short digit string without lower-case letters to four characters keeps
      its value. */
  lemma PaddedDigits(upper: JsString)
    requires |upper| <= 4 && AllDigitsIn(upper, 16)
    requires forall i :: 0 <= i < |upper| ==> !IsLower(upper[i])
    ensures var padded := PadStartZero(upper, 4);
            |padded| == 4 && AllDigitsIn(padded, 16) && DigitsValue(padded, 16) == DigitsValue(upper, 16) &&
            forall i :: 0 <= i < 4 ==> !IsLower(padded[i])
  {
    DigitsValueLeadingZeros(4 - |upper|, upper, 16);
    var padded := PadStartZero(upper, 4);
    assert padded == seq(4 - |upper|, _ => '0' as int) + upper;
    forall i | 0 <= i < 4 ensures !IsLower(padded[i]) {
      if i >= 4 - |upper| { assert padded[i] == upper[i - (4 - |upper|)]; }
    }
  }

  /** Two hex strings of the same length, without lower-case letters and with the same value,
      are equal. */
  lemma {:induction false} DigitsUnique(a: JsString, b: JsString)
    requires |a| == |b| && AllDigitsIn(a, 16) && AllDigitsIn(b, 16)
    requires forall i :: 0 <= i < |a| ==> !IsLower(a[i])
    requires forall i :: 0 <= i < |b| ==> !IsLower(b[i])
    requires DigitsValue(a, 16) == DigitsValue(b, 16)
    ensures a == b
  {
    if a != [] {
      var n := |a| - 1;
      var da, db := DigitValue(a[n]).value, DigitValue(b[n]).value;
      var va, vb := DigitsValue(a[..n], 16), DigitsValue(b[..n], 16);
      assert va * 16 + da == vb * 16 + db;
      SixteenDivision(va, da);
      SixteenDivision(vb, db);
      assert da == db && va == vb;
      DigitValueInjective(a[n], b[n]);
      DigitsUnique(a[..n], b[..n]);
      assert a == a[..n] + [a[n]] && b == b[..n] + [b[n]];
    }
  }

  lemma DigitValueInjective(x: CodeUnit, y: CodeUnit)
    requires DigitValue(x).Some? && DigitValue(x) == DigitValue(y) && !IsLower(x) && !IsLower(y)
    ensures x == y
  {
  }

  const Backslash: CodeUnit := 0x5C

  /** The escape of one code unit. */
  function Escape(u: CodeUnit): (e: JsString)
    ensures |e| == 6
  {
    [Backslash, 'u' as int] + Hex4(u)
  }

  /** `val.split('').map(...).join('')`: the escapes of all code units, in order. */
  function Encode(s: JsString): (r: JsString)
    ensures |r| == 6 * |s|
  {
    if s == [] then [] else Escape(s[0]) + Encode(s[1..])
  }

  // ----- decoding -----

  /** Whether `s` has a complete escape at `i`: `\`, `u` in either case (the `i` flag), and
      four hex digits in either case. */
  predicate EscapeAt(s: JsString, i: int)
  {
    0 <= i && i + 6 <= |s| && s[i] == Backslash && (s[i + 1] == 'u' as int || s[i + 1] == 'U' as int) &&
    IsDigitIn(s[i + 2], 16) && IsDigitIn(s[i + 3], 16) && IsDigitIn(s[i + 4], 16) && IsDigitIn(s[i + 5], 16)
  }

  /** `String.fromCharCode(x)`: ToUint16 of the number; NaN gives 0. */
  function FromCharCode(v: Option<int>): CodeUnit
  {
    if v.None? then 0 else v.value % 0x1_0000
  }

  /** Which of the two callers decodes. */
  datatype Decoder = Converter | QuickPreviewCard

  /** The replacement of one matched escape `m`. The converter reads the captured digits.
      The Quick Preview card deletes `\u` (lower case only) from the match and parses what is
      left, so an upper-case `\U` escape leaves the backslash in, parses as NaN and becomes
      the code unit 0. */
  function Replacement(m: JsString, d: Decoder): CodeUnit
    requires |m| == 6
  {
    match d
    case Converter => FromCharCode(ParseInt(m[2..], 16))
    case QuickPreviewCard => FromCharCode(ParseInt(if m[1] == 'u' as int then m[2..] else m, 16))
  }

  /** `val.replace(/\\u([0-9A-F]{4})/gi, ...)`: one pass from left to right; the text produced
      by a replacement is not scanned again. */
  function Decode(s: JsString, d: Decoder): (r: JsString)
    ensures |r| <= |s|
  {
    if EscapeAt(s, 0) then [Replacement(s[..6], d)] + Decode(s[6..], d)
    else if s == [] then []
    else [s[0]] + Decode(s[1..], d)
  }

  // ----- properties -----

  /** Each code unit becomes its own six-character escape, in order: characters `6k` to
      `6k + 5` of the encoding are `\u` followed by the four upper-case hex digits of `s[k]`
      (see `Hex4`). */
  lemma {:induction false} EncodeBlock(s: JsString, k: nat, j: nat)
    requires k < |s| && j < 6
    ensures Encode(s)[6 * k + j] == Escape(s[k])[j]
  {
    var e, rest := Escape(s[0]), Encode(s[1..]);
    assert Encode(s) == e + rest;
    if k > 0 {
      EncodeBlock(s[1..], k - 1, j);
      assert s[1..][k - 1] == s[k];
      assert (e + rest)[6 * k + j] == rest[6 * (k - 1) + j];
    }
  }

  /** The replacement of an escape as the converter writes it gives the code unit back, in
      both decoders. */
  lemma ReplacementOfEscape(u: CodeUnit, d: Decoder)
    ensures EscapeAt(Escape(u), 0)
    ensures Replacement(Escape(u), d) == u
  {
    var e := Escape(u);
    EscapeParts(u);
    ReplacementOfDigits(e, d);
  }

  lemma EscapeParts(u: CodeUnit)
    ensures var e := Escape(u);
            e[0] == Backslash && e[1] == 'u' as int && AllDigitsIn(e[2..], 16) && DigitsValue(e[2..], 16) == u
  {
    var e := Escape(u);
    Hex4Value(u);
    assert e[2..] == Hex4(u);
  }

  lemma ReplacementOfDigits(m: JsString, d: Decoder)
    requires |m| == 6 && m[1] == 'u' as int && AllDigitsIn(m[2..], 16) && DigitsValue(m[2..], 16) < 0x1_0000
    ensures Replacement(m, d) == DigitsValue(m[2..], 16)
  {
    ParseIntDigits(m[2..], 16);
  }

  /** Decoding the encoding of any text gives the text back. */
  lemma {:induction false} DecodeEncode(s: JsString, d: Decoder)
    ensures Decode(Encode(s), d) == s
  {
    if s != [] {
      var e := Escape(s[0]);
      var rest := Encode(s[1..]);
      DecodeEncode(s[1..], d);
      ReplacementOfEscape(s[0], d);
      DecodeEscapeFirst(e, rest, d);
      assert s == [s[0]] + s[1..];
    }
  }

  /** One step of the pass: a complete escape at the front is replaced and scanning resumes
      after it, in the original text, so the produced code unit is not scanned again. */
  lemma DecodeEscapeFirst(e: JsString, rest: JsString, d: Decoder)
    requires |e| == 6 && EscapeAt(e, 0)
    ensures Decode(e + rest, d) == [Replacement(e, d)] + Decode(rest, d)
  {
    var w := e + rest;
    assert w[..6] == e && w[6..] == rest;
  }

  /** Text without a complete escape, such as a partial `\u12`, is returned unchanged. */
  lemma {:induction false} DecodeWithoutEscape(s: JsString, d: Decoder)
    requires forall i :: 0 <= i < |s| ==> !EscapeAt(s, i)
    ensures Decode(s, d) == s
  {
    if s != [] {
      assert !EscapeAt(s, 0);
      forall i | 0 <= i < |s| - 1 ensures !EscapeAt(s[1..], i) {
        assert !EscapeAt(s, i + 1);
      }
      DecodeWithoutEscape(s[1..], d);
      assert s == [s[0]] + s[1..];
    }
  }

  /** A complete escape anywhere makes the pass replace at least one, so the decoded text is
      shorter and differs from the input. */
  lemma {:induction false} DecodeShrinks(s: JsString, i: nat, d: Decoder)
    requires EscapeAt(s, i)
    ensures |Decode(s, d)| < |s|
    ensures Decode(s, d) != s
  {
    if !EscapeAt(s, 0) {
      assert i > 0;
      DecodeShrinks(s[1..], i - 1, d);
    }
  }

  /** The value of the four hex digits of the escape at `i`, most significant first. */
  function EscapeValue(s: JsString, i: int): (v: nat)
    requires EscapeAt(s, i)
    ensures v < 0x1_0000
  {
    ((DigitValue(s[i + 2]).value * 16 + DigitValue(s[i + 3]).value) * 16 + DigitValue(s[i + 4]).value) * 16 +
      DigitValue(s[i + 5]).value
  }

  /** Every complete escape, `\U` as well as `\u`, is decoded by the converter to the value of
      its digits ... */
  lemma UpperEscapeInConverter(m: JsString)
    requires |m| == 6 && EscapeAt(m, 0)
    ensures Replacement(m, Converter) == EscapeValue(m, 0)
  {
    var h := m[2..];
    assert AllDigitsIn(h, 16) by {
      assert h[0] == m[2] && h[1] == m[3] && h[2] == m[4] && h[3] == m[5];
    }
    HexValue4(h);
    ParseIntDigits(h, 16);
  }

  /** ... but becomes the code unit 0 in the Quick Preview card, whose `\u` removal is case
      sensitive. */
  lemma UpperEscapeInQuickPreview(m: JsString)
    requires |m| == 6 && EscapeAt(m, 0) && m[1] == 'U' as int
    ensures Replacement(m, QuickPreviewCard) == 0
  {
    ParseIntNoDigit(m, 16);
  }

  /** The value of four hex digits, most significant first; below 0x10000. */
  lemma HexValue4(h: JsString)
    requires |h| == 4 && AllDigitsIn(h, 16)
    ensures DigitsValue(h, 16) ==
            ((DigitValue(h[0]).value * 16 + DigitValue(h[1]).value) * 16 + DigitValue(h[2]).value) * 16 + DigitValue(h[3]).value
    ensures DigitsValue(h, 16) < 0x1_0000
  {
    var h1, h2, h3 := h[..1], h[..2], h[..3];
    assert h1[..0] == [] && h2[..1] == h1 && h3[..2] == h2 && h[..3] == h3;
    assert DigitsValue(h1, 16) == DigitValue(h[0]).value;
    assert DigitsValue(h2, 16) == DigitsValue(h1, 16) * 16 + DigitValue(h[1]).value;
    assert DigitsValue(h3, 16) == DigitsValue(h2, 16) * 16 + DigitValue(h[2]).value;
  }

  /** The two panes of the Unicode converter. */
  class UnicodeConverter {
    var text: JsString
    var unicode: JsString

    constructor ()
      ensures text == [] && unicode == []
    {
      text, unicode := [], [];
    }

    /** Typing text: an empty text empties the escape pane. */
    method HandleTextChange(val: JsString)
      modifies this
      ensures text == val
      ensures unicode == Encode(val)
      ensures val == [] ==> unicode == []
    {
      text := val;
      if val == [] {
        unicode := [];
        return;
      }
      unicode := Encode(val);
    }

    /** Typing escapes: an empty value empties the text pane. */
    method HandleUnicodeChange(val: JsString)
      modifies this
      ensures unicode == val
      ensures text == Decode(val, Converter)
      ensures val == [] ==> text == []
    {
      unicode := val;
      if val == [] {
        text := [];
        return;
      }
      text := Decode(val, Converter);
    }

    method ClearAll()
      modifies this
      ensures text == [] && unicode == []
    {
      text := [];
      unicode := [];
    }
  }
}
