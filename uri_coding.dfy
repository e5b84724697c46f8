/** Percent-encoding of URIs: `encodeURIComponent`, `encodeURI` and `decodeURIComponent`,
    the abstract operations Encode and Decode of ECMA-262, sections 19.2.6.5 and 19.2.6.6,
    as the URL encoder (tools/UrlEncoder.tsx) and the Quick Preview card use them. */
module PercentEncoding {
  import opened JsStrings
  import opened JsNumbers

  // ----- code points, UTF-16 and UTF-8 -----

  predicate IsLeadSurrogate(u: CodeUnit) { 0xD800 <= u <= 0xDBFF }
  predicate IsTrailSurrogate(u: CodeUnit) { 0xDC00 <= u <= 0xDFFF }

  /** A Unicode scalar value: a code point that is not a surrogate. */
  predicate IsScalar(cp: int) { 0 <= cp <= 0x10FFFF && !(0xD800 <= cp <= 0xDFFF) }

  /** UTF16SurrogatePairToCodePoint. */
  function PairToCodePoint(lead: CodeUnit, trail: CodeUnit): (cp: int)
    requires IsLeadSurrogate(lead) && IsTrailSurrogate(trail)
    ensures 0x1_0000 <= cp <= 0x10_FFFF
  {
    (lead - 0xD800) * 0x400 + (trail - 0xDC00) + 0x1_0000
  }

  /** UTF16EncodeCodePoint. */
  function Utf16(cp: int): (r: JsString)
    requires IsScalar(cp)
    ensures 1 <= |r| <= 2
  {
    if cp < 0x1_0000 then [cp]
    else [(cp - 0x1_0000) / 0x400 + 0xD800, (cp - 0x1_0000) % 0x400 + 0xDC00]
  }

  /** The UTF-8 encoding of a scalar value: one byte below 0x80, otherwise a lead byte
      carrying the length and continuation bytes `10xxxxxx` of six bits each. */
  function Utf8(cp: int): (o: seq<Byte>)
    requires IsScalar(cp)
    ensures 1 <= |o| <= 4
  {
    if cp < 0x80 then [cp]
    else if cp < 0x800 then [0xC0 + cp / 0x40, 0x80 + cp % 0x40]
    else if cp < 0x1_0000 then [0xE0 + cp / 0x1000, 0x80 + cp / 0x40 % 0x40, 0x80 + cp % 0x40]
    else [0xF0 + cp / 0x4_0000, 0x80 + cp / 0x1000 % 0x40, 0x80 + cp / 0x40 % 0x40, 0x80 + cp % 0x40]
  }

  /** The number of leading one bits of a byte. */
  function LeadingOnes(b: Byte): nat
  {
    if b < 0x80 then 0 else if b < 0xC0 then 1 else if b < 0xE0 then 2
    else if b < 0xF0 then 3 else if b < 0xF8 then 4 else 5
  }

  /** The code point spelt by the payload bits of 2 to 4 bytes. */
  function Utf8Value(o: seq<Byte>): int
    requires 2 <= |o| <= 4
  {
    var b0, b1: int := o[0], o[1];
    if |o| == 2 then b0 % 0x20 * 0x40 + b1 % 0x40
    else
      var b2: int := o[2];
      if |o| == 3 then b0 % 0x10 * 0x1000 + b1 % 0x40 * 0x40 + b2 % 0x40
      else
        var b3: int := o[3];
        b0 % 0x08 * 0x4_0000 + b1 % 0x40 * 0x1000 + b2 % 0x40 * 0x40 + b3 % 0x40
  }

  /** The octets "contain a valid UTF-8 encoding of a Unicode code point": they spell a scalar
      value whose UTF-8 encoding they are. This rules out bad continuation bytes, overlong
      forms, surrogates and values above 0x10FFFF. */
  predicate IsValidUtf8(o: seq<Byte>)
  {
    2 <= |o| <= 4 && IsScalar(Utf8Value(o)) && Utf8(Utf8Value(o)) == o
  }

  // ----- encoding -----

  /** The two encoders: `encodeURIComponent` and `encodeURI`. */
  datatype Mode = Component | WholeUri

  /** What both encoders leave alone: ASCII letters and digits and `-_.!~*'()`. */
  predicate IsUnreserved(u: CodeUnit)
  {
    IsAlnum(u) || u == '-' as int || u == '_' as int || u == '.' as int || u == '!' as int ||
    u == '~' as int || u == '*' as int || u == '\'' as int || u == '(' as int || u == ')' as int
  }

  /** What `encodeURI` leaves alone as well: the reserved characters `;/?:@&=+$,` and `#`. */
  predicate IsReservedOrHash(u: CodeUnit)
  {
    u == ';' as int || u == '/' as int || u == '?' as int || u == ':' as int || u == '@' as int ||
    u == '&' as int || u == '=' as int || u == '+' as int || u == '$' as int || u == ',' as int ||
    u == '#' as int
  }

  predicate Unescaped(u: CodeUnit, mode: Mode)
  {
    IsUnreserved(u) || (mode == WholeUri && IsReservedOrHash(u))
  }

  /** `%XX` for one byte, with upper-case hex digits. */
  function PercentByte(b: Byte): (r: JsString)
    ensures |r| == 3
  {
    ['%' as int, UpperHexChar(b / 16), UpperHexChar(b % 16)]
  }

  function PercentBytes(o: seq<Byte>): (r: JsString)
    ensures |r| == 3 * |o|
  {
    if o == [] then [] else PercentByte(o[0]) + PercentBytes(o[1..])
  }

  function Prepend(p: JsString, r: Option<JsString>): Option<JsString>
  {
    if r.None? then None else Some(p + r.value)
  }

  /** Encode(string, extraUnescaped). A surrogate pair is one code point; None is the URIError
      thrown on a lone surrogate. */
  function Encode(s: JsString, mode: Mode): Option<JsString>
    decreases |s|
  {
    if s == [] then Some([])
    else if Unescaped(s[0], mode) then Prepend([s[0]], Encode(s[1..], mode))
    else if IsTrailSurrogate(s[0]) then None
    else if IsLeadSurrogate(s[0]) then
      if |s| >= 2 && IsTrailSurrogate(s[1]) then
        Prepend(PercentBytes(Utf8(PairToCodePoint(s[0], s[1]))), Encode(s[2..], mode))
      else None
    else Prepend(PercentBytes(Utf8(s[0])), Encode(s[1..], mode))
  }

  // ----- decoding -----

  /** A `%XX` triplet, hex digits in either case, at `i`. */
  predicate TripletAt(s: JsString, i: int)
  {
    0 <= i && i + 2 < |s| && s[i] == '%' as int && IsHexDigit(s[i + 1]) && IsHexDigit(s[i + 2])
  }

  function TripletByte(s: JsString, i: int): Byte
    requires TripletAt(s, i)
  {
    HexDigitValue(s[i + 1]) * 16 + HexDigitValue(s[i + 2])
  }

  /** The bytes of `n` consecutive triplets at the front of `s`. */
  function ReadBytes(s: JsString, n: nat): (r: Option<seq<Byte>>)
    ensures r.Some? ==> |r.value| == n && 3 * n <= |s|
  {
    if n == 0 then Some([])
    else if !TripletAt(s, 0) then None
    else
      match ReadBytes(s[3..], n - 1)
      case None => None
      case Some(rest) => Some([TripletByte(s, 0)] + rest)
  }

  /** `decodeURIComponent`: Decode with an empty reserved set. A triplet below 0x80 is that
      character; a lead byte of a 2- to 4-byte sequence must be followed by its continuation
      triplets and the bytes must be valid UTF-8. None is the URIError. */
  function Decode(s: JsString): Option<JsString>
    decreases |s|
  {
    if s == [] then Some([])
    else if s[0] != '%' as int then Prepend([s[0]], Decode(s[1..]))
    else if !TripletAt(s, 0) then None
    else
      var b := TripletByte(s, 0);
      var n := LeadingOnes(b);
      if n == 0 then Prepend([b], Decode(s[3..]))
      else if n == 1 || n > 4 then None
      else
        match ReadBytes(s, n)
        case None => None
        case Some(o) => if IsValidUtf8(o) then Prepend(Utf16(Utf8Value(o)), Decode(s[3 * n..])) else None
  }

  // ----- what the encoders produce -----

  predicate IsUpperHexDigit(u: CodeUnit) { IsDigit(u) || ('A' as int <= u <= 'F' as int) }

  /** A sequence of unescaped characters and `%XX` triplets with upper-case digits. */
  predicate EncodedForm(r: JsString, mode: Mode)
    decreases |r|
  {
    r == [] ||
    (Unescaped(r[0], mode) && EncodedForm(r[1..], mode)) ||
    (|r| >= 3 && r[0] == '%' as int && IsUpperHexDigit(r[1]) && IsUpperHexDigit(r[2]) && EncodedForm(r[3..], mode))
  }

  /** A lone surrogate at `i`: a lead not followed by a trail, or a trail not preceded by a lead. */
  predicate LoneSurrogateAt(s: JsString, i: int)
    requires 0 <= i < |s|
  {
    (IsLeadSurrogate(s[i]) && !(i + 1 < |s| && IsTrailSurrogate(s[i + 1]))) ||
    (IsTrailSurrogate(s[i]) && !(i > 0 && IsLeadSurrogate(s[i - 1])))
  }

  /** Well-formed UTF-16: no lone surrogate. */
  predicate WellFormed(s: JsString)
  {
    forall i :: 0 <= i < |s| ==> !LoneSurrogateAt(s, i)
  }

  /** The output of either encoder is unescaped characters and upper-case `%XX` triplets. */
  lemma {:induction false} EncodeForm(s: JsString, mode: Mode)
    requires Encode(s, mode).Some?
    ensures EncodedForm(Encode(s, mode).value, mode)
    decreases |s|
  {
    if s != [] {
      if Unescaped(s[0], mode) {
        var rest := Encode(s[1..], mode).value;
        EncodeForm(s[1..], mode);
        assert ([s[0]] + rest)[1..] == rest;
      } else if IsLeadSurrogate(s[0]) {
        EncodeForm(s[2..], mode);
        PercentBytesForm(Utf8(PairToCodePoint(s[0], s[1])), Encode(s[2..], mode).value, mode);
      } else {
        EncodeForm(s[1..], mode);
        PercentBytesForm(Utf8(s[0]), Encode(s[1..], mode).value, mode);
      }
    }
  }

  lemma {:induction false} PercentBytesForm(o: seq<Byte>, rest: JsString, mode: Mode)
    requires EncodedForm(rest, mode)
    ensures EncodedForm(PercentBytes(o) + rest, mode)
  {
    if o != [] {
      PercentBytesForm(o[1..], rest, mode);
      var w := PercentBytes(o) + rest;
      assert w == PercentByte(o[0]) + (PercentBytes(o[1..]) + rest);
      assert w[3..] == PercentBytes(o[1..]) + rest;
      assert w[0] == '%' as int && IsUpperHexDigit(w[1]) && IsUpperHexDigit(w[2]);
      assert EncodedForm(w[3..], mode);
    } else {
      assert PercentBytes(o) + rest == rest;
    }
  }

  /** Every character of an encoded form is unescaped, `%` or an upper-case hex digit. */
  lemma {:induction false} EncodedFormChars(r: JsString, mode: Mode)
    requires EncodedForm(r, mode)
    ensures forall i :: 0 <= i < |r| ==> Unescaped(r[i], mode) || r[i] == '%' as int || IsUpperHexDigit(r[i])
    decreases |r|
  {
    if r != [] {
      if Unescaped(r[0], mode) && EncodedForm(r[1..], mode) {
        EncodedFormChars(r[1..], mode);
        assert forall i :: 1 <= i < |r| ==> r[i] == r[1..][i - 1];
      } else {
        EncodedFormChars(r[3..], mode);
        assert forall i :: 3 <= i < |r| ==> r[i] == r[3..][i - 3];
      }
    }
  }

  /** The encoders throw exactly on a lone surrogate. */
  lemma {:induction false} EncodeFailsOnLoneSurrogate(s: JsString, mode: Mode)
    ensures Encode(s, mode).Some? <==> WellFormed(s)
    decreases |s|
  {
    if s == [] {
    } else if Unescaped(s[0], mode) || !(IsLeadSurrogate(s[0]) || IsTrailSurrogate(s[0])) {
      EncodeFailsOnLoneSurrogate(s[1..], mode);
      WellFormedStep(s, 1);
    } else if IsTrailSurrogate(s[0]) {
      assert LoneSurrogateAt(s, 0);
    } else if |s| >= 2 && IsTrailSurrogate(s[1]) {
      EncodeFailsOnLoneSurrogate(s[2..], mode);
      WellFormedStep(s, 2);
    } else {
      assert LoneSurrogateAt(s, 0);
    }
  }

  /** Dropping a first character that is not a surrogate, or a first surrogate pair, keeps
      well-formedness in both directions. */
  lemma WellFormedStep(s: JsString, k: nat)
    requires 1 <= k <= 2 && k <= |s|
    requires k == 1 ==> !IsLeadSurrogate(s[0]) && !IsTrailSurrogate(s[0])
    requires k == 2 ==> IsLeadSurrogate(s[0]) && IsTrailSurrogate(s[1])
    ensures WellFormed(s) <==> WellFormed(s[k..])
  {
    var t := s[k..];
    forall i | 0 <= i < |t| ensures LoneSurrogateAt(t, i) <==> LoneSurrogateAt(s, i + k) {
      assert t[i] == s[i + k];
      if i + 1 < |t| { assert t[i + 1] == s[i + k + 1]; }
      if i > 0 { assert t[i - 1] == s[i + k - 1]; }
    }
    if WellFormed(t) {
      forall i | 0 <= i < |s| ensures !LoneSurrogateAt(s, i) {
        if i >= k { assert !LoneSurrogateAt(t, i - k); }
      }
    }
  }

  // ----- decoding the encoding -----

  /** UTF-8 as the decoder reads it back: the lead byte announces the length, and the payload
      bits spell the code point again. */
  lemma Utf8Decodes(cp: int)
    requires IsScalar(cp)
    ensures var o := Utf8(cp);
            (|o| == 1 ==> LeadingOnes(o[0]) == 0 && o[0] == cp) &&
            (|o| >= 2 ==> LeadingOnes(o[0]) == |o| && Utf8Value(o) == cp)
  {
    var o := Utf8(cp);
    if cp < 0x80 {
    } else if cp < 0x800 {
      Utf8Two(cp);
    } else if cp < 0x1_0000 {
      Utf8Three(cp);
    } else {
      Utf8Four(cp);
    }
  }

  lemma Utf8Two(cp: int)
    requires 0x80 <= cp < 0x800
    ensures (0xC0 + cp / 0x40) % 0x20 * 0x40 + (0x80 + cp % 0x40) % 0x40 == cp
    ensures 0xC0 <= 0xC0 + cp / 0x40 < 0xE0
  {
    var a, b := cp / 0x40, cp % 0x40;
    assert cp == a * 0x40 + b;
    assert (0xC0 + a) % 0x20 == a;
    assert (0x80 + b) % 0x40 == b;
  }

  lemma Utf8Three(cp: int)
    requires 0x800 <= cp < 0x1_0000
    ensures (0xE0 + cp / 0x1000) % 0x10 * 0x1000 + (0x80 + cp / 0x40 % 0x40) % 0x40 * 0x40 + (0x80 + cp % 0x40) % 0x40 == cp
    ensures 0xE0 <= 0xE0 + cp / 0x1000 < 0xF0
  {
    var a, m := cp / 0x1000, cp % 0x1000;
    var b, c := m / 0x40, m % 0x40;
    assert cp == a * 0x1000 + m && m == b * 0x40 + c;
    assert cp / 0x40 == a * 0x40 + b;
    assert cp / 0x40 % 0x40 == b;
    assert cp % 0x40 == c;
    assert (0xE0 + a) % 0x10 == a;
  }

  lemma Utf8Four(cp: int)
    requires 0x1_0000 <= cp <= 0x10_FFFF
    ensures (0xF0 + cp / 0x4_0000) % 0x08 * 0x4_0000 + (0x80 + cp / 0x1000 % 0x40) % 0x40 * 0x1000 +
            (0x80 + cp / 0x40 % 0x40) % 0x40 * 0x40 + (0x80 + cp % 0x40) % 0x40 == cp
    ensures 0xF0 <= 0xF0 + cp / 0x4_0000 < 0xF8
  {
    var a, m := cp / 0x4_0000, cp % 0x4_0000;
    var b, m2 := m / 0x1000, m % 0x1000;
    var c, d := m2 / 0x40, m2 % 0x40;
    assert cp == a * 0x4_0000 + m && m == b * 0x1000 + m2 && m2 == c * 0x40 + d;
    assert cp / 0x1000 == a * 0x40 + b;
    assert cp / 0x1000 % 0x40 == b;
    assert cp / 0x40 == a * 0x1000 + b * 0x40 + c;
    assert cp / 0x40 % 0x40 == c;
    assert cp % 0x40 == d;
    assert (0xF0 + a) % 0x08 == a;
  }

  /** A surrogate pair becomes one code point and its UTF-16 encoding is the pair again. */
  lemma PairRoundTrip(lead: CodeUnit, trail: CodeUnit)
    requires IsLeadSurrogate(lead) && IsTrailSurrogate(trail)
    ensures IsScalar(PairToCodePoint(lead, trail))
    ensures Utf16(PairToCodePoint(lead, trail)) == [lead, trail]
  {
    var hi, lo := lead - 0xD800, trail - 0xDC00;
    var v := hi * 0x400 + lo;
    assert PairToCodePoint(lead, trail) - 0x1_0000 == v;
    assert v / 0x400 == hi && v % 0x400 == lo;
  }

  /** The triplets of a byte sequence are read back as the bytes. */
  lemma {:induction false} ReadPercentBytes(o: seq<Byte>, rest: JsString)
    ensures ReadBytes(PercentBytes(o) + rest, |o|) == Some(o)
  {
    if o != [] {
      var t := PercentBytes(o[1..]) + rest;
      var w := PercentBytes(o) + rest;
      assert w == PercentByte(o[0]) + t;
      FirstTriplet(o[0], t);
      assert w[3..] == t;
      ReadPercentBytes(o[1..], rest);
      assert ReadBytes(w, |o|) == Some([TripletByte(w, 0)] + o[1..]);
      assert o == [o[0]] + o[1..];
    }
  }

  lemma FirstTriplet(b: Byte, rest: JsString)
    ensures TripletAt(PercentByte(b) + rest, 0) && TripletByte(PercentByte(b) + rest, 0) == b
  {
    var w := PercentByte(b) + rest;
    assert w[0] == '%' as int && w[1] == UpperHexChar(b / 16) && w[2] == UpperHexChar(b % 16);
  }

  /** The triplets of the UTF-8 encoding of a code point decode to its UTF-16 encoding, and
      decoding resumes after them. */
  lemma DecodePercentCodePoint(cp: int, rest: JsString)
    requires IsScalar(cp)
    ensures Decode(PercentBytes(Utf8(cp)) + rest) == Prepend(Utf16(cp), Decode(rest))
  {
    var o := Utf8(cp);
    var w := PercentBytes(o) + rest;
    Utf8Decodes(cp);
    assert w == PercentByte(o[0]) + (PercentBytes(o[1..]) + rest);
    FirstTriplet(o[0], PercentBytes(o[1..]) + rest);
    assert w[3 * |o|..] == rest;
    if |o| >= 2 {
      ReadPercentBytes(o, rest);
      assert IsValidUtf8(o);
    }
  }

  /** Decoding either encoding gives the text back. */
  lemma {:induction false} DecodeEncode(s: JsString, mode: Mode)
    requires Encode(s, mode).Some?
    ensures Decode(Encode(s, mode).value) == Some(s)
    decreases |s|
  {
    if s != [] {
      if Unescaped(s[0], mode) {
        DecodeEncode(s[1..], mode);
        DecodeUnescapedFirst(s, mode);
      } else if IsLeadSurrogate(s[0]) {
        DecodeEncode(s[2..], mode);
        DecodePairFirst(s, mode);
      } else {
        DecodeEncode(s[1..], mode);
        DecodeSingleFirst(s, mode);
      }
    }
  }

  lemma DecodeUnescapedFirst(s: JsString, mode: Mode)
    requires s != [] && Unescaped(s[0], mode) && Encode(s[1..], mode).Some?
    requires Decode(Encode(s[1..], mode).value) == Some(s[1..])
    ensures Encode(s, mode).Some? && Decode(Encode(s, mode).value) == Some(s)
  {
    var rest := Encode(s[1..], mode).value;
    assert Encode(s, mode).value == [s[0]] + rest;
    assert ([s[0]] + rest)[1..] == rest;
    assert s == [s[0]] + s[1..];
  }

  lemma DecodePairFirst(s: JsString, mode: Mode)
    requires |s| >= 2 && !Unescaped(s[0], mode) && IsLeadSurrogate(s[0]) && IsTrailSurrogate(s[1])
    requires Encode(s[2..], mode).Some? && Decode(Encode(s[2..], mode).value) == Some(s[2..])
    ensures Encode(s, mode).Some? && Decode(Encode(s, mode).value) == Some(s)
  {
    var rest := Encode(s[2..], mode).value;
    var cp := PairToCodePoint(s[0], s[1]);
    assert Encode(s, mode).value == PercentBytes(Utf8(cp)) + rest;
    PairRoundTrip(s[0], s[1]);
    DecodePercentCodePoint(cp, rest);
    assert s == [s[0], s[1]] + s[2..];
  }

  lemma DecodeSingleFirst(s: JsString, mode: Mode)
    requires s != [] && !Unescaped(s[0], mode) && !IsLeadSurrogate(s[0]) && !IsTrailSurrogate(s[0])
    requires Encode(s[1..], mode).Some? && Decode(Encode(s[1..], mode).value) == Some(s[1..])
    ensures Encode(s, mode).Some? && Decode(Encode(s, mode).value) == Some(s)
  {
    var rest := Encode(s[1..], mode).value;
    assert Encode(s, mode).value == PercentBytes(Utf8(s[0])) + rest;
    DecodePercentCodePoint(s[0], rest);
    assert s == [s[0]] + s[1..];
  }

  /** Text without `%` decodes to itself. */
  lemma {:induction false} DecodeWithoutPercent(s: JsString)
    requires '%' as int !in s
    ensures Decode(s) == Some(s)
  {
    if s != [] {
      assert s[0] != '%' as int;
      assert forall u :: u in s[1..] ==> u in s;
      DecodeWithoutPercent(s[1..]);
      assert s == [s[0]] + s[1..];
    }
  }

  /** An encoding without any `%` is the text itself: every unit was left alone. */
  lemma {:induction false} EncodeWithoutPercent(s: JsString, mode: Mode)
    requires Encode(s, mode).Some? && '%' as int !in Encode(s, mode).value
    ensures Encode(s, mode).value == s
    decreases |s|
  {
    if s != [] {
      var e := Encode(s, mode).value;
      if Unescaped(s[0], mode) {
        var rest := Encode(s[1..], mode).value;
        assert e == [s[0]] + rest;
        assert '%' as int !in rest by {
          assert forall i :: 0 <= i < |rest| ==> rest[i] == e[i + 1];
        }
        EncodeWithoutPercent(s[1..], mode);
        assert s == [s[0]] + s[1..];
      }
    }
  }

  /** In an encoded form every `%` opens a triplet. */
  lemma {:induction false} PercentOpensTriplet(r: JsString, mode: Mode, k: nat)
    requires EncodedForm(r, mode) && k < |r| && r[k] == '%' as int
    ensures TripletAt(r, k)
    decreases |r|
  {
    if Unescaped(r[0], mode) && EncodedForm(r[1..], mode) {
      assert k > 0;
      PercentOpensTriplet(r[1..], mode, k - 1);
      assert r[1..][k - 1..k + 2] == r[k..k + 3];
    } else if k >= 3 {
      PercentOpensTriplet(r[3..], mode, k - 3);
      assert r[3..][k - 3..k] == r[k..k + 3];
    }
  }

  /** Decoding fails only on text that holds a `%`, so a failing value is never blank. */
  lemma DecodeFailureNotBlank(s: JsString)
    requires Decode(s).None?
    ensures Trim(s) != []
  {
    if '%' as int !in s {
      DecodeWithoutPercent(s);
    }
    var i :| 0 <= i < |s| && s[i] == '%' as int;
    TrimEmptyIffBlank(s);
    assert !IsWhitespace(s[i]);
  }

  /** `encodeURI` leaves a reserved character as it is; `encodeURIComponent` escapes it. */
  lemma ReservedCharacter(u: CodeUnit)
    requires IsReservedOrHash(u)
    ensures Encode([u], WholeUri) == Some([u])
    ensures Encode([u], Component) == Some(PercentByte(u))
  {
    assert [u][1..] == [];
    assert Encode([u][1..], WholeUri) == Some([]) && Encode([u][1..], Component) == Some([]);
    assert [u] + [] == [u];
    assert !IsUnreserved(u) && !IsLeadSurrogate(u) && !IsTrailSurrogate(u);
    assert Utf8(u) == [u];
    assert PercentBytes([u]) == PercentByte(u) + PercentBytes([]);
    assert PercentByte(u) + [] == PercentByte(u);
  }

  // ----- the tool -----

  datatype UrlError = EncodingFailed | InvalidEncoding

  /** The URL encoder: the two panes, the encoding mode and the error line. */
  class UrlEncoder {
    var decoded: JsString
    var encoded: JsString
    var mode: Mode
    var error: Option<UrlError>

    constructor ()
      ensures decoded == [] && encoded == [] && mode == Component && error == None
    {
      decoded, encoded, mode, error := [], [], Component, None;
    }

    /** Typing plain text: encode it under the current mode; a lone surrogate keeps the old
        encoded pane and reports the failure. */
    method HandleDecodedChange(val: JsString)
      modifies this
      ensures decoded == val && mode == old(mode)
      ensures Encode(val, mode).Some? ==> encoded == Encode(val, mode).value && error == None
      ensures Encode(val, mode).None? ==> encoded == old(encoded) && error == Some(EncodingFailed)
    {
      decoded := val;
      error := None;
      var result := Encode(val, mode);
      if result.Some? {
        encoded := result.value;
      } else {
        error := Some(EncodingFailed);
      }
    }

    /** Typing encoded text: decode it; malformed input keeps the old plain pane and reports
        an error unless the value is blank. */
    method HandleEncodedChange(val: JsString)
      modifies this
      ensures encoded == val && mode == old(mode)
      ensures Decode(val).Some? ==> decoded == Decode(val).value && error == None
      ensures Decode(val).None? ==> decoded == old(decoded)
      ensures Decode(val).None? ==> error == (if Trim(val) != [] then Some(InvalidEncoding) else None)
    {
      encoded := val;
      error := None;
      var result := Decode(val);
      if result.Some? {
        decoded := result.value;
      } else if Trim(val) != [] {
        error := Some(InvalidEncoding);
      }
    }

    /** Choosing a mode: the effect on `mode` re-encodes the current plain text, and only
        runs when the mode actually changes. */
    method SetMode(m: Mode)
      modifies this
      ensures mode == m && decoded == old(decoded)
      ensures m == old(mode) ==> encoded == old(encoded) && error == old(error)
      ensures m != old(mode) && Encode(decoded, m).Some? ==> encoded == Encode(decoded, m).value && error == None
      ensures m != old(mode) && Encode(decoded, m).None? ==> encoded == old(encoded) && error == Some(EncodingFailed)
    {
      if m != mode {
        mode := m;
        HandleDecodedChange(decoded);
      }
    }

    /** The Clear button: both panes empty and no error; the mode stays. */
    method Clear()
      modifies this
      ensures decoded == [] && encoded == [] && error == None && mode == old(mode)
    {
      decoded, encoded, error := [], [], None;
    }
  }
}
