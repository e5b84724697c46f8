/** Base64 as the browser's `btoa`/`atob` implement it: the padded encoding of section 4 of
    RFC 4648 over strings whose code units are bytes, and the WHATWG "forgiving-base64 decode",
    which drops ASCII whitespace, accepts missing padding and rejects a length of 1 mod 4.
    The Base64 tool's two panes (tools/Base64Tool.tsx) are the class at the end. */
module Base64 {
  import opened JsStrings

  /** A string `btoa` accepts: every code unit is at most 0xFF. */
  predicate IsLatin1(s: JsString)
  {
    forall i :: 0 <= i < |s| ==> s[i] <= 0xFF
  }

  predicate IsBase64Char(u: CodeUnit)
  {
    IsAlnum(u) || u == '+' as int || u == '/' as int
  }

  predicate AllBase64Chars(s: JsString)
  {
    forall i :: 0 <= i < |s| ==> IsBase64Char(s[i])
  }

  /** The 6-bit value of an alphabet character. */
  function SextetValue(u: CodeUnit): (v: nat)
    requires IsBase64Char(u)
    ensures v < 64
  {
    if IsUpper(u) then u - 'A' as int
    else if IsLower(u) then u - 'a' as int + 26
    else if IsDigit(u) then u - '0' as int + 52
    else if u == '+' as int then 62
    else 63
  }

  /** The character for a 6-bit value, in the alphabet of RFC 4648, section 4 (table 1). */
  function SextetChar(v: nat): (u: CodeUnit)
    requires v < 64
    ensures IsBase64Char(u) && SextetValue(u) == v
  {
    if v < 26 then 'A' as int + v
    else if v < 52 then 'a' as int + (v - 26)
    else if v < 62 then '0' as int + (v - 52)
    else if v == 62 then '+' as int
    else '/' as int
  }

  // ----- encoding -----

  /** Three bytes as four characters. */
  function EncodeTriple(b0: nat, b1: nat, b2: nat): (r: JsString)
    requires b0 < 256 && b1 < 256 && b2 < 256
  {
    [SextetChar(b0 / 4), SextetChar((b0 % 4) * 16 + b1 / 16),
     SextetChar((b1 % 16) * 4 + b2 / 64), SextetChar(b2 % 64)]
  }

  /** The encoding without its `=` padding: a final group of one byte gives two characters,
      one of two bytes gives three; the unused low bits are zero. */
  function EncodeUnpadded(s: JsString): (r: JsString)
    requires IsLatin1(s)
    ensures AllBase64Chars(r)
    ensures |r| == UnpaddedLength(|s|)
  {
    if |s| >= 3 then EncodeTriple(s[0], s[1], s[2]) + EncodeUnpadded(s[3..])
    else if |s| == 2 then [SextetChar(s[0] / 4), SextetChar((s[0] % 4) * 16 + s[1] / 16), SextetChar((s[1] % 16) * 4)]
    else if |s| == 1 then [SextetChar(s[0] / 4), SextetChar((s[0] % 4) * 16)]
    else []
  }

  /** The length of the unpadded encoding of `n` bytes. */
  function UnpaddedLength(n: nat): nat
  {
    if n >= 3 then 4 + UnpaddedLength(n - 3) else if n == 0 then 0 else n + 1
  }

  lemma {:induction false} UnpaddedLengthValue(n: nat)
    ensures UnpaddedLength(n) % 4 != 1
    ensures (UnpaddedLength(n) + |Padding(n)|) % 4 == 0
    ensures n > 0 ==> UnpaddedLength(n) >= n % 3 + 1
  {
    if n >= 3 {
      UnpaddedLengthValue(n - 3);
      assert Padding(n) == Padding(n - 3);
    }
  }

  lemma {:induction false} PaddedLength(n: nat)
    ensures UnpaddedLength(n) + |Padding(n)| == 4 * ((n + 2) / 3)
  {
    if n >= 3 {
      PaddedLength(n - 3);
      assert (n + 2) / 3 == (n - 3 + 2) / 3 + 1;
      assert Padding(n) == Padding(n - 3);
    }
  }

  function Padding(n: nat): (p: JsString)
    ensures forall i :: 0 <= i < |p| ==> p[i] == '=' as int
  {
    if n % 3 == 1 then ['=' as int, '=' as int] else if n % 3 == 2 then ['=' as int] else []
  }

  /** `btoa(s)`; None is the InvalidCharacterError thrown for a code unit above 0xFF. */
  function Btoa(s: JsString): (r: Option<JsString>)
    ensures r.Some? <==> IsLatin1(s)
  {
    if IsLatin1(s) then Some(EncodeUnpadded(s) + Padding(|s|)) else None
  }

  // ----- forgiving decoding -----

  /** ASCII whitespace of the WHATWG Infra standard: TAB, LF, FF, CR and SPACE. */
  predicate IsAsciiWhitespace(u: CodeUnit)
  {
    u == 0x09 || u == 0x0A || u == 0x0C || u == 0x0D || u == 0x20
  }

  function RemoveAsciiWhitespace(s: JsString): (r: JsString)
    ensures |r| <= |s|
    ensures forall i :: 0 <= i < |r| ==> !IsAsciiWhitespace(r[i])
  {
    if s == [] then []
    else if IsAsciiWhitespace(s[0]) then RemoveAsciiWhitespace(s[1..])
    else [s[0]] + RemoveAsciiWhitespace(s[1..])
  }

  /** Removes one or two final `=` from a string whose length is a multiple of four. */
  function StripPadding(d: JsString): (r: JsString)
    ensures |r| <= |d|
  {
    if |d| % 4 == 0 && |d| >= 2 && d[|d| - 1] == '=' as int && d[|d| - 2] == '=' as int then d[..|d| - 2]
    else if |d| % 4 == 0 && |d| >= 1 && d[|d| - 1] == '=' as int then d[..|d| - 1]
    else d
  }

  /** Four characters as three bytes. */
  function DecodeQuad(c0: CodeUnit, c1: CodeUnit, c2: CodeUnit, c3: CodeUnit): JsString
    requires IsBase64Char(c0) && IsBase64Char(c1) && IsBase64Char(c2) && IsBase64Char(c3)
  {
    var v0, v1, v2, v3 := SextetValue(c0), SextetValue(c1), SextetValue(c2), SextetValue(c3);
    [v0 * 4 + v1 / 16, (v1 % 16) * 16 + v2 / 4, (v2 % 4) * 64 + v3]
  }

  /** Decoding of unpadded text, whose last group holds 2, 3 or 4 characters; the bits left
      over in a short group are dropped, whatever they are. (A last group of one character
      is rejected by `Atob` before decoding.) */
  function DecodeUnpadded(d: JsString): (r: JsString)
    requires AllBase64Chars(d)
    ensures IsLatin1(r)
  {
    if |d| >= 4 then DecodeQuad(d[0], d[1], d[2], d[3]) + DecodeUnpadded(d[4..])
    else if |d| == 3 then
      var v0, v1, v2 := SextetValue(d[0]), SextetValue(d[1]), SextetValue(d[2]);
      [v0 * 4 + v1 / 16, (v1 % 16) * 16 + v2 / 4]
    else if |d| == 2 then [SextetValue(d[0]) * 4 + SextetValue(d[1]) / 16]
    else []
  }

  /** `atob(s)`: the forgiving-base64 decode; None is the InvalidCharacterError. */
  function Atob(s: JsString): (r: Option<JsString>)
    ensures r.Some? ==> IsLatin1(r.value)
  {
    var d := StripPadding(RemoveAsciiWhitespace(s));
    if |d| % 4 == 1 || !AllBase64Chars(d) then None else Some(DecodeUnpadded(d))
  }

  // ----- properties -----

  /** The padded encoding has 4 * ceil(n / 3) characters. */
  lemma BtoaLength(s: JsString)
    requires IsLatin1(s)
    ensures |Btoa(s).value| == 4 * ((|s| + 2) / 3)
  {
    PaddedLength(|s|);
  }

  /** The bit arithmetic of one group: the four 6-bit values that three bytes split into
      reassemble to the three bytes. */
  lemma GroupArithmetic(b0: nat, b1: nat, b2: nat)
    requires b0 < 256 && b1 < 256 && b2 < 256
    ensures var v0, v1, v2, v3 := b0 / 4, (b0 % 4) * 16 + b1 / 16, (b1 % 16) * 4 + b2 / 64, b2 % 64;
            v0 < 64 && v1 < 64 && v2 < 64 && v3 < 64 &&
            v0 * 4 + v1 / 16 == b0 && (v1 % 16) * 16 + v2 / 4 == b1 && (v2 % 4) * 64 + v3 == b2
  {
    var v1, v2 := (b0 % 4) * 16 + b1 / 16, (b1 % 16) * 4 + b2 / 64;
    assert v1 / 16 == b0 % 4 && v1 % 16 == b1 / 16;
    assert v2 / 4 == b1 % 16 && v2 % 4 == b2 / 64;
  }

  lemma TripleRoundTrip(b0: nat, b1: nat, b2: nat)
    requires b0 < 256 && b1 < 256 && b2 < 256
    ensures var e := EncodeTriple(b0, b1, b2);
            AllBase64Chars(e) && DecodeQuad(e[0], e[1], e[2], e[3]) == [b0, b1, b2]
  {
    GroupArithmetic(b0, b1, b2);
    var v0, v1, v2, v3 := b0 / 4, (b0 % 4) * 16 + b1 / 16, (b1 % 16) * 4 + b2 / 64, b2 % 64;
    var e := EncodeTriple(b0, b1, b2);
    assert e == [SextetChar(v0), SextetChar(v1), SextetChar(v2), SextetChar(v3)];
    assert SextetValue(e[0]) == v0 && SextetValue(e[1]) == v1;
    assert SextetValue(e[2]) == v2 && SextetValue(e[3]) == v3;
    assert DecodeQuad(e[0], e[1], e[2], e[3]) == [v0 * 4 + v1 / 16, (v1 % 16) * 16 + v2 / 4, (v2 % 4) * 64 + v3];
  }

  /** Decoding the unpadded encoding gives the bytes back. */
  lemma {:induction false} UnpaddedRoundTrip(s: JsString)
    requires IsLatin1(s)
    ensures DecodeUnpadded(EncodeUnpadded(s)) == s
  {
    if |s| >= 3 {
      UnpaddedRoundTrip(s[3..]);
      FirstGroupRoundTrip(s);
    } else if |s| == 2 {
      TwoBytesRoundTrip(s[0], s[1]);
    } else if |s| == 1 {
      OneByteRoundTrip(s[0]);
    }
  }

  lemma FirstGroupRoundTrip(s: JsString)
    requires IsLatin1(s) && |s| >= 3
    requires DecodeUnpadded(EncodeUnpadded(s[3..])) == s[3..]
    ensures DecodeUnpadded(EncodeUnpadded(s)) == s
  {
    EncodeFirstGroup(s);
    DecodeAfterEncodeFirstGroup(s);
  }

  lemma EncodeFirstGroup(s: JsString)
    requires IsLatin1(s) && |s| >= 3
    ensures EncodeUnpadded(s) == EncodeTriple(s[0], s[1], s[2]) + EncodeUnpadded(s[3..])
  {
  }

  lemma DecodeAfterEncodeFirstGroup(s: JsString)
    requires IsLatin1(s) && |s| >= 3
    requires DecodeUnpadded(EncodeUnpadded(s[3..])) == s[3..]
    ensures DecodeUnpadded(EncodeTriple(s[0], s[1], s[2]) + EncodeUnpadded(s[3..])) == s
  {
    var t := EncodeTriple(s[0], s[1], s[2]);
    var rest := EncodeUnpadded(s[3..]);
    TripleRoundTrip(s[0], s[1], s[2]);
    DecodeFirstGroup(t, rest);
    assert s == [s[0], s[1], s[2]] + s[3..];
  }

  lemma DecodeFirstGroup(t: JsString, rest: JsString)
    requires |t| == 4 && AllBase64Chars(t) && AllBase64Chars(rest)
    ensures AllBase64Chars(t + rest)
    ensures DecodeUnpadded(t + rest) == DecodeQuad(t[0], t[1], t[2], t[3]) + DecodeUnpadded(rest)
  {
    var e := t + rest;
    assert e[4..] == rest;
    assert e[0] == t[0] && e[1] == t[1] && e[2] == t[2] && e[3] == t[3];
  }

  lemma TwoBytesRoundTrip(b0: nat, b1: nat)
    requires b0 < 256 && b1 < 256
    ensures DecodeUnpadded(EncodeUnpadded([b0, b1])) == [b0, b1]
  {
    GroupArithmetic(b0, b1, 0);
    var e := EncodeUnpadded([b0, b1]);
    assert e == [SextetChar(b0 / 4), SextetChar((b0 % 4) * 16 + b1 / 16), SextetChar((b1 % 16) * 4)];
  }

  lemma OneByteRoundTrip(b0: nat)
    requires b0 < 256
    ensures DecodeUnpadded(EncodeUnpadded([b0])) == [b0]
  {
    GroupArithmetic(b0, 0, 0);
    var e := EncodeUnpadded([b0]);
    assert e == [SextetChar(b0 / 4), SextetChar((b0 % 4) * 16)];
  }

  lemma {:induction false} RemoveAsciiWhitespaceOfClean(s: JsString)
    requires forall i :: 0 <= i < |s| ==> !IsAsciiWhitespace(s[i])
    ensures RemoveAsciiWhitespace(s) == s
  {
    if s != [] {
      RemoveAsciiWhitespaceOfClean(s[1..]);
      assert [s[0]] + s[1..] == s;
    }
  }

  /** `atob(btoa(s)) == s` for every string `btoa` accepts. */
  lemma AtobBtoa(s: JsString)
    requires IsLatin1(s)
    ensures Atob(Btoa(s).value) == Some(s)
  {
    var e := EncodeUnpadded(s);
    assert Btoa(s).value == e + Padding(|s|);
    assert Atob(e + Padding(|s|)) == Some(s) by {
      AtobOfEncoding(e, |s|);
      UnpaddedRoundTrip(s);
    }
  }

  /** An encoding of `n` bytes decodes with or without its padding. */
  lemma AtobOfEncoding(e: JsString, n: nat)
    requires AllBase64Chars(e) && |e| == UnpaddedLength(n)
    ensures Atob(e + Padding(n)) == Some(DecodeUnpadded(e))
    ensures Atob(e) == Some(DecodeUnpadded(e))
  {
    var p := e + Padding(n);
    assert forall i :: 0 <= i < |p| ==> !IsAsciiWhitespace(p[i]) by {
      forall i | 0 <= i < |p| ensures !IsAsciiWhitespace(p[i]) {
        if i < |e| { assert IsBase64Char(e[i]); } else { assert p[i] == '=' as int; }
      }
    }
    RemoveAsciiWhitespaceOfClean(p);
    StripPaddingOfEncoding(e, n);
    UnpaddedLengthValue(n);
    assert forall i :: 0 <= i < |e| ==> !IsAsciiWhitespace(e[i]) by {
      forall i | 0 <= i < |e| ensures !IsAsciiWhitespace(e[i]) {
        assert IsBase64Char(e[i]);
      }
    }
    RemoveAsciiWhitespaceOfClean(e);
    assert e == [] || (IsBase64Char(e[|e| - 1]) && e[|e| - 1] != '=' as int);
    assert StripPadding(e) == e;
  }

  /** Removing the padding of an encoding of `n` bytes leaves the unpadded characters. */
  lemma StripPaddingOfEncoding(e: JsString, n: nat)
    requires AllBase64Chars(e) && |e| == UnpaddedLength(n)
    ensures StripPadding(e + Padding(n)) == e
  {
    var k := |e|;
    LengthCases(n);
    if n % 3 == 1 {
      var p := e + ['=' as int, '=' as int];
      assert Padding(n) == ['=' as int, '=' as int];
      assert |p| % 4 == 0;
      assert p[..|p| - 2] == e;
      assert StripPadding(p) == e;
    } else if n % 3 == 2 {
      var p := e + ['=' as int];
      assert Padding(n) == ['=' as int];
      assert |p| % 4 == 0;
      assert IsBase64Char(e[k - 1]);
      assert p[|p| - 2] == e[k - 1] && e[k - 1] != '=' as int;
      assert p[..|p| - 1] == e;
      assert StripPadding(p) == e;
    } else {
      assert e + Padding(n) == e;
      assert k == 0 || (IsBase64Char(e[k - 1]) && e[k - 1] != '=' as int);
      assert StripPadding(e) == e;
    }
  }

  lemma LengthCases(n: nat)
    ensures n % 3 == 1 ==> (UnpaddedLength(n) + 2) % 4 == 0
    ensures n % 3 == 2 ==> (UnpaddedLength(n) + 1) % 4 == 0 && UnpaddedLength(n) >= 3
  {
    UnpaddedLengthValue(n);
  }

  /** Missing padding is accepted: the unpadded encoding decodes too. */
  lemma AtobUnpadded(s: JsString)
    requires IsLatin1(s)
    ensures Atob(EncodeUnpadded(s)) == Some(s)
  {
    var e := EncodeUnpadded(s);
    assert Atob(e) == Some(s) by {
      AtobOfEncoding(e, |s|);
      UnpaddedRoundTrip(s);
    }
  }

  /** Text whose length after removing whitespace is 1 mod 4 is rejected. */
  lemma AtobRejectsOneModFour(s: JsString)
    requires |RemoveAsciiWhitespace(s)| % 4 == 1
    ensures Atob(s).None?
  {
  }

  /** A character outside the alphabet is rejected unless it is whitespace or one of the
      final `=` that the padding strip removes: `a!==` fails on the `!`. */
  lemma AtobRejectsForeignChar(s: JsString, i: nat)
    requires i < |s| && !IsBase64Char(s[i]) && !IsAsciiWhitespace(s[i]) && s[i] != '=' as int
    ensures Atob(s).None?
  {
    var d := RemoveAsciiWhitespace(s);
    var j := UnitSurvives(s, i);
    AtobRejectsUnstripped(s, j);
  }

  /** In the text without whitespace, a non-alphabet unit at position `j` is rejected
      unless the padding strip removes it: a final `=`, or the one before a final `=`,
      in a text whose length is a multiple of four. So `ab=c` fails on its inner `=`. */
  lemma AtobRejectsUnstripped(s: JsString, j: nat)
    requires j < |RemoveAsciiWhitespace(s)| && !IsBase64Char(RemoveAsciiWhitespace(s)[j])
    requires var d := RemoveAsciiWhitespace(s);
             !(d[j] == '=' as int && |d| % 4 == 0 && (j == |d| - 1 || (j == |d| - 2 && d[|d| - 1] == '=' as int)))
    ensures Atob(s).None?
  {
    var d := RemoveAsciiWhitespace(s);
    var p := StripPadding(d);
    assert p == d[..|p|];
    assert j < |p|;
    assert p[j] == d[j];
  }

  /** A unit that is not whitespace has a place in the text the whitespace removal leaves. */
  lemma {:induction false} UnitSurvives(s: JsString, i: nat) returns (j: nat)
    requires i < |s| && !IsAsciiWhitespace(s[i])
    ensures j < |RemoveAsciiWhitespace(s)| && RemoveAsciiWhitespace(s)[j] == s[i]
  {
    var d := RemoveAsciiWhitespace(s);
    if i == 0 {
      assert d[0] == s[0];
      j := 0;
    } else {
      var j' := UnitSurvives(s[1..], i - 1);
      if IsAsciiWhitespace(s[0]) {
        j := j';
      } else {
        assert d == [s[0]] + RemoveAsciiWhitespace(s[1..]);
        j := j' + 1;
      }
    }
  }

  /** The pane pair of the Base64 tool: editing one pane re-computes the other, and a value
      the conversion rejects leaves the other pane as it was. */
  class Base64Tool {
    var text: JsString
    var base64: JsString

    constructor ()
      ensures text == [] && base64 == []
    {
      text, base64 := [], [];
    }

    /** Typing in the text pane. */
    method HandleTextChange(val: JsString)
      modifies this
      ensures text == val
      ensures base64 == if IsLatin1(val) then Btoa(val).value else old(base64)
    {
      text := val;
      var encoded := Btoa(val);
      if encoded.Some? {
        base64 := encoded.value;
      }
    }

    /** Typing in the Base64 pane. */
    method HandleBase64Change(val: JsString)
      modifies this
      ensures base64 == val
      ensures text == if Atob(val).Some? then Atob(val).value else old(text)
    {
      base64 := val;
      var decoded := Atob(val);
      if decoded.Some? {
        text := decoded.value;
      }
    }
  }
}
