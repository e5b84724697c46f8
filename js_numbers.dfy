/** Integers and their text forms: `Number.prototype.toString(radix)` and
    `BigInt.prototype.toString(radix)` on integers, the global `parseInt` (ECMA-262,
    section 19.2.5) and the `BigInt(string)` conversion StringToBigInt (section 7.1.14).
    Values are exact integers: the rounding of a Number above 2^53 is not modelled. */
module JsNumbers {
  import opened JsStrings

  predicate IsRadix(r: nat) { 2 <= r <= 36 }

  type Byte = b: int | 0 <= b < 0x100

  /** The value of a digit character of any radix up to 36, in either case. */
  function DigitValue(u: CodeUnit): Option<nat>
  {
    if IsDigit(u) then Some(u - '0' as int)
    else if IsLower(u) then Some(u - 'a' as int + 10)
    else if IsUpper(u) then Some(u - 'A' as int + 10)
    else None
  }

  predicate IsDigitIn(u: CodeUnit, r: nat)
  {
    DigitValue(u).Some? && DigitValue(u).value < r
  }

  predicate AllDigitsIn(s: JsString, r: nat)
  {
    forall i :: 0 <= i < |s| ==> IsDigitIn(s[i], r)
  }

  /** The lower-case digit character for `d`, as `toString(radix)` writes it. */
  function DigitChar(d: nat): (u: CodeUnit)
    requires d < 36
    ensures DigitValue(u) == Some(d)
    ensures !IsUpper(u)
  {
    if d < 10 then '0' as int + d else 'a' as int + (d - 10)
  }

  /** The upper-case hex digit character for `d`, as `toUpperCase` and the percent-encoding of
      URIs write it. */
  function UpperHexChar(d: nat): (u: CodeUnit)
    requires d < 16
    ensures DigitValue(u) == Some(d) && !IsLower(u)
    ensures IsHexDigit(u) && HexDigitValue(u) == d
  {
    if d < 10 then '0' as int + d else 'A' as int + (d - 10)
  }

  /** `n.toString(radix)` for a non-negative integer: most significant digit first. */
  function NatToString(n: nat, r: nat): (s: JsString)
    requires IsRadix(r)
    ensures |s| >= 1
    ensures AllDigitsIn(s, r)
    ensures forall i :: 0 <= i < |s| ==> !IsUpper(s[i])
    ensures n > 0 ==> s[0] != '0' as int
    ensures n == 0 ==> s == ['0' as int]
    decreases n
  {
    if n < r then [DigitChar(n)]
    else
      DivisionShrinks(n, r);
      NatToString(n / r, r) + [DigitChar(n % r)]
  }

  lemma DivisionShrinks(n: nat, r: nat)
    requires 2 <= r <= n
    ensures 1 <= n / r < n && n % r < r
    ensures n == (n / r) * r + n % r
  {
    var q, d := n / r, n % r;
    assert n == q * r + d;
    MultiplyAtLeastDouble(q, r);
  }

  lemma {:induction false} MultiplyAtLeastDouble(q: nat, r: nat)
    requires r >= 2
    ensures q * r >= 2 * q
  {
    if q > 0 {
      MultiplyAtLeastDouble(q - 1, r);
      assert q * r == (q - 1) * r + r;
    }
  }

  function Power(r: nat, k: nat): nat
  {
    if k == 0 then 1 else r * Power(r, k - 1)
  }

  /** A value below r^k has at most k digits in radix r. */
  lemma {:induction false} NatToStringLength(n: nat, r: nat, k: nat)
    requires IsRadix(r) && k >= 1 && n < Power(r, k)
    ensures |NatToString(n, r)| <= k
  {
    if n >= r {
      DivisionShrinks(n, r);
      var p := Power(r, k - 1);
      assert n < r * p;
      if n / r >= p {
        MultiplyMonotone(p, n / r, r);
        assert false;
      }
      assert k != 1 by {
        assert k == 1 ==> p == 1;
      }
      NatToStringLength(n / r, r, k - 1);
    }
  }

  /** A string of k radix-r digits is worth less than r^k. */
  lemma {:induction false} DigitsValueBound(s: JsString, r: nat)
    requires IsRadix(r) && AllDigitsIn(s, r)
    ensures DigitsValue(s, r) < Power(r, |s|)
    decreases |s|
  {
    if s != [] {
      var init := s[..|s| - 1];
      assert AllDigitsIn(init, r) by {
        forall i | 0 <= i < |init| ensures IsDigitIn(init[i], r) {
          assert init[i] == s[i];
        }
      }
      DigitsValueBound(init, r);
      assert IsDigitIn(s[|s| - 1], r);
      BoundStep(DigitsValue(init, r), DigitValue(s[|s| - 1]).value, Power(r, |init|), r);
    }
  }

  lemma BoundStep(v: nat, d: nat, p: nat, r: nat)
    requires v < p && d < r
    ensures v * r + d < r * p
  {
    MultiplyMonotone(v + 1, p, r);
  }

  lemma MultiplyMonotone(a: nat, b: nat, r: nat)
    requires a <= b
    ensures a * r <= b * r
  {
  }

  /** `n.toString(radix)` for any integer: a minus sign and the digits of |n|. */
  function IntToString(n: int, r: nat): (s: JsString)
    requires IsRadix(r)
  {
    if n < 0 then ['-' as int] + NatToString(-n, r) else NatToString(n, r)
  }

  /** The value of a non-empty string of radix-`r` digits, most significant digit first. */
  function DigitsValue(s: JsString, r: nat): nat
    requires IsRadix(r) && AllDigitsIn(s, r)
  {
    if s == [] then 0 else DigitsValue(s[..|s| - 1], r) * r + DigitValue(s[|s| - 1]).value
  }

  /** Printing and reading back a non-negative integer is the identity. */
  lemma {:induction false} NatToStringRoundTrip(n: nat, r: nat)
    requires IsRadix(r)
    ensures DigitsValue(NatToString(n, r), r) == n
    decreases n
  {
    if n >= r {
      var s := NatToString(n, r);
      DivisionShrinks(n, r);
      NatToStringRoundTrip(n / r, r);
      assert s[..|s| - 1] == NatToString(n / r, r);
      assert DigitValue(s[|s| - 1]).value == n % r;
    }
  }

  /** Changing the case of the letters of a digit string does not change its value. */
  lemma {:induction false} DigitsValueUpper(s: JsString, r: nat)
    requires IsRadix(r) && AllDigitsIn(s, r)
    ensures AllDigitsIn(UpperAscii(s), r)
    ensures DigitsValue(UpperAscii(s), r) == DigitsValue(s, r)
    decreases |s|
  {
    var t := UpperAscii(s);
    forall i | 0 <= i < |t| ensures IsDigitIn(t[i], r) && DigitValue(t[i]) == DigitValue(s[i]) {
    }
    if s != [] {
      DigitsValueUpper(s[..|s| - 1], r);
      assert UpperAscii(s[..|s| - 1]) == t[..|t| - 1];
    }
  }

  /** Leading zeros do not change the value of a digit string. */
  lemma {:induction false} DigitsValueLeadingZeros(z: nat, s: JsString, r: nat)
    requires IsRadix(r) && AllDigitsIn(s, r)
    ensures AllDigitsIn(seq(z, _ => '0' as int) + s, r)
    ensures DigitsValue(seq(z, _ => '0' as int) + s, r) == DigitsValue(s, r)
    decreases |s|
  {
    var zs: JsString := seq(z, _ => '0' as int);
    var t := zs + s;
    assert forall i :: 0 <= i < |t| ==> IsDigitIn(t[i], r) by {
      forall i | 0 <= i < |t| ensures IsDigitIn(t[i], r) {
        if i < z { assert t[i] == '0' as int; } else { assert t[i] == s[i - z]; }
      }
    }
    if s == [] {
      assert t == zs;
      ZerosValue(z, r);
    } else {
      DigitsValueLeadingZeros(z, s[..|s| - 1], r);
      assert t[..|t| - 1] == zs + s[..|s| - 1];
    }
  }

  lemma {:induction false} ZerosValue(z: nat, r: nat)
    requires IsRadix(r)
    ensures AllDigitsIn(seq(z, _ => '0' as int), r)
    ensures DigitsValue(seq(z, _ => '0' as int), r) == 0
  {
    var zs: JsString := seq(z, _ => '0' as int);
    if z > 0 {
      ZerosValue(z - 1, r);
      assert zs[..z - 1] == seq(z - 1, _ => '0' as int);
    }
  }

  /** The number of leading characters of `s` that are radix-`r` digits. */
  function DigitPrefixLength(s: JsString, r: nat): (k: nat)
    ensures k <= |s|
    ensures k < |s| ==> !IsDigitIn(s[k], r)
  {
    if s == [] || !IsDigitIn(s[0], r) then 0 else 1 + DigitPrefixLength(s[1..], r)
  }

  /** The prefix that `DigitPrefixLength` measures is made of digits. */
  lemma {:induction false} DigitPrefixDigits(s: JsString, r: nat)
    ensures AllDigitsIn(s[..DigitPrefixLength(s, r)], r)
  {
    if s != [] && IsDigitIn(s[0], r) {
      var k := DigitPrefixLength(s, r);
      DigitPrefixDigits(s[1..], r);
      assert s[..k] == [s[0]] + s[1..][..k - 1];
    }
  }

  /** Whether `s` starts with `0` followed by the given letter in either case. */
  predicate HasRadixPrefix(s: JsString, lower: char)
  {
    |s| >= 2 && s[0] == '0' as int && (s[1] == Unit(lower) || s[1] == Unit(lower) - 32)
  }

  /** The global `parseInt(string, radix)`; radix 0 stands for an omitted radix.
      None is NaN. A zero result, signed or not, is 0. */
  function ParseInt(str: JsString, radix: nat): (v: Option<int>)
    requires radix == 0 || IsRadix(radix)
  {
    var s := TrimStart(str);
    var negative := s != [] && s[0] == '-' as int;
    var unsigned := if s != [] && (s[0] == '-' as int || s[0] == '+' as int) then s[1..] else s;
    var stripPrefix := radix == 0 || radix == 16;
    var hexPrefixed := stripPrefix && HasRadixPrefix(unsigned, 'x');
    var r := if hexPrefixed then 16 else if radix == 0 then 10 else radix;
    var body := if hexPrefixed then unsigned[2..] else unsigned;
    var k := DigitPrefixLength(body, r);
    DigitPrefixDigits(body, r);
    if k == 0 then None
    else
      var m: int := DigitsValue(body[..k], r);
      Some(if negative then -m else m)
  }

  /** StringToBigInt: what `BigInt(string)` returns; None is the SyntaxError it throws. */
  function StringToBigInt(str: JsString): (v: Option<int>)
  {
    var text := Trim(str);
    if text == [] then Some(0)
    else if HasRadixPrefix(text, 'x') then NonDecimal(text[2..], 16)
    else if HasRadixPrefix(text, 'o') then NonDecimal(text[2..], 8)
    else if HasRadixPrefix(text, 'b') then NonDecimal(text[2..], 2)
    else if text[0] == '-' as int then
      (if |text| > 1 && AllDigitsIn(text[1..], 10) then Some(0 - DigitsValue(text[1..], 10)) else None)
    else if text[0] == '+' as int then
      (if |text| > 1 && AllDigitsIn(text[1..], 10) then Some(DigitsValue(text[1..], 10)) else None)
    else if AllDigitsIn(text, 10) then Some(DigitsValue(text, 10))
    else None
  }

  /** The digits of a `0x`, `0o` or `0b` literal: at least one, no sign. */
  function NonDecimal(digits: JsString, r: nat): Option<int>
    requires IsRadix(r)
  {
    if digits != [] && AllDigitsIn(digits, r) then Some(DigitsValue(digits, r)) else None
  }

  // ----- facts used by the tools -----

  /** A string of digits is read back exactly by parseInt with an explicit radix; radixes
      above 33 are excluded because there `x` is a digit and could start a `0x` prefix. */
  lemma ParseIntDigits(s: JsString, r: nat)
    requires 2 <= r <= 33 && s != [] && AllDigitsIn(s, r)
    ensures ParseInt(s, r) == Some(DigitsValue(s, r))
  {
    assert IsDigitIn(s[0], r);
    assert s[0] != '-' as int && s[0] != '+' as int && !IsWhitespace(s[0]);
    assert TrimStart(s) == s;
    assert |s| >= 2 ==> IsDigitIn(s[1], r) && s[1] != 'x' as int && s[1] != 'X' as int;
    DigitPrefixAll(s, r);
    assert s[..|s|] == s;
  }

  /** Without a radix, a string of decimal digits is read as a decimal number: a decimal
      digit string cannot start with `0x`. */
  lemma ParseIntDecimal(s: JsString)
    requires s != [] && AllDigitsIn(s, 10)
    ensures ParseInt(s, 0) == Some(DigitsValue(s, 10))
  {
    assert IsDigitIn(s[0], 10);
    assert s[0] != '-' as int && s[0] != '+' as int && !IsWhitespace(s[0]);
    assert TrimStart(s) == s;
    assert |s| >= 2 ==> IsDigitIn(s[1], 10) && s[1] != 'x' as int && s[1] != 'X' as int;
    DigitPrefixAll(s, 10);
    assert s[..|s|] == s;
  }

  /** Without a radix, parseInt agrees with radix 10 whenever radix 10 reads a non-zero
      value: a `0x` prefix reads as 0 in radix 10. */
  lemma ParseIntRadixless(s: JsString)
    requires ParseInt(s, 10).Some? && ParseInt(s, 10).value != 0
    ensures ParseInt(s, 0) == ParseInt(s, 10)
  {
    var t := TrimStart(s);
    var unsigned := if t != [] && (t[0] == '-' as int || t[0] == '+' as int) then t[1..] else t;
    DecimalReadOfHexPrefix(unsigned);
  }

  /** Read in radix 10, a text starting `0x` or `0X` has the one digit `0`. */
  lemma DecimalReadOfHexPrefix(u: JsString)
    ensures HasRadixPrefix(u, 'x') ==>
              DigitPrefixLength(u, 10) == 1 && u[..1] == ['0' as int] && DigitsValue(u[..1], 10) == 0
  {
    if HasRadixPrefix(u, 'x') {
      assert !IsDigitIn(u[1], 10);
      assert DigitPrefixLength(u[1..], 10) == 0;
      assert u[..1] == ['0' as int];
      assert DigitsValue(u[..1], 10) == DigitsValue([], 10) * 10 + 0;
    }
  }

  /** Without a radix, `0x` followed by hex digits is read as hex; radix 10 reads the same
      text as 0. */
  lemma ParseIntHexPrefix(h: JsString)
    requires h != [] && AllDigitsIn(h, 16)
    ensures ParseInt(['0' as int, 'x' as int] + h, 0) == Some(DigitsValue(h, 16))
    ensures ParseInt(['0' as int, 'x' as int] + h, 10) == Some(0)
  {
    var s := ['0' as int, 'x' as int] + h;
    assert TrimStart(s) == s;
    assert s[2..] == h;
    DigitPrefixAll(h, 16);
    assert h[..|h|] == h;
    assert !IsDigitIn(s[1], 10);
    assert DigitPrefixLength(s[1..], 10) == 0;
    assert DigitPrefixLength(s, 10) == 1;
    assert s[..1] == ['0' as int];
    assert DigitsValue(s[..1], 10) == DigitsValue([], 10) * 10 + 0;
  }

  /** A string whose first character is neither whitespace, a sign nor a digit is NaN. */
  lemma ParseIntNoDigit(s: JsString, r: nat)
    requires 2 <= r <= 36 && s != [] && !IsWhitespace(s[0]) && !IsDigitIn(s[0], r)
    requires s[0] != '-' as int && s[0] != '+' as int
    ensures ParseInt(s, r) == None
  {
    assert TrimStart(s) == s;
    assert !HasRadixPrefix(s, 'x') by {
      assert IsDigitIn('0' as int, r);
    }
  }

  lemma {:induction false} DigitPrefixAll(s: JsString, r: nat)
    requires AllDigitsIn(s, r)
    ensures DigitPrefixLength(s, r) == |s|
  {
    if s != [] {
      DigitPrefixAll(s[1..], r);
    }
  }

  lemma DecimalDigitsAreDigits(s: JsString)
    ensures AllDigits(s) <==> AllDigitsIn(s, 10)
  {
    forall i | 0 <= i < |s| ensures IsDigit(s[i]) <==> IsDigitIn(s[i], 10) {
    }
  }

  // ----- fixed-width hex fields -----

  /** `n.toString(16).padStart(w, '0')`. */
  function PaddedHex(n: nat, w: nat): (h: JsString)
    ensures |h| >= w
  {
    PadStartZero(NatToString(n, 16), w)
  }

  /** The last `w` hex digits of `n` in lower case, most significant first. */
  function FixedHex(n: nat, w: nat): (h: JsString)
    ensures |h| == w
  {
    if w == 0 then [] else FixedHex(n / 16, w - 1) + [DigitChar(n % 16)]
  }

  /** Every character of a fixed-width hex field is a lower-case hex digit. */
  predicate IsLowerHex(u: CodeUnit)
  {
    IsDigitIn(u, 16) && !IsUpper(u)
  }

  lemma {:induction false} FixedHexChars(n: nat, w: nat)
    ensures forall i :: 0 <= i < w ==> IsLowerHex(FixedHex(n, w)[i])
  {
    if w > 0 {
      FixedHexChars(n / 16, w - 1);
      assert forall i :: 0 <= i < w - 1 ==> FixedHex(n, w)[i] == FixedHex(n / 16, w - 1)[i];
    }
  }

  /** A value with at most `w` hex digits is printed and zero-padded to exactly the `w`-digit
      field. */
  lemma {:induction false} PaddedHexIsFixed(n: nat, w: nat)
    requires w >= 1 && n < Power(16, w)
    ensures PaddedHex(n, w) == FixedHex(n, w)
  {
    if n < 16 {
      FixedHexZero(w - 1);
      assert NatToString(n, 16) == [DigitChar(n)];
      assert PaddedHex(n, w) == seq(w - 1, _ => '0' as int) + [DigitChar(n)];
    } else {
      assert Power(16, 1) == 16;
      var a := NatToString(n / 16, 16);
      NatToStringLength(n / 16, 16, w - 1);
      PaddedHexIsFixed(n / 16, w - 1);
      assert NatToString(n, 16) == a + [DigitChar(n % 16)];
      PadAppendDigit(a, DigitChar(n % 16), w);
    }
  }

  lemma FixedHexZero(k: nat)
    ensures FixedHex(0, k) == seq(k, _ => '0' as int)
  {
    if k > 0 {
      FixedHexZero(k - 1);
    }
  }

  lemma PadAppendDigit(a: JsString, d: CodeUnit, w: nat)
    requires 1 <= w && |a| <= w - 1
    ensures PadStartZero(a + [d], w) == PadStartZero(a, w - 1) + [d]
  {
    var z := seq(w - 1 - |a|, _ => '0' as int);
    assert PadStartZero(a + [d], w) == z + (a + [d]);
    assert PadStartZero(a, w - 1) == z + a;
  }

  /** A fixed-width field reads back as its value. */
  lemma {:induction false} FixedHexValue(n: nat, w: nat)
    requires n < Power(16, w)
    ensures AllDigitsIn(FixedHex(n, w), 16) && DigitsValue(FixedHex(n, w), 16) == n
  {
    FixedHexChars(n, w);
    if w > 0 {
      var h := FixedHex(n, w);
      FixedHexValue(n / 16, w - 1);
      assert h[..w - 1] == FixedHex(n / 16, w - 1);
    }
  }

  /** Fields of the same width compare as their values: digit characters are ordered like
      digits. */
  lemma {:induction false} FixedHexOrder(m: nat, n: nat, w: nat)
    requires m < n < Power(16, w)
    ensures exists i :: LessAt(FixedHex(m, w), FixedHex(n, w), i)
  {
    assert Power(16, 0) == 1;
    var a, b := FixedHex(m, w), FixedHex(n, w);
    var a', b' := FixedHex(m / 16, w - 1), FixedHex(n / 16, w - 1);
    assert a == a' + [DigitChar(m % 16)] && b == b' + [DigitChar(n % 16)];
    if m / 16 < n / 16 {
      FixedHexOrder(m / 16, n / 16, w - 1);
      var i :| LessAt(a', b', i);
      assert LessAt(a, b, i);
    } else {
      assert m / 16 == n / 16 && m % 16 < n % 16;
      DigitCharOrder(m % 16, n % 16);
      assert LessAt(a, b, w - 1);
    }
  }

  lemma DigitCharOrder(d: nat, e: nat)
    requires d < e < 36
    ensures DigitChar(d) < DigitChar(e)
  {
  }
}
