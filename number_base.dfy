/** The number-base converter (tools/NumberBase.tsx): four fields, decimal, hex, binary and
    octal, each of which can be edited; a value that `BigInt` accepts re-renders all four,
    anything else is kept in the edited field only. */
module NumberBase {
  import opened JsStrings
  import opened JsNumbers

  datatype Base = Decimal | Hex | Binary | Octal

  /** The contents of the four fields. */
  datatype BaseValues = BaseValues(decimal: JsString, hex: JsString, binary: JsString, octal: JsString)

  const Empty := BaseValues([], [], [], [])

  function Radix(b: Base): nat
  {
    match b
    case Decimal => 10
    case Hex => 16
    case Binary => 2
    case Octal => 8
  }

  function Field(v: BaseValues, b: Base): JsString
  {
    match b
    case Decimal => v.decimal
    case Hex => v.hex
    case Binary => v.binary
    case Octal => v.octal
  }

  /** `{ ...prev, [fromBase]: value }`. */
  function WithField(v: BaseValues, b: Base, s: JsString): (r: BaseValues)
    ensures Field(r, b) == s
    ensures forall c :: c != b ==> Field(r, c) == Field(v, c)
  {
    match b
    case Decimal => v.(decimal := s)
    case Hex => v.(hex := s)
    case Binary => v.(binary := s)
    case Octal => v.(octal := s)
  }

  /** The literal prefix `0x`, `0b` or `0o` that `update` puts in front of a non-decimal field. */
  function Prefix(b: Base): (p: JsString)
    requires b != Decimal
  {
    match b
    case Hex => ['0' as int, 'x' as int]
    case Binary => ['0' as int, 'b' as int]
    case Octal => ['0' as int, 'o' as int]
  }

  /** `s.replace(/^0x/, '')` and the like: one leading copy of `p` removed. */
  function StripPrefix(s: JsString, p: JsString): (r: JsString)
    ensures StartsWith(s, p) ==> s == p + r
    ensures !StartsWith(s, p) ==> r == s
  {
    if StartsWith(s, p) then s[|p|..] else s
  }

  /** The integer `update` reads from a field, or None when `BigInt` throws: the value is
      trimmed, and a non-decimal value gets its prefix, once, whether or not it had it. */
  function Parse(value: JsString, b: Base): Option<int>
  {
    var clean := Trim(value);
    if b == Decimal then StringToBigInt(clean)
    else StringToBigInt(Prefix(b) + StripPrefix(clean, Prefix(b)))
  }

  /** `toString(10)`, `toString(16).toUpperCase()`, `toString(2)` and `toString(8)`. */
  function Render(n: int): BaseValues
  {
    BaseValues(IntToString(n, 10), UpperAscii(IntToString(n, 16)), IntToString(n, 2), IntToString(n, 8))
  }

  /** The fields after `update(value, fromBase)`. */
  function Updated(v: BaseValues, value: JsString, b: Base): BaseValues
  {
    if value == [] then Empty
    else
      match Parse(value, b)
      case Some(n) => Render(n)
      case None => WithField(v, b, value)
  }

  // ----- properties -----

  /** An empty value clears all four fields. */
  lemma EmptyClears(v: BaseValues, b: Base)
    ensures forall c :: Field(Updated(v, [], b), c) == []
  {
  }

  /** On a parse failure only the edited field changes, and it holds the raw text. */
  lemma FailureKeepsOthers(v: BaseValues, value: JsString, b: Base)
    requires value != [] && Parse(value, b).None?
    ensures Field(Updated(v, value, b), b) == value
    ensures forall c :: c != b ==> Field(Updated(v, value, b), c) == Field(v, c)
  {
  }

  /** A whitespace-only decimal entry is read as 0, since `BigInt("")` is 0. */
  lemma BlankDecimalIsZero(v: BaseValues, value: JsString)
    requires value != [] && NoNonBlank(value)
    ensures Updated(v, value, Decimal) == Render(0)
  {
    TrimEmptyIffBlank(value);
  }

  /** The same blank value in a non-decimal field is `0x` alone, which `BigInt` rejects. */
  lemma BlankOtherFails(value: JsString, b: Base)
    requires b != Decimal && NoNonBlank(value)
    ensures Parse(value, b).None?
  {
    TrimEmptyIffBlank(value);
    var t := Prefix(b) + StripPrefix([], Prefix(b));
    assert t == Prefix(b);
    TrimOfSolidEnds(t);
    assert t[2..] == [];
  }

  /** A non-decimal field accepts its value with or without the lower-case prefix. */
  lemma PrefixOptional(t: JsString, b: Base)
    requires b != Decimal && Trim(t) == t && !StartsWith(t, Prefix(b))
    ensures Parse(Prefix(b) + t, b) == Parse(t, b)
  {
    var p := Prefix(b);
    var w := p + t;
    assert w[0] == '0' as int && w[|w| - 1] == (if t == [] then p[1] else t[|t| - 1]);
    if t != [] {
      assert !IsWhitespace(t[|t| - 1]) by {
        assert Trim(t) != [];
      }
    }
    TrimOfSolidEnds(w);
    assert StartsWith(w, p) by {
      assert w[..2] == p;
    }
    assert w[|p|..] == t;
  }

  /** A field rendered from a non-negative integer, read back in its own base, gives the
      integer; the decimal field does so for every integer. */
  lemma ReadBack(n: int, b: Base)
    requires n >= 0 || b == Decimal
    ensures Parse(Field(Render(n), b), b) == Some(n)
  {
    if b == Decimal {
      DecimalReadBack(n);
    } else {
      var r := Radix(b);
      var f := Field(Render(n), b);
      var digits := NatToString(n, r);
      NatToStringRoundTrip(n, r);
      if b == Hex {
        DigitsValueUpper(digits, 16);
        assert f == UpperAscii(digits);
      } else {
        assert f == digits;
      }
      assert AllDigitsIn(f, r) && DigitsValue(f, r) == n;
      assert f[0] != '0' as int || |f| == 1 by {
        if |f| >= 2 { assert n >= r; assert digits[0] != '0' as int; }
      }
      PrefixedDigits(f, b);
    }
  }

  /** A digit string of the base, without a leading `0` unless it is `0`, gets the prefix
      added by `update` and is read with the value of its digits. */
  lemma PrefixedDigits(f: JsString, b: Base)
    requires b != Decimal && f != [] && AllDigitsIn(f, Radix(b))
    requires f[0] != '0' as int || |f| == 1
    ensures Parse(f, b) == Some(DigitsValue(f, Radix(b)))
  {
    var p := Prefix(b);
    assert !IsWhitespace(f[0]) && !IsWhitespace(f[|f| - 1]) by {
      assert IsDigitIn(f[0], Radix(b)) && IsDigitIn(f[|f| - 1], Radix(b));
    }
    TrimOfSolidEnds(f);
    assert !StartsWith(f, p) by {
      if |f| >= 2 { assert f[..2] != p by { assert f[..2][0] == f[0]; } }
    }
    ParseOfClean(f, b);
    BigIntOfPrefixed(f, b);
  }

  lemma ParseOfClean(f: JsString, b: Base)
    requires b != Decimal && Trim(f) == f && !StartsWith(f, Prefix(b))
    ensures Parse(f, b) == StringToBigInt(Prefix(b) + f)
  {
  }

  lemma BigIntOfPrefixed(f: JsString, b: Base)
    requires b != Decimal && f != [] && AllDigitsIn(f, Radix(b))
    ensures StringToBigInt(Prefix(b) + f) == Some(DigitsValue(f, Radix(b)))
  {
    var w := Prefix(b) + f;
    assert !IsWhitespace(f[|f| - 1]) by {
      assert IsDigitIn(f[|f| - 1], Radix(b));
    }
    assert w[|w| - 1] == f[|f| - 1];
    TrimOfSolidEnds(w);
    assert w[2..] == f;
  }

  lemma DecimalReadBack(n: int)
    ensures Parse(IntToString(n, 10), Decimal) == Some(n)
  {
    var digits := NatToString(if n < 0 then -n else n, 10);
    NatToStringRoundTrip(if n < 0 then -n else n, 10);
    if n < 0 {
      DecimalNegativeRead(digits);
    } else {
      DecimalDigitsRead(digits);
    }
  }

  /** An unsigned decimal digit string is its own trimmed form and `BigInt` reads it. */
  lemma DecimalDigitsRead(f: JsString)
    requires f != [] && AllDigitsIn(f, 10)
    ensures Parse(f, Decimal) == Some(DigitsValue(f, 10))
  {
    assert IsDigitIn(f[0], 10) && IsDigitIn(f[|f| - 1], 10);
    TrimOfSolidEnds(f);
    assert |f| >= 2 ==> IsDigitIn(f[1], 10);
  }

  /** A minus sign followed by decimal digits is read as the negated value. */
  lemma DecimalNegativeRead(d: JsString)
    requires d != [] && AllDigitsIn(d, 10)
    ensures Parse(['-' as int] + d, Decimal) == Some(0 - DigitsValue(d, 10))
  {
    var f := ['-' as int] + d;
    assert f[|f| - 1] == d[|d| - 1] && IsDigitIn(d[|d| - 1], 10);
    TrimOfSolidEnds(f);
    assert f[1..] == d;
  }

  /** The hex field is written in upper case. */
  lemma HexFieldUpper(n: int)
    ensures forall i :: 0 <= i < |Render(n).hex| ==> !IsLower(Render(n).hex[i])
  {
  }

  /** Re-entering any field rendered from a non-negative integer reproduces all four fields. */
  lemma Reentry(v: BaseValues, n: nat, b: Base)
    ensures Updated(v, Field(Render(n), b), b) == Render(n)
  {
    ReadBack(n, b);
    assert Field(Render(n), b) != [];
  }

  /** The number-base converter's single state: the four fields. */
  class NumberBaseTool {
    var values: BaseValues

    constructor ()
      ensures values == Empty
    {
      values := Empty;
    }

    /** `update(value, fromBase)`. */
    method Update(value: JsString, fromBase: Base)
      modifies this
      ensures values == Updated(old(values), value, fromBase)
    {
      if value == [] {
        values := Empty;
        return;
      }
      var num := Parse(value, fromBase);
      if num.Some? {
        values := Render(num.value);
      } else {
        values := WithField(values, fromBase, value);
      }
    }
  }
}
