/** The colour converter (tools/ColorTool.tsx): six-digit hex colours to RGB and back, the
    clamped RGB fields and the eleven-shade palette built around the entered colour. */
module Colors {
  import opened JsStrings
  import opened JsNumbers

  datatype Rgb = Rgb(r: int, g: int, b: int)

  predicate InRange(c: Rgb)
  {
    0 <= c.r <= 255 && 0 <= c.g <= 255 && 0 <= c.b <= 255
  }

  const Hash: CodeUnit := '#' as int

  // ----- hexToRgb -----

  /** The six digits `/^#?([a-f\d]{2})([a-f\d]{2})([a-f\d]{2})$/i` captures, when it matches:
      six hex digits in either case, with or without one leading `#`. */
  function HexBody(hex: JsString): (d: Option<JsString>)
    ensures d.Some? ==> |d.value| == 6 && AllHexDigits(d.value)
    ensures d.Some? ==> |hex| == 6 || |hex| == 7
  {
    if |hex| == 6 && AllHexDigits(hex) then Some(hex)
    else if |hex| == 7 && hex[0] == Hash && AllHexDigits(hex[1..]) then Some(hex[1..])
    else None
  }

  /** The value of two hex digits, `parseInt(pair, 16)` (see `PairIsParseInt`). */
  function PairValue(p: JsString): (v: nat)
    requires |p| == 2 && AllHexDigits(p)
    ensures v <= 255
  {
    HexDigitValue(p[0]) * 16 + HexDigitValue(p[1])
  }

  /** `hexToRgb`; None is `null`. */
  function HexToRgb(hex: JsString): (c: Option<Rgb>)
    ensures c.Some? ==> InRange(c.value)
    ensures c.Some? <==> HexBody(hex).Some?
  {
    match HexBody(hex)
    case None => None
    case Some(d) => Some(Rgb(PairValue(d[0..2]), PairValue(d[2..4]), PairValue(d[4..6])))
  }

  lemma HexDigitIsDigitIn(u: CodeUnit)
    ensures IsHexDigit(u) <==> IsDigitIn(u, 16)
    ensures IsHexDigit(u) ==> DigitValue(u) == Some(HexDigitValue(u))
  {
  }

  /** The pair value is what `parseInt(pair, 16)` returns. */
  lemma PairIsParseInt(p: JsString)
    requires |p| == 2 && AllHexDigits(p)
    ensures ParseInt(p, 16) == Some(PairValue(p))
  {
    HexDigitIsDigitIn(p[0]);
    HexDigitIsDigitIn(p[1]);
    assert AllDigitsIn(p, 16);
    ParseIntDigits(p, 16);
    assert p[..1] == [p[0]] && [p[0]][..0] == [];
    assert DigitsValue(p[..1], 16) == HexDigitValue(p[0]);
  }

  /** The three-digit shorthand is not accepted, with or without `#`. */
  lemma ShorthandRejected(hex: JsString)
    requires |hex| == 3 || |hex| == 4
    ensures HexToRgb(hex) == None
  {
  }

  // ----- componentToHex and rgbToHex -----

  /** `componentToHex`: the hex digits of the (integral) component, zero-padded to two. */
  function ComponentToHex(c: int): JsString
  {
    var hex := IntToString(c, 16);
    if |hex| == 1 then ['0' as int] + hex else hex
  }

  /** `rgbToHex`. */
  function RgbToHex(r: int, g: int, b: int): JsString
  {
    [Hash] + ComponentToHex(r) + ComponentToHex(g) + ComponentToHex(b)
  }

  /** A component in 0..255 takes exactly two lower-case digits. */
  lemma ComponentField(c: int)
    requires 0 <= c <= 255
    ensures ComponentToHex(c) == FixedHex(c, 2)
  {
    assert Power(16, 2) == 256;
    NatToStringLength(c, 16, 2);
    PaddedHexIsFixed(c, 2);
    var s := NatToString(c, 16);
    if |s| == 1 {
      assert ['0' as int] + s == seq(1, _ => '0' as int) + s;
    }
  }

  /** Two fixed digits read back as the component. */
  lemma FixedPair(c: int)
    requires 0 <= c <= 255
    ensures |FixedHex(c, 2)| == 2 && AllHexDigits(FixedHex(c, 2)) && PairValue(FixedHex(c, 2)) == c
  {
    var h := FixedHex(c, 2);
    assert h == [DigitChar(c / 16 % 16), DigitChar(c % 16)] by {
      assert h == FixedHex(c / 16, 1) + [DigitChar(c % 16)];
    }
    assert c / 16 % 16 == c / 16;
  }

  /** `rgbToHex` on components in 0..255 is `#` and six lower-case hex digits. */
  lemma RgbToHexShape(c: Rgb)
    requires InRange(c)
    ensures var h := RgbToHex(c.r, c.g, c.b);
            |h| == 7 && h[0] == Hash && forall i :: 1 <= i < 7 ==> IsLowerHex(h[i])
  {
    ComponentField(c.r);
    ComponentField(c.g);
    ComponentField(c.b);
    FixedHexChars(c.r, 2);
    FixedHexChars(c.g, 2);
    FixedHexChars(c.b, 2);
    var x, y, z := FixedHex(c.r, 2), FixedHex(c.g, 2), FixedHex(c.b, 2);
    var h := [Hash] + x + y + z;
    assert forall i :: 1 <= i < 7 ==> h[i] == if i < 3 then x[i - 1] else if i < 5 then y[i - 3] else z[i - 5];
  }

  /** Reading back a written colour gives the components. */
  lemma RgbRoundTrip(c: Rgb)
    requires InRange(c)
    ensures HexToRgb(RgbToHex(c.r, c.g, c.b)) == Some(c)
  {
    ComponentField(c.r);
    ComponentField(c.g);
    ComponentField(c.b);
    FixedPair(c.r);
    FixedPair(c.g);
    FixedPair(c.b);
    var x, y, z := FixedHex(c.r, 2), FixedHex(c.g, 2), FixedHex(c.b, 2);
    var h := [Hash] + x + y + z;
    var d := h[1..];
    assert d == x + y + z;
    assert d[0..2] == x && d[2..4] == y && d[4..6] == z;
    assert AllHexDigits(d) by {
      assert forall i :: 0 <= i < 6 ==> d[i] == if i < 2 then x[i] else if i < 4 then y[i - 2] else z[i - 4];
    }
  }

  /** Writing back a read colour gives `#` and its digits in lower case. */
  lemma HexRoundTrip(hex: JsString)
    requires HexToRgb(hex).Some?
    ensures var c := HexToRgb(hex).value;
            RgbToHex(c.r, c.g, c.b) == [Hash] + LowerAscii(HexBody(hex).value)
  {
    DigitsRoundTrip(HexBody(hex).value);
  }

  lemma DigitsRoundTrip(d: JsString)
    requires |d| == 6 && AllHexDigits(d)
    ensures RgbToHex(PairValue(d[0..2]), PairValue(d[2..4]), PairValue(d[4..6])) == [Hash] + LowerAscii(d)
  {
    var p, q, s := d[0..2], d[2..4], d[4..6];
    assert ComponentToHex(PairValue(p)) == LowerAscii(p) by {
      LowerPair(p);
      ComponentField(PairValue(p));
    }
    assert ComponentToHex(PairValue(q)) == LowerAscii(q) by {
      LowerPair(q);
      ComponentField(PairValue(q));
    }
    assert ComponentToHex(PairValue(s)) == LowerAscii(s) by {
      LowerPair(s);
      ComponentField(PairValue(s));
    }
    LowerThree(d);
    Regroup([Hash], LowerAscii(p), LowerAscii(q), LowerAscii(s));
  }

  lemma Regroup(h: JsString, a: JsString, b: JsString, c: JsString)
    ensures h + a + b + c == h + (a + b + c)
  {
  }

  lemma LowerThree(d: JsString)
    requires |d| == 6
    ensures LowerAscii(d) == LowerAscii(d[0..2]) + LowerAscii(d[2..4]) + LowerAscii(d[4..6])
  {
  }

  /** The two fixed digits of a pair's value are the pair in lower case. */
  lemma LowerPair(p: JsString)
    requires |p| == 2 && AllHexDigits(p)
    ensures FixedHex(PairValue(p), 2) == LowerAscii(p)
  {
    var a, b := HexDigitValue(p[0]), HexDigitValue(p[1]);
    PairDigits(a, b);
    var v := PairValue(p);
    assert FixedHex(v, 2) == [DigitChar(a), DigitChar(b)] by {
      assert FixedHex(v, 2) == FixedHex(v / 16, 1) + [DigitChar(v % 16)];
    }
    LowerDigit(p[0]);
    LowerDigit(p[1]);
  }

  lemma PairDigits(a: nat, b: nat)
    requires a < 16 && b < 16
    ensures (a * 16 + b) / 16 % 16 == a && (a * 16 + b) % 16 == b
  {
  }

  /** The digit character of a hex digit's value is the digit in lower case. */
  lemma LowerDigit(u: CodeUnit)
    requires IsHexDigit(u)
    ensures DigitChar(HexDigitValue(u)) == ToLowerUnit(u)
  {
  }

  // ----- the RGB fields -----

  datatype Channel = Red | Green | Blue

  /** `Math.min(255, Math.max(0, num))`. */
  function Clamp(n: int): (v: int)
    ensures 0 <= v <= 255
    ensures 0 <= n <= 255 ==> v == n
    ensures n < 0 ==> v == 0
    ensures n > 255 ==> v == 255
  {
    if n > 255 then 255 else if n < 0 then 0 else n
  }

  /** `Math.min(255, Math.max(0, parseInt(val) || 0))`: NaN counts as 0. */
  function TypedComponent(val: JsString): (v: int)
    ensures 0 <= v <= 255
  {
    var p := ParseInt(val, 0);
    Clamp(if p.Some? then p.value else 0)
  }

  /** Text that does not start with a number sets the component to 0. */
  lemma NonNumericIsZero(val: JsString)
    requires ParseInt(val, 0).None?
    ensures TypedComponent(val) == 0
  {
  }

  /** `{ ...rgb, [key]: v }`. */
  function WithChannel(c: Rgb, key: Channel, v: int): (d: Rgb)
    ensures key == Red ==> d == Rgb(v, c.g, c.b)
    ensures key == Green ==> d == Rgb(c.r, v, c.b)
    ensures key == Blue ==> d == Rgb(c.r, c.g, v)
  {
    match key
    case Red => c.(r := v)
    case Green => c.(g := v)
    case Blue => c.(b := v)
  }

  // ----- the palette -----

  const White := Rgb(255, 255, 255)
  const Black := Rgb(0, 0, 0)

  /** The shades of the palette, in order. */
  const Shades: seq<nat> := [50, 100, 200, 300, 400, 500, 600, 700, 800, 900, 950]

  /** The colour each shade is mixed with: white below 500, black above. */
  function MixTarget(shade: nat): Rgb
  {
    if shade < 500 then White else Black
  }

  /** The weight of the mixing colour for each shade, as `generateTailwindPalette` lists it. */
  function MixWeight(shade: nat): (w: real)
    ensures 0.0 <= w <= 1.0
  {
    match shade
    case 50 => 0.95
    case 100 => 0.9
    case 200 => 0.75
    case 300 => 0.5
    case 400 => 0.25
    case 600 => 0.1
    case 700 => 0.3
    case 800 => 0.5
    case 900 => 0.75
    case 950 => 0.9
    case _ => 0.0
  }

  /** `generateTailwindPalette(baseHex)`; `mix` is `mixColors`, whose rounding of real
      weights is not modelled. Shade 500 is the entered text. */
  function Palette(baseHex: JsString, mix: (Rgb, Rgb, real) -> Rgb): map<nat, JsString>
  {
    match HexToRgb(baseHex)
    case None => map[]
    case Some(c) =>
      map k | k in Shades ::
        if k == 500 then baseHex else ShadeHex(c, k, mix)
  }

  /** One mixed shade: `rgbToHex` of `mixColors(rgb, white or black, weight)`. */
  function ShadeHex(c: Rgb, shade: nat, mix: (Rgb, Rgb, real) -> Rgb): JsString
  {
    var m := mix(c, MixTarget(shade), MixWeight(shade));
    RgbToHex(m.r, m.g, m.b)
  }

  /** An unreadable colour has no palette. */
  lemma PaletteOfUnreadable(baseHex: JsString, mix: (Rgb, Rgb, real) -> Rgb)
    ensures HexToRgb(baseHex).None? <==> Palette(baseHex, mix) == map[]
  {
    if HexToRgb(baseHex).Some? {
      assert 500 in Palette(baseHex, mix);
    }
  }

  /** A readable colour has the eleven shades, 500 being the entered text. */
  lemma PaletteKeys(baseHex: JsString, mix: (Rgb, Rgb, real) -> Rgb)
    requires HexToRgb(baseHex).Some?
    ensures Palette(baseHex, mix).Keys == {50, 100, 200, 300, 400, 500, 600, 700, 800, 900, 950}
    ensures Palette(baseHex, mix)[500] == baseHex
  {
    ShadeSet();
    assert Palette(baseHex, mix).Keys == set k | k in Shades;
  }

  lemma ShadeSet()
    ensures (set k | k in Shades) == {50, 100, 200, 300, 400, 500, 600, 700, 800, 900, 950}
  {
  }

  /** Every shade other than 500 is a `#rrggbb` colour, as long as mixing two colours in
      range gives a colour in range. */
  lemma PaletteShades(baseHex: JsString, mix: (Rgb, Rgb, real) -> Rgb)
    requires forall a: Rgb, b: Rgb, w: real :: InRange(a) && InRange(b) && 0.0 <= w <= 1.0 ==> InRange(mix(a, b, w))
    ensures forall k :: k in Palette(baseHex, mix) && k != 500 ==>
              |Palette(baseHex, mix)[k]| == 7 && Palette(baseHex, mix)[k][0] == Hash
  {
    if HexToRgb(baseHex).Some? {
      var c := HexToRgb(baseHex).value;
      var p := Palette(baseHex, mix);
      forall k | k in p && k != 500
        ensures |p[k]| == 7 && p[k][0] == Hash
      {
        assert p[k] == ShadeHex(c, k, mix);
        var m := mix(c, MixTarget(k), MixWeight(k));
        assert InRange(m);
        RgbToHexShape(m);
      }
    }
  }

  // ----- the component -----

  class ColorTool {
    var hex: JsString
    var rgb: Rgb

    predicate Valid()
      reads this
    {
      InRange(rgb)
    }

    /** The initial state `#3b82f6`, rgb(59, 130, 246). */
    constructor()
      ensures Valid() && hex == InitialHex && rgb == Rgb(59, 130, 246)
    {
      hex := InitialHex;
      rgb := Rgb(59, 130, 246);
    }

    /** `handleHexChange`: the text is kept as typed; the RGB fields follow when it reads. */
    method HandleHexChange(val: JsString)
      requires Valid()
      modifies this
      ensures Valid() && hex == val
      ensures rgb == if HexToRgb(val).Some? then HexToRgb(val).value else old(rgb)
    {
      hex := val;
      var rgbVal := HexToRgb(val);
      if rgbVal.Some? {
        rgb := rgbVal.value;
      }
    }

    /** `handleRgbChange(key, val)`: the edited component is clamped, the others kept, and
        the hex field is rewritten from the new components, so the two agree again. */
    method HandleRgbChange(key: Channel, val: JsString)
      requires Valid()
      modifies this
      ensures Valid() && rgb == WithChannel(old(rgb), key, TypedComponent(val))
      ensures hex == RgbToHex(rgb.r, rgb.g, rgb.b) && HexToRgb(hex) == Some(rgb)
    {
      var num := TypedComponent(val);
      var newRgb := WithChannel(rgb, key, num);
      rgb := newRgb;
      hex := RgbToHex(newRgb.r, newRgb.g, newRgb.b);
      RgbRoundTrip(newRgb);
    }
  }

  const InitialHex: JsString := ['#' as int, '3' as int, 'b' as int, '8' as int, '2' as int, 'f' as int, '6' as int]

  /** The initial hex text and RGB fields describe the same colour. */
  lemma InitialAgrees()
    ensures HexToRgb(InitialHex) == Some(Rgb(59, 130, 246))
  {
    var d := InitialHex[1..];
    assert AllHexDigits(d) by {
      assert forall i :: 0 <= i < 6 ==> IsHexDigit(d[i]);
    }
    assert d[0..2] == ['3' as int, 'b' as int] && d[2..4] == ['8' as int, '2' as int] && d[4..6] == ['f' as int, '6' as int];
  }
}
