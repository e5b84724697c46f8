/** The code editor's highlighted layer: Prism's markup when the language has a grammar,
    otherwise the text with `&`, `<` and `>` escaped; a trailing line break gets a `<br>`
    so that the layer keeps the height of the text area. */
module CodeEditor {
  import opened JsStrings

  const Ampersand: CodeUnit := 0x26
  const LessThan: CodeUnit := 0x3C
  const GreaterThan: CodeUnit := 0x3E
  const Semicolon: CodeUnit := 0x3B

  /** `&amp;`, `&lt;` and `&gt;`. */
  const AmpEntity: JsString := [Ampersand, 0x61, 0x6D, 0x70, Semicolon]
  const LtEntity: JsString := [Ampersand, 0x6C, 0x74, Semicolon]
  const GtEntity: JsString := [Ampersand, 0x67, 0x74, Semicolon]
  /** `<br>`. */
  const LineBreakTag: JsString := [LessThan, 0x62, 0x72, GreaterThan]

  /** The fallback: `&` first, then `<`, then `>`. Text without any of the three passes
      through unchanged. */
  function Escape(value: JsString): (r: JsString)
    ensures Ampersand !in value && LessThan !in value && GreaterThan !in value ==> r == value
  {
    ReplaceAll(ReplaceAll(ReplaceAll(value, Ampersand, AmpEntity), LessThan, LtEntity), GreaterThan, GtEntity)
  }

  /** What one unit becomes. */
  function EscapeUnit(c: CodeUnit): JsString
  {
    if c == Ampersand then AmpEntity
    else if c == LessThan then LtEntity
    else if c == GreaterThan then GtEntity
    else [c]
  }

  /** Escaping unit by unit. */
  function EscapeEach(s: JsString): JsString
    decreases |s|
  {
    if s == [] then [] else EscapeUnit(s[0]) + EscapeEach(s[1..])
  }

  lemma EscapeOfUnit(c: CodeUnit)
    ensures Escape([c]) == EscapeUnit(c)
  {
    var a := ReplaceAll([c], Ampersand, AmpEntity);
    assert [c][1..] == [];
    assert a == ReplaceUnit(c, Ampersand, AmpEntity);
    var b := ReplaceAll(a, LessThan, LtEntity);
    if c == LessThan {
      assert a == [LessThan];
      assert b == ReplaceUnit(LessThan, LessThan, LtEntity) + ReplaceAll(a[1..], LessThan, LtEntity);
      assert a[1..] == [];
    }
    if c == GreaterThan {
      assert b == [GreaterThan];
      assert b[1..] == [];
    }
  }

  /** The three passes never see a unit that an earlier pass wrote, so the chain escapes
      each unit independently. */
  lemma {:induction false} EscapeIsEach(s: JsString)
    ensures Escape(s) == EscapeEach(s)
    decreases |s|
  {
    if s != [] {
      var head, tail := [s[0]], s[1..];
      assert s == head + tail;
      EscapeIsEach(tail);
      EscapeOfUnit(s[0]);
      var a1, a2 := ReplaceAll(head, Ampersand, AmpEntity), ReplaceAll(tail, Ampersand, AmpEntity);
      ReplaceAllAppend(head, tail, Ampersand, AmpEntity);
      var b1, b2 := ReplaceAll(a1, LessThan, LtEntity), ReplaceAll(a2, LessThan, LtEntity);
      ReplaceAllAppend(a1, a2, LessThan, LtEntity);
      ReplaceAllAppend(b1, b2, GreaterThan, GtEntity);
    }
  }

  /** The escaped text has no `<` and no `>`. */
  lemma {:induction false} EscapeHasNoTags(s: JsString)
    ensures LessThan !in Escape(s) && GreaterThan !in Escape(s)
  {
    EscapeIsEach(s);
    EachHasNoTags(s);
  }

  lemma {:induction false} EachHasNoTags(s: JsString)
    ensures LessThan !in EscapeEach(s) && GreaterThan !in EscapeEach(s)
    decreases |s|
  {
    if s != [] {
      EachHasNoTags(s[1..]);
    }
  }

  /** Each `&` grows by four units, each `<` and `>` by three. */
  lemma {:induction false} EscapeLength(s: JsString)
    ensures |Escape(s)| == |s| + 4 * Count(s, Ampersand) + 3 * Count(s, LessThan) + 3 * Count(s, GreaterThan)
  {
    EscapeIsEach(s);
    EachLength(s);
  }

  lemma {:induction false} EachLength(s: JsString)
    ensures |EscapeEach(s)| == |s| + 4 * Count(s, Ampersand) + 3 * Count(s, LessThan) + 3 * Count(s, GreaterThan)
    decreases |s|
  {
    if s != [] {
      EachLength(s[1..]);
    }
  }

  /** Reading the three entities back, every other unit as it is. */
  function Unescape(s: JsString): JsString
    decreases |s|
  {
    if s == [] then []
    else if StartsWith(s, LtEntity) then [LessThan] + Unescape(s[4..])
    else if StartsWith(s, GtEntity) then [GreaterThan] + Unescape(s[4..])
    else if StartsWith(s, AmpEntity) then [Ampersand] + Unescape(s[5..])
    else [s[0]] + Unescape(s[1..])
  }

  lemma UnescapeUnit(c: CodeUnit, rest: JsString)
    ensures Unescape(EscapeUnit(c) + rest) == [c] + Unescape(rest)
  {
    if c == Ampersand {
      UnescapeAmp(rest);
    } else if c == LessThan {
      var s := LtEntity + rest;
      assert s[..4] == LtEntity && s[4..] == rest;
    } else if c == GreaterThan {
      UnescapeGt(rest);
    } else {
      var s := [c] + rest;
      assert s[0] == c && s[1..] == rest;
      assert !StartsWith(s, LtEntity) && !StartsWith(s, GtEntity) && !StartsWith(s, AmpEntity) by {
        assert s[0] != Ampersand;
      }
    }
  }

  lemma UnescapeAmp(rest: JsString)
    ensures Unescape(AmpEntity + rest) == [Ampersand] + Unescape(rest)
  {
    var s := AmpEntity + rest;
    assert s[..5] == AmpEntity && s[5..] == rest;
    assert !StartsWith(s, LtEntity) && !StartsWith(s, GtEntity) by { assert s[1] == 0x61; }
  }

  lemma UnescapeGt(rest: JsString)
    ensures Unescape(GtEntity + rest) == [GreaterThan] + Unescape(rest)
  {
    var s := GtEntity + rest;
    assert s[..4] == GtEntity && s[4..] == rest;
    assert !StartsWith(s, LtEntity) by { assert s[1] == 0x67; }
  }

  /** Unescaping the fallback gives the text back. */
  lemma {:induction false} UnescapeEscape(s: JsString)
    ensures Unescape(Escape(s)) == s
  {
    EscapeIsEach(s);
    UnescapeEach(s);
  }

  lemma {:induction false} UnescapeEach(s: JsString)
    ensures Unescape(EscapeEach(s)) == s
    decreases |s|
  {
    if s != [] {
      UnescapeEach(s[1..]);
      UnescapeUnit(s[0], EscapeEach(s[1..]));
      assert [s[0]] + s[1..] == s;
    }
  }

  /** `highlighted`: Prism's markup (an opaque function of the text) when the language has
      a grammar, the fallback otherwise. */
  function Highlighted(value: JsString, hasGrammar: bool, prism: JsString -> JsString): JsString
  {
    if hasGrammar then prism(value) else Escape(value)
  }

  /** The inner HTML of the highlighted layer. */
  function LayerHtml(value: JsString, hasGrammar: bool, prism: JsString -> JsString): JsString
  {
    Highlighted(value, hasGrammar, prism) + (if EndsWith(value, [Newline]) then LineBreakTag else [])
  }

  /** Without a grammar the layer ends with `<br>` exactly when the text ends with a line
      break: the escaped text holds no `<` that could start one. */
  lemma LineBreakTagIff(value: JsString, prism: JsString -> JsString)
    ensures EndsWith(LayerHtml(value, false, prism), LineBreakTag) <==> EndsWith(value, [Newline])
  {
    var html := LayerHtml(value, false, prism);
    if EndsWith(value, [Newline]) {
      assert html[|html| - 4..] == LineBreakTag;
    } else {
      EscapeHasNoTags(value);
      assert html == Escape(value);
      if |html| >= 4 {
        assert html[|html| - 4] in html;
        assert html[|html| - 4..][0] == html[|html| - 4];
      }
    }
  }
}
