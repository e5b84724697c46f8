/** The text inspector: statistics about a text (code units, non-whitespace units,
    words, lines, UTF-8 bytes) and the case transforms that rewrite it. */
module TextInspector {
  import opened JsStrings
  import opened JsNumbers
  import PercentEncoding

  const CarriageReturn: CodeUnit := 0x0D
  const Underscore: CodeUnit := 0x5F
  const Hyphen: CodeUnit := 0x2D

  // ----- words: text.trim().split(/\s+/).length -----

  /** `t.split(/\s+/)`: the separators are the maximal runs of whitespace, which is the
      same as splitting at the single spaces those runs collapse to. */
  function SplitOnWhitespace(t: JsString): seq<JsString>
  {
    Split(Collapse(t), Space)
  }

  function WordCount(text: JsString): nat
  {
    if Trim(text) == [] then 0 else |SplitOnWhitespace(Trim(text))|
  }

  /** The number of maximal runs of units that are not whitespace; `prevWs` says the unit
      before `s` was whitespace (or that there was none). */
  function Runs(s: JsString, prevWs: bool): nat
    decreases |s|
  {
    if s == [] then 0
    else (if !IsWhitespace(s[0]) && prevWs then 1 else 0) + Runs(s[1..], IsWhitespace(s[0]))
  }

  /** The number of maximal runs of whitespace, `prevWs` as for Runs. */
  function Gaps(s: JsString, prevWs: bool): nat
    decreases |s|
  {
    if s == [] then 0
    else (if IsWhitespace(s[0]) && !prevWs then 1 else 0) + Gaps(s[1..], IsWhitespace(s[0]))
  }

  /** Whether the last unit of `s` is whitespace, `prevWs` when `s` is empty. */
  function EndsInWhitespace(s: JsString, prevWs: bool): (b: bool)
    ensures b == if s == [] then prevWs else IsWhitespace(s[|s| - 1])
    decreases |s|
  {
    if s == [] then prevWs else EndsInWhitespace(s[1..], IsWhitespace(s[0]))
  }

  /** Each run of whitespace becomes exactly one space. */
  lemma {:induction false} CollapseCountsGaps(s: JsString, inRun: bool)
    ensures Count(CollapseFrom(s, inRun), Space) == Gaps(s, inRun)
    decreases |s|
  {
    if s != [] {
      var head: JsString := if IsWhitespace(s[0]) then (if inRun then [] else [Space]) else [s[0]];
      var rest := CollapseFrom(s[1..], IsWhitespace(s[0]));
      CollapseCountsGaps(s[1..], IsWhitespace(s[0]));
      CountAppend(head, rest, Space);
    }
  }

  lemma CountAppend(a: JsString, b: JsString, u: CodeUnit)
    requires |a| <= 1
    ensures Count(a + b, u) == Count(a, u) + Count(b, u)
  {
    if a != [] {
      assert (a + b)[1..] == b;
      assert a[1..] == [];
    } else {
      assert a + b == b;
    }
  }

  /** Runs of whitespace and runs of other units alternate. */
  lemma {:induction false} RunsAlternate(s: JsString, prevWs: bool)
    ensures Runs(s, prevWs) + (if EndsInWhitespace(s, prevWs) then 1 else 0) ==
      Gaps(s, prevWs) + (if prevWs then 1 else 0)
    decreases |s|
  {
    if s != [] {
      RunsAlternate(s[1..], IsWhitespace(s[0]));
    }
  }

  lemma {:induction false} RunsOfBlank(s: JsString, prevWs: bool)
    requires NoNonBlank(s)
    ensures Runs(s, prevWs) == 0
    decreases |s|
  {
    if s != [] {
      RunsOfBlank(s[1..], true);
    }
  }

  lemma {:induction false} RunsAppend(a: JsString, b: JsString, prevWs: bool)
    ensures Runs(a + b, prevWs) == Runs(a, prevWs) + Runs(b, EndsInWhitespace(a, prevWs))
    decreases |a|
  {
    if a == [] {
      assert a + b == b;
    } else {
      assert (a + b)[0] == a[0] && (a + b)[1..] == a[1..] + b;
      RunsAppend(a[1..], b, IsWhitespace(a[0]));
    }
  }

  lemma {:induction false} RunsTrimStart(s: JsString)
    ensures Runs(TrimStart(s), true) == Runs(s, true)
    decreases |s|
  {
    if s != [] && IsWhitespace(s[0]) {
      RunsTrimStart(s[1..]);
    }
  }

  lemma RunsTrim(s: JsString)
    ensures Runs(Trim(s), true) == Runs(s, true)
  {
    var u := TrimStart(s);
    RunsTrimStart(s);
    TrimEndPrefix(u);
    var k := |TrimEnd(u)|;
    assert u == u[..k] + u[k..];
    RunsAppend(u[..k], u[k..], true);
    RunsOfBlank(u[k..], EndsInWhitespace(u[..k], true));
  }

  /** The word count is the number of maximal runs of units that are not whitespace. */
  lemma WordsAreRuns(text: JsString)
    ensures WordCount(text) == Runs(text, true)
  {
    var t := Trim(text);
    RunsTrim(text);
    if t == [] {
      RunsOfBlank(t, true);
    } else {
      CollapseCountsGaps(t, false);
      RunsAlternate(t, false);
      assert Runs(t, true) == 1 + Runs(t[1..], false);
    }
  }

  // ----- lines: text === '' ? 0 : text.split(/\r\n|\r|\n/).length -----

  predicate IsLineBreak(u: CodeUnit) { u == CarriageReturn || u == Newline }

  /** `s.split(/\r\n|\r|\n/)`: the alternatives are tried in order, so a carriage return
      followed by a line feed is one separator. */
  function SplitLines(s: JsString): (parts: seq<JsString>)
    ensures |parts| >= 1
    ensures forall k :: 0 <= k < |parts| ==> CarriageReturn !in parts[k] && Newline !in parts[k]
    decreases |s|
  {
    if s == [] then [[]]
    else if s[0] == CarriageReturn && |s| >= 2 && s[1] == Newline then [[]] + SplitLines(s[2..])
    else if IsLineBreak(s[0]) then [[]] + SplitLines(s[1..])
    else
      var rest := SplitLines(s[1..]);
      [[s[0]] + rest[0]] + rest[1..]
  }

  function LineCount(text: JsString): nat
  {
    if text == [] then 0 else |SplitLines(text)|
  }

  /** The number of carriage return, line feed pairs. */
  function CrLfCount(s: JsString): nat
    decreases |s|
  {
    if |s| < 2 then 0
    else (if s[0] == CarriageReturn && s[1] == Newline then 1 else 0) + CrLfCount(s[1..])
  }

  /** A non-empty text has one line more than it has line breaks, a `\r\n` counting once. */
  lemma {:induction false} LinesCountBreaks(s: JsString)
    ensures |SplitLines(s)| == 1 + Count(s, Newline) + Count(s, CarriageReturn) - CrLfCount(s)
    decreases |s|
  {
    if s == [] {
    } else if s[0] == CarriageReturn && |s| >= 2 && s[1] == Newline {
      LinesCountBreaks(s[2..]);
      assert s[1..][1..] == s[2..];
      assert CrLfCount(s[1..]) == CrLfCount(s[2..]);
    } else {
      LinesCountBreaks(s[1..]);
    }
  }

  // ----- bytes: new Blob([text]).size -----

  /** The UTF-8 bytes a Blob stores for a string: surrogate pairs become four-byte sequences
      and lone surrogates become U+FFFD. */
  function BlobBytes(s: JsString): seq<Byte>
    decreases |s|
  {
    if s == [] then []
    else if PercentEncoding.IsLeadSurrogate(s[0]) && |s| >= 2 && PercentEncoding.IsTrailSurrogate(s[1]) then
      PercentEncoding.Utf8(PercentEncoding.PairToCodePoint(s[0], s[1])) + BlobBytes(s[2..])
    else if PercentEncoding.IsLeadSurrogate(s[0]) || PercentEncoding.IsTrailSurrogate(s[0]) then
      PercentEncoding.Utf8(0xFFFD) + BlobBytes(s[1..])
    else PercentEncoding.Utf8(s[0]) + BlobBytes(s[1..])
  }

  predicate IsAscii(s: JsString) { forall i :: 0 <= i < |s| ==> s[i] < 0x80 }

  /** There are at least as many bytes as code units and at most three times as many, and
      exactly as many precisely when the text is ASCII. */
  lemma {:induction false} BytesBounds(s: JsString)
    ensures |s| <= |BlobBytes(s)| <= 3 * |s|
    ensures |BlobBytes(s)| == |s| <==> IsAscii(s)
    decreases |s|
  {
    if s == [] {
    } else if PercentEncoding.IsLeadSurrogate(s[0]) && |s| >= 2 && PercentEncoding.IsTrailSurrogate(s[1]) {
      BytesBounds(s[2..]);
    } else {
      BytesBounds(s[1..]);
      if IsAscii(s[1..]) && s[0] < 0x80 {
        forall i | 0 <= i < |s| ensures s[i] < 0x80 {
          if i > 0 {
            assert s[i] == s[1..][i - 1];
          }
        }
      }
      if IsAscii(s) {
        forall i | 0 <= i < |s[1..]| ensures s[1..][i] < 0x80 {
          assert s[1..][i] == s[i + 1];
        }
      }
    }
  }

  // ----- statistics -----

  datatype Stats = Stats(chars: nat, charsNoSpaces: nat, words: nat, lines: nat, bytes: nat)

  function StatsOf(text: JsString): Stats
  {
    Stats(|text|, |RemoveWhitespace(text)|, WordCount(text), LineCount(text), |BlobBytes(text)|)
  }

  /** What the statistics promise about each other and about the text. */
  lemma StatsFacts(text: JsString)
    ensures var st := StatsOf(text);
      st.charsNoSpaces <= st.chars <= st.bytes <= 3 * st.chars &&
      (st.words == 0 <==> NoNonBlank(text)) &&
      st.words == Runs(text, true) &&
      (st.lines == 0 <==> text == []) &&
      (text != [] ==>
         st.lines == 1 + Count(text, Newline) + Count(text, CarriageReturn) - CrLfCount(text))
  {
    BytesBounds(text);
    WordsAreRuns(text);
    TrimEmptyIffBlank(text);
    if text != [] {
      LinesCountBreaks(text);
    }
  }

  // ----- the snake and kebab tokenizer -----

  /** The length of the run of units satisfying `p` at the start of `s`. */
  function Run(s: JsString, p: CodeUnit -> bool): (n: nat)
    ensures n <= |s|
    ensures forall i :: 0 <= i < n ==> p(s[i])
    ensures n < |s| ==> !p(s[n])
    decreases |s|
  {
    if s != [] && p(s[0]) then 1 + Run(s[1..], p) else 0
  }

  /** The length of the match at the start of `s` of
      `/[A-Z]{2,}(?=[A-Z][a-z]+[0-9]*|\b)|[A-Z]?[a-z]+[0-9]*|[A-Z]|[0-9]+/`, 0 when there is
      none. The first alternative takes a whole run of two or more capitals that ends at a
      word boundary, or all but the last of a run of three or more when that last capital
      begins a lower-case word. */
  function MatchLength(s: JsString): (n: nat)
    ensures n <= |s|
    ensures n > 0 <==> s != [] && IsAlnum(s[0])
    ensures forall i :: 0 <= i < n ==> IsAlnum(s[i])
  {
    if s == [] then 0
    else
      var caps := Run(s, IsUpper);
      if caps >= 2 && (caps == |s| || !IsWordChar(s[caps])) then caps
      else if caps >= 3 && caps < |s| && IsLower(s[caps]) then caps - 1
      else if caps >= 1 && |s| >= 2 && IsLower(s[1]) then
        var lower := Run(s[1..], IsLower);
        1 + lower + Run(s[1 + lower..], IsDigit)
      else if IsLower(s[0]) then
        var lower := Run(s, IsLower);
        lower + Run(s[lower..], IsDigit)
      else if caps >= 1 then 1
      else Run(s, IsDigit)
  }

  /** `text.match(regex)` with the `g` flag: the successive matches, left to right. */
  function Tokens(s: JsString): (r: seq<JsString>)
    ensures forall k :: 0 <= k < |r| ==> r[k] != [] && IsAlnumText(r[k])
    decreases |s|
  {
    if s == [] then []
    else
      var n := MatchLength(s);
      if n == 0 then Tokens(s[1..]) else [s[..n]] + Tokens(s[n..])
  }

  predicate IsAlnumText(s: JsString) { forall i :: 0 <= i < |s| ==> IsAlnum(s[i]) }

  /** The ASCII letters and digits of `s`, in order. */
  function AlnumOf(s: JsString): JsString
    decreases |s|
  {
    if s == [] then [] else (if IsAlnum(s[0]) then [s[0]] else []) + AlnumOf(s[1..])
  }

  function Concat(parts: seq<JsString>): JsString
    decreases |parts|
  {
    if parts == [] then [] else parts[0] + Concat(parts[1..])
  }

  lemma {:induction false} AlnumOfAlnumPrefix(s: JsString, n: nat)
    requires n <= |s| && IsAlnumText(s[..n])
    ensures AlnumOf(s) == s[..n] + AlnumOf(s[n..])
    decreases n
  {
    if n > 0 {
      var p := s[1..][..n - 1];
      assert p == s[1..n];
      assert IsAlnumText(p) by {
        forall i | 0 <= i < |p| ensures IsAlnum(p[i]) {
          assert p[i] == s[..n][i + 1];
        }
      }
      AlnumOfAlnumPrefix(s[1..], n - 1);
      assert s[1..][n - 1..] == s[n..];
      assert IsAlnum(s[..n][0]);
      assert [s[0]] + s[1..n] == s[..n];
    } else {
      assert s[..0] == [] && s[0..] == s;
    }
  }

  /** The tokens are exactly the ASCII letters and digits of the text, in order: every
      other unit is dropped and none is split off or duplicated. */
  lemma {:induction false} TokensCoverAlnum(s: JsString)
    ensures Concat(Tokens(s)) == AlnumOf(s)
    decreases |s|
  {
    if s != [] {
      var n := MatchLength(s);
      if n == 0 {
        TokensCoverAlnum(s[1..]);
      } else {
        TokensCoverAlnum(s[n..]);
        AlnumOfAlnumPrefix(s, n);
        var t := Tokens(s);
        assert t == [s[..n]] + Tokens(s[n..]);
        assert t[0] == s[..n] && t[1..] == Tokens(s[n..]);
      }
    }
  }

  /** The regular expression finds no match exactly when the text has no ASCII letter or
      digit. */
  lemma {:induction false} TokensEmptyIff(s: JsString)
    ensures Tokens(s) == [] <==> AlnumOf(s) == []
    decreases |s|
  {
    if s != [] {
      var n := MatchLength(s);
      if n == 0 {
        TokensEmptyIff(s[1..]);
      } else {
        assert IsAlnum(s[0]);
      }
    }
  }

  /** `match(...)?.map(x => x.toLowerCase())`: the tokens are ASCII, so lower-casing them is exact. */
  function LowerTokens(t: seq<JsString>): (r: seq<JsString>)
    ensures |r| == |t| && forall k :: 0 <= k < |t| ==> r[k] == LowerAscii(t[k])
  {
    seq(|t|, k requires 0 <= k < |t| => LowerAscii(t[k]))
  }

  /** `?.join(sep) || text`: the text itself when nothing matched. */
  function JoinTokens(text: JsString, sep: CodeUnit): JsString
  {
    var t := Tokens(text);
    if t == [] then text else Join(LowerTokens(t), sep)
  }

  predicate IsSnakeUnit(u: CodeUnit, sep: CodeUnit) { IsLower(u) || IsDigit(u) || u == sep }

  lemma {:induction false} JoinUnits(parts: seq<JsString>, sep: CodeUnit)
    requires forall k :: 0 <= k < |parts| ==> forall i :: 0 <= i < |parts[k]| ==> IsSnakeUnit(parts[k][i], sep)
    ensures forall i :: 0 <= i < |Join(parts, sep)| ==> IsSnakeUnit(Join(parts, sep)[i], sep)
    decreases |parts|
  {
    if |parts| > 1 {
      JoinUnits(parts[1..], sep);
      var j := Join(parts, sep);
      var rest := Join(parts[1..], sep);
      assert j == parts[0] + [sep] + rest;
      forall i | 0 <= i < |j| ensures IsSnakeUnit(j[i], sep) {
        if i < |parts[0]| {
          assert j[i] == parts[0][i];
        } else if i > |parts[0]| {
          assert j[i] == rest[i - |parts[0]| - 1];
        }
      }
    }
  }

  /** Snake and kebab case: with no match the text is unchanged; otherwise the result is
      made of lower-case letters, digits and the separator only, and splitting it at the
      separator gives back the lower-cased tokens. */
  lemma JoinTokensShape(text: JsString, sep: CodeUnit)
    requires sep == Underscore || sep == Hyphen
    ensures Tokens(text) == [] ==> JoinTokens(text, sep) == text
    ensures Tokens(text) != [] ==>
      (forall i :: 0 <= i < |JoinTokens(text, sep)| ==> IsSnakeUnit(JoinTokens(text, sep)[i], sep)) &&
      Split(JoinTokens(text, sep), sep) == LowerTokens(Tokens(text))
  {
    var t := Tokens(text);
    if t != [] {
      var lt := LowerTokens(t);
      forall k | 0 <= k < |lt| ensures forall i :: 0 <= i < |lt[k]| ==> IsSnakeUnit(lt[k][i], sep) {
        forall i | 0 <= i < |lt[k]| ensures IsSnakeUnit(lt[k][i], sep) {
          assert IsAlnum(t[k][i]);
        }
      }
      JoinUnits(lt, sep);
      forall k | 0 <= k < |lt| ensures sep !in lt[k] {
        assert IsAlnumText(t[k]);
      }
      SplitJoin(lt, sep);
    }
  }

  // ----- transforms -----

  /** The transforms of the toolbar. */
  datatype Transform = Upper | Lower | Snake | Kebab | Reverse

  function Transformed(kind: Transform, text: JsString): JsString
  {
    match kind
    case Upper => UpperAscii(text)
    case Lower => LowerAscii(text)
    case Snake => JoinTokens(text, Underscore)
    case Kebab => JoinTokens(text, Hyphen)
    case Reverse => JsStrings.Reverse(text)
  }

  /** Upper-casing twice is upper-casing once, lower-casing too, and reversing twice gives
      the text back. */
  lemma TransformsTwice(text: JsString)
    ensures Transformed(Upper, Transformed(Upper, text)) == Transformed(Upper, text)
    ensures Transformed(Lower, Transformed(Lower, text)) == Transformed(Lower, text)
    ensures Transformed(Reverse, Transformed(Reverse, text)) == text
  {
    ReverseInvolution(text);
  }

  /** The component's state: the text of the editor. */
  class TextInspector {
    var text: JsString

    constructor()
      ensures text == []
    {
      text := [];
    }

    /** The statistics panel, recomputed from the text. */
    function Statistics(): Stats
      reads this
    {
      StatsOf(text)
    }

    /** The editor's `onChange`, and the Clear button with the empty string. */
    method SetText(value: JsString)
      modifies this
      ensures text == value
    {
      text := value;
    }

    /** A toolbar button: the text is replaced by its transform. */
    method ApplyTransform(kind: Transform)
      modifies this
      ensures text == Transformed(kind, old(text))
    {
      var result := text;
      match kind {
        case Upper => result := UpperAscii(text);
        case Lower => result := LowerAscii(text);
        case Snake => result := JoinTokens(text, Underscore);
        case Kebab => result := JoinTokens(text, Hyphen);
        case Reverse => result := JsStrings.Reverse(text);
      }
      text := result;
    }
  }
}
