/** The SQL formatter tool: a chain of regular-expression replacements that puts major
    keywords on their own lines and breaks after commas and around parentheses, and a
    compressor that folds a statement back onto one line. Each `replace` with the `g`
    flag is modelled as a left-to-right scan that consumes what a match covers and
    continues after it, which is how JavaScript finds non-overlapping matches. */
module SqlFormatter {
  import opened JsStrings

  const Comma: CodeUnit := 0x2C
  const LParen: CodeUnit := 0x28
  const RParen: CodeUnit := 0x29

  /** `",\n    "`, the replacement for a comma. */
  const CommaBreak: JsString := [Comma, Newline, Space, Space, Space, Space]
  /** `" (\n    "`, the replacement for an opening parenthesis. */
  const LParenBreak: JsString := [Space, LParen, Newline, Space, Space, Space, Space]
  /** `"\n) "`, the replacement for a closing parenthesis. */
  const RParenBreak: JsString := [Newline, RParen, Space]

  /** The keywords, in the order their passes run. */
  const Keywords: seq<JsString> := [
    Lit("SELECT"), Lit("FROM"), Lit("WHERE"), Lit("AND"), Lit("OR"),
    Lit("LEFT JOIN"), Lit("RIGHT JOIN"), Lit("INNER JOIN"), Lit("JOIN"),
    Lit("ORDER BY"), Lit("GROUP BY"), Lit("HAVING"), Lit("LIMIT"), Lit("UNION"),
    Lit("VALUES"), Lit("SET"), Lit("UPDATE"), Lit("INSERT INTO"), Lit("DELETE FROM")]

  // ----- compressing: replace(/\s+/g, ' ').trim() -----

  function Compress(s: JsString): JsString
  {
    Trim(Collapse(s))
  }

  /** The compressed text has no whitespace at either end and no two whitespace units in
      a row, every whitespace unit in it is a plain space, and the other units are those
      of the input, in order. */
  lemma CompressShape(s: JsString)
    ensures var r := Compress(s);
      SingleSpaced(r) && (r != [] ==> !IsWhitespace(r[0]) && !IsWhitespace(r[|r| - 1]))
    ensures RemoveWhitespace(Compress(s)) == RemoveWhitespace(s)
  {
    CollapseSingleSpaced(s, false);
    TrimSingleSpaced(Collapse(s));
    TrimKeepsSolid(Collapse(s));
    CollapseKeepsSolid(s, false);
  }

  /** Compressing twice gives what compressing once gives. */
  lemma CompressIdempotent(s: JsString)
    ensures Compress(Compress(s)) == Compress(s)
  {
    var r := Compress(s);
    CompressShape(s);
    CollapseFixed(r, false);
    TrimIdempotent(Collapse(s));
  }

  // ----- keyword passes: replace(new RegExp('\\s(' + kw + ')\\s', 'gi'), '\n$1 ') -----

  /** A match of the keyword pattern at the start of `s`: whitespace, the keyword in any
      ASCII case, whitespace. */
  predicate KeywordAt(s: JsString, kw: JsString)
  {
    |s| >= |kw| + 2 && IsWhitespace(s[0]) && EqualsIgnoreCase(s[1..|kw| + 1], kw) &&
    IsWhitespace(s[|kw| + 1])
  }

  /** One keyword pass: every match becomes a line break, the keyword as it was spelled,
      and a space. */
  function KeywordPass(s: JsString, kw: JsString): (r: JsString)
    ensures s != [] && !IsWhitespace(s[0]) ==> r != [] && r[0] == s[0]
    decreases |s|
  {
    if s == [] then []
    else if KeywordAt(s, kw) then
      [Newline] + s[1..|kw| + 1] + [Space] + KeywordPass(s[|kw| + 2..], kw)
    else [s[0]] + KeywordPass(s[1..], kw)
  }

  /** The passes for `kws`, run in order. */
  function KeywordPasses(s: JsString, kws: seq<JsString>): JsString
    decreases |kws|
  {
    if kws == [] then s
    else KeywordPass(KeywordPasses(s, kws[..|kws| - 1]), kws[|kws| - 1])
  }

  /** A match is rewritten whatever the case of the keyword, keeping its spelling. */
  lemma KeywordMatch(a: CodeUnit, m: JsString, b: CodeUnit, rest: JsString, kw: JsString)
    requires IsWhitespace(a) && IsWhitespace(b) && EqualsIgnoreCase(m, kw)
    ensures KeywordPass([a] + m + [b] + rest, kw) == [Newline] + m + [Space] + KeywordPass(rest, kw)
  {
    var s := [a] + m + [b] + rest;
    assert s[0] == a && s[1..|kw| + 1] == m && s[|kw| + 1] == b;
    assert s[|kw| + 2..] == rest;
  }

  /** Where the pattern does not match, the pass copies the unit and moves on. */
  lemma KeywordSkip(s: JsString, kw: JsString)
    requires s != [] && !KeywordAt(s, kw)
    ensures KeywordPass(s, kw) == [s[0]] + KeywordPass(s[1..], kw)
  {
  }

  /** A pass with no match anywhere changes nothing. */
  lemma {:induction false} KeywordPassUnchanged(s: JsString, kw: JsString)
    requires forall i :: 0 <= i < |s| ==> !KeywordAt(s[i..], kw)
    ensures KeywordPass(s, kw) == s
    decreases |s|
  {
    if s != [] {
      assert !KeywordAt(s[0..], kw);
      assert s[0..] == s;
      forall i | 0 <= i < |s[1..]| ensures !KeywordAt(s[1..][i..], kw) {
        assert s[1..][i..] == s[i + 1..];
        assert !KeywordAt(s[i + 1..], kw);
      }
      KeywordPassUnchanged(s[1..], kw);
      assert [s[0]] + s[1..] == s;
    }
  }

  /** A pass only changes whitespace. */
  lemma {:induction false} KeywordPassKeepsSolid(s: JsString, kw: JsString)
    ensures RemoveWhitespace(KeywordPass(s, kw)) == RemoveWhitespace(s)
    decreases |s|
  {
    if s == [] {
    } else if KeywordAt(s, kw) {
      var m, rest := s[1..|kw| + 1], s[|kw| + 2..];
      KeywordPassKeepsSolid(rest, kw);
      MatchShape(s, kw);
      SolidOfFramed(s[0], m, s[|kw| + 1], rest);
      SolidOfFramed(Newline, m, Space, KeywordPass(rest, kw));
    } else {
      KeywordPassKeepsSolid(s[1..], kw);
    }
  }

  lemma MatchShape(s: JsString, kw: JsString)
    requires KeywordAt(s, kw)
    ensures var m, rest := s[1..|kw| + 1], s[|kw| + 2..];
      s == [s[0]] + (m + ([s[|kw| + 1]] + rest)) &&
      KeywordPass(s, kw) == [Newline] + (m + ([Space] + KeywordPass(rest, kw)))
  {
  }

  lemma SolidOfFramed(a: CodeUnit, m: JsString, b: CodeUnit, rest: JsString)
    requires IsWhitespace(a) && IsWhitespace(b)
    ensures RemoveWhitespace([a] + (m + ([b] + rest))) == RemoveWhitespace(m) + RemoveWhitespace(rest)
  {
    var x := m + ([b] + rest);
    assert ([a] + x)[1..] == x;
    assert ([b] + rest)[1..] == rest;
    RemoveWhitespaceAppend(m, [b] + rest);
  }

  lemma {:induction false} KeywordPassesKeepSolid(s: JsString, kws: seq<JsString>)
    ensures RemoveWhitespace(KeywordPasses(s, kws)) == RemoveWhitespace(s)
    decreases |kws|
  {
    if kws != [] {
      KeywordPassesKeepSolid(s, kws[..|kws| - 1]);
      KeywordPassKeepsSolid(KeywordPasses(s, kws[..|kws| - 1]), kws[|kws| - 1]);
    }
  }

  /** A statement that starts with something other than whitespace keeps its first unit
      through every pass, so a keyword at the very start gets no line break before it. */
  lemma {:induction false} KeywordPassesKeepFirst(s: JsString, kws: seq<JsString>)
    requires s != [] && !IsWhitespace(s[0])
    ensures KeywordPasses(s, kws) != [] && KeywordPasses(s, kws)[0] == s[0]
    decreases |kws|
  {
    if kws != [] {
      KeywordPassesKeepFirst(s, kws[..|kws| - 1]);
    }
  }

  /** A word without whitespace cannot start a match, so it is copied as it is. */
  lemma {:induction false} KeywordPassCopiesWord(w: JsString, tail: JsString, kw: JsString)
    requires NoWhitespace(w)
    ensures KeywordPass(w + tail, kw) == w + KeywordPass(tail, kw)
    decreases |w|
  {
    if w != [] {
      var s := w + tail;
      assert s[0] == w[0] && s[1..] == w[1..] + tail;
      KeywordSkip(s, kw);
      KeywordPassCopiesWord(w[1..], tail, kw);
      assert [w[0]] + (w[1..] + KeywordPass(tail, kw)) == w + KeywordPass(tail, kw);
    } else {
      assert w + tail == tail;
    }
  }

  lemma LeftJoinUnits()
    ensures Lit("LEFT JOIN") == Lit("LEFT") + [Space] + Lit("JOIN")
    ensures NoWhitespace(Lit("LEFT"))
  {
  }

  /** The passes run in order, so a later pass for `kw` also matches the `kw` of a
      two-word keyword `w kw` that an earlier pass has already moved to a line of its own. */
  lemma LaterPassSplitsPair(w: JsString, kw: JsString, pair: JsString, rest: JsString)
    requires w != [] && NoWhitespace(w) && kw != [] && ToUpperUnit(w[0]) != ToUpperUnit(kw[0])
    requires pair == w + [Space] + kw
    ensures KeywordPass(KeywordPass([Space] + pair + [Space] + rest, pair), kw) ==
      [Newline] + (w + ([Newline] + kw + [Space] + KeywordPass(KeywordPass(rest, pair), kw)))
  {
    EqualsIgnoreCaseItself(pair);
    KeywordMatch(Space, pair, Space, rest, pair);
    var next := KeywordPass(rest, pair);
    Regroup(w, kw, next);
    WordThenKeyword(w, kw, next);
  }

  lemma Regroup(w: JsString, kw: JsString, next: JsString)
    ensures [Newline] + (w + [Space] + kw) + [Space] + next ==
      [Newline] + (w + ([Space] + kw + [Space] + next))
  {
  }

  lemma EqualsIgnoreCaseItself(a: JsString)
    ensures EqualsIgnoreCase(a, a)
  {
  }

  lemma NoMatchAtMismatch(s: JsString, kw: JsString)
    requires |s| >= 2 && kw != [] && ToUpperUnit(s[1]) != ToUpperUnit(kw[0])
    ensures !KeywordAt(s, kw)
  {
    if |s| >= |kw| + 2 {
      assert s[1..|kw| + 1][0] == s[1];
    }
  }

  lemma WordThenKeyword(w: JsString, kw: JsString, next: JsString)
    requires w != [] && NoWhitespace(w) && kw != [] && ToUpperUnit(w[0]) != ToUpperUnit(kw[0])
    ensures KeywordPass([Newline] + (w + ([Space] + kw + [Space] + next)), kw) ==
      [Newline] + (w + ([Newline] + kw + [Space] + KeywordPass(next, kw)))
  {
    var x := w + ([Space] + kw + [Space] + next);
    assert x[0] == w[0];
    SkipMismatch(Newline, x, kw);
    WordThenMatch(w, kw, next);
  }

  /** A unit followed by one that cannot begin the keyword is copied. */
  lemma SkipMismatch(u: CodeUnit, x: JsString, kw: JsString)
    requires x != [] && kw != [] && ToUpperUnit(x[0]) != ToUpperUnit(kw[0])
    ensures KeywordPass([u] + x, kw) == [u] + KeywordPass(x, kw)
  {
    var s := [u] + x;
    assert s[1] == x[0] && s[1..] == x;
    NoMatchAtMismatch(s, kw);
  }

  lemma WordThenMatch(w: JsString, kw: JsString, next: JsString)
    requires NoWhitespace(w)
    ensures KeywordPass(w + ([Space] + kw + [Space] + next), kw) ==
      w + ([Newline] + kw + [Space] + KeywordPass(next, kw))
  {
    KeywordPassCopiesWord(w, [Space] + kw + [Space] + next, kw);
    KeywordMatch(Space, kw, Space, next, kw);
  }

  /** With the keywords of the tool: a `LEFT JOIN` comes out split over two lines. */
  lemma JoinPassSplitsLeftJoin(rest: JsString)
    ensures KeywordPass(KeywordPass([Space] + Lit("LEFT JOIN") + [Space] + rest, Lit("LEFT JOIN")), Lit("JOIN")) ==
      [Newline] + (Lit("LEFT") + ([Newline] + Lit("JOIN") + [Space] +
      KeywordPass(KeywordPass(rest, Lit("LEFT JOIN")), Lit("JOIN"))))
  {
    LeftJoinUnits();
    LaterPassSplitsPair(Lit("LEFT"), Lit("JOIN"), Lit("LEFT JOIN"), rest);
  }

  // ----- separators: replace(/\s*c\s*/g, rep) -----

  /** One separator pass: the unit `c` together with the whitespace on both sides of it
      becomes `rep`. */
  function Sep(s: JsString, c: CodeUnit, rep: JsString): (r: JsString)
    ensures s != [] && !IsWhitespace(s[0]) && s[0] != c ==> r != [] && r[0] == s[0]
    decreases |s|
  {
    if s == [] then []
    else
      var t := TrimStart(s);
      if t != [] && t[0] == c then rep + Sep(TrimStart(t[1..]), c, rep)
      else [s[0]] + Sep(s[1..], c, rep)
  }

  /** A separator pass whose replacement holds `c` and whitespace only changes whitespace. */
  lemma {:induction false} SepKeepsSolid(s: JsString, c: CodeUnit, rep: JsString)
    requires !IsWhitespace(c) && RemoveWhitespace(rep) == [c]
    ensures RemoveWhitespace(Sep(s, c, rep)) == RemoveWhitespace(s)
    decreases |s|
  {
    if s != [] {
      var t := TrimStart(s);
      if t != [] && t[0] == c {
        var u := TrimStart(t[1..]);
        SepKeepsSolid(u, c, rep);
        RemoveWhitespaceAppend(rep, Sep(u, c, rep));
        TrimStartKeepsSolid(s);
        TrimStartKeepsSolid(t[1..]);
        assert RemoveWhitespace(t) == [c] + RemoveWhitespace(t[1..]);
      } else {
        SepKeepsSolid(s[1..], c, rep);
      }
    }
  }

  lemma CommaBreakKeepsSolid()
    ensures RemoveWhitespace(CommaBreak) == [Comma]
  {
    RemoveWhitespaceOfBlank(CommaBreak[1..]);
  }

  lemma LParenBreakKeepsSolid()
    ensures RemoveWhitespace(LParenBreak) == [LParen]
  {
    RemoveWhitespaceOfBlank(LParenBreak[2..]);
    assert LParenBreak[1..][1..] == LParenBreak[2..];
  }

  lemma RParenBreakKeepsSolid()
    ensures RemoveWhitespace(RParenBreak) == [RParen]
  {
    RemoveWhitespaceOfBlank(RParenBreak[2..]);
    assert RParenBreak[1..][1..] == RParenBreak[2..];
  }

  // ----- the whole formatter -----

  /** Everything `formatSql` does to a statement that is not blank. */
  function Format(input: JsString): JsString
  {
    var words := KeywordPasses(Collapse(Trim(input)), Keywords);
    Sep(Sep(Sep(words, Comma, CommaBreak), LParen, LParenBreak), RParen, RParenBreak)
  }

  /** Formatting only moves whitespace: the other units are those of the input, in order. */
  lemma FormatKeepsSolid(input: JsString)
    ensures RemoveWhitespace(Format(input)) == RemoveWhitespace(input)
  {
    var words := KeywordPasses(Collapse(Trim(input)), Keywords);
    TrimKeepsSolid(input);
    CollapseKeepsSolid(Trim(input), false);
    KeywordPassesKeepSolid(Collapse(Trim(input)), Keywords);
    CommaBreakKeepsSolid();
    LParenBreakKeepsSolid();
    RParenBreakKeepsSolid();
    SepKeepsSolid(words, Comma, CommaBreak);
    SepKeepsSolid(Sep(words, Comma, CommaBreak), LParen, LParenBreak);
    SepKeepsSolid(Sep(Sep(words, Comma, CommaBreak), LParen, LParenBreak), RParen, RParenBreak);
  }

  /** A statement that begins with something other than a separator begins the same way
      once formatted: no line break is put in front of its first keyword. */
  lemma FormatKeepsFirst(input: JsString)
    requires Trim(input) != [] && Trim(input)[0] != Comma && Trim(input)[0] != LParen &&
      Trim(input)[0] != RParen
    ensures Format(input) != [] && Format(input)[0] == Trim(input)[0]
  {
    var sql := Trim(input);
    var words := KeywordPasses(Collapse(sql), Keywords);
    KeywordPassesKeepFirst(Collapse(sql), Keywords);
    assert words[0] == sql[0];
  }

  /** The component's state: the text of the editor. */
  class SqlFormatter {
    var input: JsString

    constructor()
      ensures input == []
    {
      input := [];
    }

    /** The editor's `onChange`. */
    method SetInput(value: JsString)
      modifies this
      ensures input == value
    {
      input := value;
    }

    /** The Format button: a blank statement is left as it is. */
    method FormatSql()
      modifies this
      ensures Trim(old(input)) == [] ==> input == old(input)
      ensures Trim(old(input)) != [] ==> input == Format(old(input))
    {
      var sql := Trim(input);
      if sql == [] {
        return;
      }
      sql := Collapse(sql);
      ghost var collapsed := sql;
      var i := 0;
      while i < |Keywords|
        invariant 0 <= i <= |Keywords|
        invariant sql == KeywordPasses(collapsed, Keywords[..i])
      {
        assert Keywords[..i + 1][..i] == Keywords[..i];
        sql := KeywordPass(sql, Keywords[i]);
        i := i + 1;
      }
      assert Keywords[..i] == Keywords;
      sql := Sep(sql, Comma, CommaBreak);
      sql := Sep(sql, LParen, LParenBreak);
      sql := Sep(sql, RParen, RParenBreak);
      input := sql;
    }

    /** The Compress button. */
    method CompressSql()
      modifies this
      ensures input == Compress(old(input))
    {
      input := Trim(Collapse(input));
    }

    /** The Clear button. */
    method Clear()
      modifies this
      ensures input == []
    {
      input := [];
    }
  }
}
