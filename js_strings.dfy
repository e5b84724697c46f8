/** JavaScript strings as sequences of UTF-16 code units, and the String.prototype
    operations the tools use (trim, split, join, replace with a constant, ASCII case). */
module JsStrings {

  datatype Option<+T> = None | Some(value: T)

  /** One UTF-16 code unit. A JavaScript string may hold any of them, lone surrogates included. */
  type CodeUnit = u: int | 0 <= u < 0x1_0000

  type JsString = seq<CodeUnit>

  /** The code unit of a character of the Basic Multilingual Plane. */
  function Unit(c: char): CodeUnit
  {
    if c as int < 0x1_0000 then c as int else 0xFFFD
  }

  /** The code units of a Dafny literal; every literal in this project is ASCII. */
  function Lit(s: string): (r: JsString)
    ensures |r| == |s|
  {
    seq(|s|, i requires 0 <= i < |s| => Unit(s[i]))
  }

  // ----- character classes -----

  /** `\s` of a JavaScript regular expression, which is also what `trim` removes:
      WhiteSpace and LineTerminator of ECMA-262, section 12.2 and 12.3. */
  predicate IsWhitespace(u: CodeUnit)
  {
    u == 0x09 || u == 0x0A || u == 0x0B || u == 0x0C || u == 0x0D || u == 0x20 ||
    u == 0xA0 || u == 0x1680 || (0x2000 <= u <= 0x200A) || u == 0x2028 || u == 0x2029 ||
    u == 0x202F || u == 0x205F || u == 0x3000 || u == 0xFEFF
  }

  predicate IsDigit(u: CodeUnit) { '0' as int <= u <= '9' as int }
  predicate IsUpper(u: CodeUnit) { 'A' as int <= u <= 'Z' as int }
  predicate IsLower(u: CodeUnit) { 'a' as int <= u <= 'z' as int }
  predicate IsAlpha(u: CodeUnit) { IsUpper(u) || IsLower(u) }
  predicate IsAlnum(u: CodeUnit) { IsAlpha(u) || IsDigit(u) }

  /** `\w` of a JavaScript regular expression without the `u` flag. */
  predicate IsWordChar(u: CodeUnit) { IsAlnum(u) || u == '_' as int }

  predicate IsHexDigit(u: CodeUnit)
  {
    IsDigit(u) || ('a' as int <= u <= 'f' as int) || ('A' as int <= u <= 'F' as int)
  }

  function HexDigitValue(u: CodeUnit): (v: nat)
    requires IsHexDigit(u)
    ensures v < 16
  {
    if IsDigit(u) then u - '0' as int
    else if 'a' as int <= u <= 'f' as int then u - 'a' as int + 10
    else u - 'A' as int + 10
  }

  predicate AllDigits(s: JsString) { forall i :: 0 <= i < |s| ==> IsDigit(s[i]) }
  predicate AllHexDigits(s: JsString) { forall i :: 0 <= i < |s| ==> IsHexDigit(s[i]) }
  predicate NoWhitespace(s: JsString) { forall i :: 0 <= i < |s| ==> !IsWhitespace(s[i]) }

  // ----- ASCII case mapping -----

  function ToUpperUnit(u: CodeUnit): (r: CodeUnit)
    ensures IsLower(u) ==> r == u - 32
    ensures !IsLower(u) ==> r == u
  {
    if IsLower(u) then u - 32 else u
  }

  function ToLowerUnit(u: CodeUnit): (r: CodeUnit)
    ensures IsUpper(u) ==> r == u + 32
    ensures !IsUpper(u) ==> r == u
  {
    if IsUpper(u) then u + 32 else u
  }

  /** `toUpperCase` restricted to the ASCII letters. */
  function UpperAscii(s: JsString): (r: JsString)
    ensures |r| == |s| && forall i :: 0 <= i < |s| ==> r[i] == ToUpperUnit(s[i])
  {
    seq(|s|, i requires 0 <= i < |s| => ToUpperUnit(s[i]))
  }

  /** `toLowerCase` restricted to the ASCII letters. */
  function LowerAscii(s: JsString): (r: JsString)
    ensures |r| == |s| && forall i :: 0 <= i < |s| ==> r[i] == ToLowerUnit(s[i])
  {
    seq(|s|, i requires 0 <= i < |s| => ToLowerUnit(s[i]))
  }

  /** Equality of two strings after ASCII upper-casing, which is how a regular expression
      with the `i` flag (and no `u` flag) compares ASCII text. */
  predicate EqualsIgnoreCase(a: JsString, b: JsString)
  {
    |a| == |b| && forall i :: 0 <= i < |a| ==> ToUpperUnit(a[i]) == ToUpperUnit(b[i])
  }

  // ----- prefixes, suffixes, search -----

  predicate StartsWith(s: JsString, p: JsString) { |p| <= |s| && s[..|p|] == p }
  predicate EndsWith(s: JsString, p: JsString) { |p| <= |s| && s[|s| - |p|..] == p }

  /** `s.includes(p)`. */
  predicate Includes(s: JsString, p: JsString)
  {
    exists i :: 0 <= i <= |s| - |p| && OccursAt(s, p, i)
  }

  predicate OccursAt(s: JsString, p: JsString, i: int)
  {
    0 <= i <= |s| - |p| && s[i..i + |p|] == p
  }

  function Count(s: JsString, u: CodeUnit): (n: nat)
    ensures n <= |s|
    ensures n == 0 <==> u !in s
  {
    if s == [] then 0 else (if s[0] == u then 1 else 0) + Count(s[1..], u)
  }

  // ----- trim -----

  /** `trimStart`: drops the leading whitespace. */
  function TrimStart(s: JsString): (r: JsString)
    ensures |r| <= |s|
    ensures r != [] ==> !IsWhitespace(r[0])
  {
    if s != [] && IsWhitespace(s[0]) then TrimStart(s[1..]) else s
  }

  /** What `trimStart` drops is whitespace, and what it keeps is a suffix. */
  lemma {:induction false} TrimStartSuffix(s: JsString)
    ensures TrimStart(s) == s[|s| - |TrimStart(s)|..]
    ensures forall i :: 0 <= i < |s| - |TrimStart(s)| ==> IsWhitespace(s[i])
  {
    if s != [] && IsWhitespace(s[0]) {
      TrimStartSuffix(s[1..]);
      assert s[1..][|s| - 1 - |TrimStart(s)|..] == s[|s| - |TrimStart(s)|..];
      forall i | 0 < i < |s| - |TrimStart(s)| ensures IsWhitespace(s[i]) {
        assert s[i] == s[1..][i - 1];
      }
    }
  }

  function TrimEnd(s: JsString): (r: JsString)
    ensures |r| <= |s|
    ensures r != [] ==> !IsWhitespace(r[|r| - 1])
  {
    if s != [] && IsWhitespace(s[|s| - 1]) then TrimEnd(s[..|s| - 1]) else s
  }

  /** What `trimEnd` drops is whitespace, and what it keeps is a prefix. */
  lemma {:induction false} TrimEndPrefix(s: JsString)
    ensures TrimEnd(s) == s[..|TrimEnd(s)|]
    ensures forall i :: |TrimEnd(s)| <= i < |s| ==> IsWhitespace(s[i])
  {
    if s != [] && IsWhitespace(s[|s| - 1]) {
      var init := s[..|s| - 1];
      TrimEndPrefix(init);
      assert init[..|TrimEnd(s)|] == s[..|TrimEnd(s)|];
      forall i | |TrimEnd(s)| <= i < |s| - 1 ensures IsWhitespace(s[i]) {
        assert s[i] == init[i];
      }
    }
  }

  /** `String.prototype.trim`. */
  function Trim(s: JsString): (r: JsString)
    ensures r != [] ==> !IsWhitespace(r[0]) && !IsWhitespace(r[|r| - 1])
    ensures |r| <= |s|
  {
    TrimEndPrefix(TrimStart(s));
    TrimEnd(TrimStart(s))
  }

  /** A string that neither starts nor ends with whitespace is its own trim. */
  lemma TrimOfSolidEnds(s: JsString)
    requires s != [] && !IsWhitespace(s[0]) && !IsWhitespace(s[|s| - 1])
    ensures Trim(s) == s
  {
    assert TrimStart(s) == s;
    assert TrimEnd(s) == s;
  }

  /** A string that `trim` leaves non-empty has a character that is not whitespace. */
  lemma {:induction false} TrimEmptyIffBlank(s: JsString)
    ensures Trim(s) == [] <==> NoNonBlank(s)
  {
    var t := TrimStart(s);
    TrimStartSuffix(s);
    if t == [] {
      assert forall i :: 0 <= i < |s| ==> IsWhitespace(s[i]);
    } else {
      assert !IsWhitespace(t[0]) && t == s[|s| - |t|..];
      assert !IsWhitespace(s[|s| - |t|]);
      TrimEndPrefix(t);
      assert TrimEnd(t) != [];
    }
  }

  predicate NoNonBlank(s: JsString) { forall i :: 0 <= i < |s| ==> IsWhitespace(s[i]) }

  /** Trimming twice changes nothing more. */
  lemma TrimIdempotent(s: JsString)
    ensures Trim(Trim(s)) == Trim(s)
  {
    var t := Trim(s);
    if t != [] {
      assert TrimStart(t) == t;
      assert TrimEnd(t) == t;
    }
  }

  // ----- split and join on one code unit -----

  /** `s.split(c)` for a one-code-unit separator; the empty string splits into [""]. */
  function Split(s: JsString, c: CodeUnit): (parts: seq<JsString>)
    ensures |parts| >= 1
    ensures forall k :: 0 <= k < |parts| ==> c !in parts[k]
    ensures |parts| == Count(s, c) + 1
  {
    if s == [] then [[]]
    else if s[0] == c then [[]] + Split(s[1..], c)
    else
      var rest := Split(s[1..], c);
      [[s[0]] + rest[0]] + rest[1..]
  }

  /** `parts.join(c)`. */
  function Join(parts: seq<JsString>, c: CodeUnit): JsString
  {
    if parts == [] then []
    else if |parts| == 1 then parts[0]
    else parts[0] + [c] + Join(parts[1..], c)
  }

  lemma {:induction false} JoinSplit(s: JsString, c: CodeUnit)
    ensures Join(Split(s, c), c) == s
  {
    if s != [] {
      JoinSplit(s[1..], c);
      var rest := Split(s[1..], c);
      assert s == [s[0]] + s[1..];
      if s[0] == c {
        assert Split(s, c) == [[]] + rest;
        JoinEmptyFirst(rest, c);
      } else {
        assert Split(s, c) == [[s[0]] + rest[0]] + rest[1..];
        JoinExtendFirst(s[0], rest, c);
      }
    }
  }

  lemma JoinEmptyFirst(rest: seq<JsString>, c: CodeUnit)
    requires |rest| >= 1
    ensures Join([[]] + rest, c) == [c] + Join(rest, c)
  {
    assert ([[]] + rest)[1..] == rest;
  }

  lemma JoinExtendFirst(u: CodeUnit, rest: seq<JsString>, c: CodeUnit)
    requires |rest| >= 1
    ensures Join([[u] + rest[0]] + rest[1..], c) == [u] + Join(rest, c)
  {
    var parts := [[u] + rest[0]] + rest[1..];
    if |rest| > 1 {
      assert parts[1..] == rest[1..];
    }
  }

  /** Splitting a join of separator-free parts gives the parts back. */
  lemma {:induction false} SplitJoin(parts: seq<JsString>, c: CodeUnit)
    requires |parts| >= 1
    requires forall k :: 0 <= k < |parts| ==> c !in parts[k]
    ensures Split(Join(parts, c), c) == parts
  {
    if |parts| == 1 {
      SplitFree(parts[0], c);
    } else {
      var tail := parts[1..];
      assert forall k :: 0 <= k < |tail| ==> c !in tail[k] by {
        forall k | 0 <= k < |tail| ensures c !in tail[k] {
          assert tail[k] == parts[k + 1];
        }
      }
      SplitJoin(tail, c);
      assert c !in parts[0];
      SplitPrefix(parts[0], Join(tail, c), c);
      assert Join(parts, c) == parts[0] + [c] + Join(tail, c);
      assert parts == [parts[0]] + tail;
    }
  }

  lemma {:induction false} SplitFree(s: JsString, c: CodeUnit)
    requires c !in s
    ensures Split(s, c) == [s]
  {
    if s != [] {
      SplitFree(s[1..], c);
      assert [s[0]] + s[1..] == s;
    }
  }

  lemma {:induction false} SplitPrefix(a: JsString, b: JsString, c: CodeUnit)
    requires c !in a
    ensures Split(a + [c] + b, c) == [a] + Split(b, c)
  {
    var w := a + [c] + b;
    if a == [] {
      assert w[0] == c && w[1..] == b;
      assert Split(w, c) == [[]] + Split(w[1..], c);
    } else {
      assert w[0] == a[0] && w[0] != c;
      assert w[1..] == a[1..] + [c] + b;
      SplitPrefix(a[1..], b, c);
      var rest := Split(w[1..], c);
      assert rest == [a[1..]] + Split(b, c);
      assert Split(w, c) == [[a[0]] + rest[0]] + rest[1..];
      assert rest[0] == a[1..] && rest[1..] == Split(b, c);
      assert [a[0]] + a[1..] == a;
    }
  }

  // ----- replacing single code units -----

  /** `s.replace(/x/g, rep)` for a one-code-unit pattern `x`. */
  function ReplaceAll(s: JsString, x: CodeUnit, rep: JsString): (r: JsString)
    ensures x !in rep ==> x !in r
    ensures x !in s ==> r == s
  {
    if s == [] then []
    else ReplaceUnit(s[0], x, rep) + ReplaceAll(s[1..], x, rep)
  }

  /** What one code unit becomes under ReplaceAll. */
  function ReplaceUnit(c: CodeUnit, x: CodeUnit, rep: JsString): JsString
  {
    if c == x then rep else [c]
  }

  lemma {:induction false} ReplaceAllAppend(a: JsString, b: JsString, x: CodeUnit, rep: JsString)
    ensures ReplaceAll(a + b, x, rep) == ReplaceAll(a, x, rep) + ReplaceAll(b, x, rep)
  {
    if a != [] {
      var ab := a + b;
      var head := ReplaceUnit(a[0], x, rep);
      var ra, rb := ReplaceAll(a[1..], x, rep), ReplaceAll(b, x, rep);
      ReplaceAllAppend(a[1..], b, x, rep);
      assert ab[0] == a[0] && ab[1..] == a[1..] + b;
      assert ReplaceAll(ab, x, rep) == head + (ra + rb);
      assert head + (ra + rb) == (head + ra) + rb;
    } else {
      assert a + b == b;
    }
  }

  /** Replacing a unit by one unit works position by position. */
  lemma {:induction false} ReplaceAllPointwise(s: JsString, x: CodeUnit, y: CodeUnit)
    ensures |ReplaceAll(s, x, [y])| == |s|
    ensures forall i :: 0 <= i < |s| ==> ReplaceAll(s, x, [y])[i] == if s[i] == x then y else s[i]
    decreases |s|
  {
    if s != [] {
      ReplaceAllPointwise(s[1..], x, y);
      var r := ReplaceAll(s, x, [y]);
      assert r == ReplaceUnit(s[0], x, [y]) + ReplaceAll(s[1..], x, [y]);
      forall i | 0 <= i < |s| ensures r[i] == if s[i] == x then y else s[i] {
        if i > 0 {
          assert r[i] == ReplaceAll(s[1..], x, [y])[i - 1];
          assert s[i] == s[1..][i - 1];
        }
      }
    }
  }

  /** `s.replace(/\s/g, '')`. */
  function RemoveWhitespace(s: JsString): (r: JsString)
    ensures |r| <= |s|
  {
    if s == [] then []
    else (if IsWhitespace(s[0]) then [] else [s[0]]) + RemoveWhitespace(s[1..])
  }

  lemma {:induction false} RemoveWhitespaceAppend(a: JsString, b: JsString)
    ensures RemoveWhitespace(a + b) == RemoveWhitespace(a) + RemoveWhitespace(b)
  {
    if a == [] {
      assert a + b == b;
    } else {
      var ab := a + b;
      var head: JsString := if IsWhitespace(a[0]) then [] else [a[0]];
      RemoveWhitespaceAppend(a[1..], b);
      assert ab[0] == a[0] && ab[1..] == a[1..] + b;
      assert RemoveWhitespace(ab) == head + RemoveWhitespace(ab[1..]);
      assert RemoveWhitespace(a) == head + RemoveWhitespace(a[1..]);
    }
  }

  lemma {:induction false} RemoveWhitespaceOfBlank(s: JsString)
    requires NoNonBlank(s)
    ensures RemoveWhitespace(s) == []
  {
    if s != [] {
      RemoveWhitespaceOfBlank(s[1..]);
    }
  }

  lemma {:induction false} RemoveWhitespaceOfSolid(s: JsString)
    requires NoWhitespace(s)
    ensures RemoveWhitespace(s) == s
  {
    if s != [] {
      RemoveWhitespaceOfSolid(s[1..]);
      assert [s[0]] + s[1..] == s;
    }
  }

  /** Trimming only drops whitespace. */
  lemma TrimKeepsSolid(s: JsString)
    ensures RemoveWhitespace(Trim(s)) == RemoveWhitespace(s)
  {
    TrimStartKeepsSolid(s);
    TrimEndKeepsSolid(TrimStart(s));
  }

  lemma {:induction false} TrimStartKeepsSolid(s: JsString)
    ensures RemoveWhitespace(TrimStart(s)) == RemoveWhitespace(s)
  {
    if s != [] && IsWhitespace(s[0]) {
      TrimStartKeepsSolid(s[1..]);
    }
  }

  lemma {:induction false} TrimEndKeepsSolid(s: JsString)
    ensures RemoveWhitespace(TrimEnd(s)) == RemoveWhitespace(s)
  {
    if s != [] && IsWhitespace(s[|s| - 1]) {
      var init, last := s[..|s| - 1], [s[|s| - 1]];
      TrimEndKeepsSolid(init);
      assert s == init + last;
      RemoveWhitespaceAppend(init, last);
      assert RemoveWhitespace(last) == RemoveWhitespace(last[1..]);
      assert last[1..] == [];
    }
  }

  // ----- collapsing whitespace: replace(/\s+/g, ' ') -----

  const Space: CodeUnit := 0x20
  const Newline: CodeUnit := 0x0A

  /** Every whitespace unit is a single space followed by something that is not whitespace. */
  predicate SingleSpaced(s: JsString)
  {
    forall i :: 0 <= i < |s| && IsWhitespace(s[i]) ==>
      s[i] == Space && (i + 1 < |s| ==> !IsWhitespace(s[i + 1]))
  }

  /** The scan behind `replace(/\s+/g, ' ')`; `inRun` says that the unit before `s` was
      whitespace, already replaced by the space of its run. */
  function CollapseFrom(s: JsString, inRun: bool): (r: JsString)
    ensures inRun && r != [] ==> !IsWhitespace(r[0])
    ensures s != [] && !IsWhitespace(s[0]) ==> r != [] && r[0] == s[0]
    decreases |s|
  {
    if s == [] then []
    else if IsWhitespace(s[0]) then
      (if inRun then [] else [Space]) + CollapseFrom(s[1..], true)
    else [s[0]] + CollapseFrom(s[1..], false)
  }

  function Collapse(s: JsString): JsString
  {
    CollapseFrom(s, false)
  }

  /** Collapsing leaves only single spaces between runs of other units. */
  lemma {:induction false} CollapseSingleSpaced(s: JsString, inRun: bool)
    ensures SingleSpaced(CollapseFrom(s, inRun))
    decreases |s|
  {
    if s != [] {
      var rest := CollapseFrom(s[1..], IsWhitespace(s[0]));
      CollapseSingleSpaced(s[1..], IsWhitespace(s[0]));
      var head: JsString := if IsWhitespace(s[0]) then (if inRun then [] else [Space]) else [s[0]];
      assert CollapseFrom(s, inRun) == head + rest;
      SingleSpacedCons(head, rest);
    }
  }

  lemma SingleSpacedCons(head: JsString, rest: JsString)
    requires |head| <= 1 && SingleSpaced(rest)
    requires head != [] && IsWhitespace(head[0]) ==> head[0] == Space && (rest == [] || !IsWhitespace(rest[0]))
    ensures SingleSpaced(head + rest)
  {
    var s := head + rest;
    forall i | 0 <= i < |s| && IsWhitespace(s[i])
      ensures s[i] == Space && (i + 1 < |s| ==> !IsWhitespace(s[i + 1]))
    {
      if i >= |head| {
        assert s[i] == rest[i - |head|];
        if i + 1 < |s| {
          assert s[i + 1] == rest[i + 1 - |head|];
        }
      } else if i + 1 < |s| {
        assert s[i + 1] == rest[0];
      }
    }
  }

  /** Collapsing only changes whitespace. */
  lemma {:induction false} CollapseKeepsSolid(s: JsString, inRun: bool)
    ensures RemoveWhitespace(CollapseFrom(s, inRun)) == RemoveWhitespace(s)
    decreases |s|
  {
    if s != [] {
      var head: JsString := if IsWhitespace(s[0]) then (if inRun then [] else [Space]) else [s[0]];
      var rest := CollapseFrom(s[1..], IsWhitespace(s[0]));
      CollapseKeepsSolid(s[1..], IsWhitespace(s[0]));
      RemoveWhitespaceAppend(head, rest);
      assert RemoveWhitespace(head) == (if IsWhitespace(s[0]) then [] else [s[0]]) by {
        if head != [] {
          assert head[1..] == [];
        }
      }
    }
  }

  /** A string that is already single-spaced comes through unchanged. */
  lemma {:induction false} CollapseFixed(s: JsString, inRun: bool)
    requires SingleSpaced(s)
    requires inRun && s != [] ==> !IsWhitespace(s[0])
    ensures CollapseFrom(s, inRun) == s
    decreases |s|
  {
    if s != [] {
      assert SingleSpaced(s[1..]) by {
        forall i | 0 <= i < |s[1..]| && IsWhitespace(s[1..][i])
          ensures s[1..][i] == Space && (i + 1 < |s[1..]| ==> !IsWhitespace(s[1..][i + 1]))
        {
          assert s[1..][i] == s[i + 1];
          if i + 1 < |s[1..]| {
            assert s[1..][i + 1] == s[i + 2];
          }
        }
      }
      if |s| > 1 && IsWhitespace(s[0]) {
        assert !IsWhitespace(s[1]);
      }
      CollapseFixed(s[1..], IsWhitespace(s[0]));
      assert [s[0]] + s[1..] == s;
    }
  }

  lemma SingleSpacedSlice(s: JsString, a: int, b: int)
    requires SingleSpaced(s) && 0 <= a <= b <= |s|
    ensures SingleSpaced(s[a..b])
  {
    var t := s[a..b];
    forall i | 0 <= i < |t| && IsWhitespace(t[i])
      ensures t[i] == Space && (i + 1 < |t| ==> !IsWhitespace(t[i + 1]))
    {
      assert t[i] == s[a + i];
      if i + 1 < |t| {
        assert t[i + 1] == s[a + i + 1];
      }
    }
  }

  lemma TrimSingleSpaced(s: JsString)
    requires SingleSpaced(s)
    ensures SingleSpaced(Trim(s))
  {
    var t := TrimStart(s);
    TrimStartSuffix(s);
    SingleSpacedSlice(s, |s| - |t|, |s|);
    TrimEndPrefix(t);
    SingleSpacedSlice(t, 0, |TrimEnd(t)|);
  }

  /** `split('').reverse().join('')`: reverses the code units. */
  function Reverse(s: JsString): (r: JsString)
    ensures |r| == |s|
    ensures forall i :: 0 <= i < |s| ==> r[i] == s[|s| - 1 - i]
  {
    seq(|s|, i requires 0 <= i < |s| => s[|s| - 1 - i])
  }

  /** Reversing twice restores the string. */
  lemma ReverseInvolution(s: JsString)
    ensures Reverse(Reverse(s)) == s
  {
  }

  /** `s.padStart(n, '0')`. */
  function PadStartZero(s: JsString, n: nat): (r: JsString)
    ensures |r| == if |s| >= n then |s| else n
  {
    if |s| >= n then s else seq(n - |s|, _ => '0' as int) + s
  }

  // ----- comparison -----

  /** `a` and `b` agree before index `i` and `a` has the smaller code unit at `i`. */
  predicate LessAt(a: JsString, b: JsString, i: int)
  {
    0 <= i < |a| && i < |b| && (forall j :: 0 <= j < i ==> a[j] == b[j]) && a[i] < b[i]
  }

  /** The relational comparison `a < b` of two strings: code-unit order, and a proper prefix
      comes first. */
  predicate Less(a: JsString, b: JsString)
  {
    (exists i | 0 <= i < |a| :: LessAt(a, b, i)) || (|a| < |b| && a == b[..|a|])
  }
}
