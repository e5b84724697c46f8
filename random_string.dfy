/** The random string generator: a character set assembled from the enabled groups, and
    one character of it per random 32-bit value. */
module RandomString {
  import opened JsStrings
  import opened JsNumbers

  type Uint32 = x: int | 0 <= x < 0x1_0000_0000

  const UppercaseChars: JsString := Lit("ABCDEFGHIJKLMNOPQRSTUVWXYZ")
  const LowercaseChars: JsString := Lit("abcdefghijklmnopqrstuvwxyz")
  const NumberChars: JsString := Lit("0123456789")
  const SymbolChars: JsString := Lit("!@#$%^&*()_+~`|}{[]:;?><,./-=")

  /** The largest length the number field accepts. */
  const MaxLength: int := 512

  /** The four checkboxes. */
  datatype Groups = Groups(uppercase: bool, lowercase: bool, numbers: bool, symbols: bool)

  /** The character set: the enabled groups in the order upper case, lower case, digits,
      symbols. A unit belongs to it exactly when it belongs to an enabled group. */
  function Charset(g: Groups): (chars: JsString)
    ensures chars == [] <==> !g.uppercase && !g.lowercase && !g.numbers && !g.symbols
  {
    (if g.uppercase then UppercaseChars else []) + (if g.lowercase then LowercaseChars else []) +
    (if g.numbers then NumberChars else []) + (if g.symbols then SymbolChars else [])
  }

  /** A unit is in the character set exactly when it is in an enabled group. */
  lemma CharsetMembers(g: Groups, u: CodeUnit)
    ensures u in Charset(g) <==> InEnabledGroup(g, u)
  {
  }

  predicate InEnabledGroup(g: Groups, u: CodeUnit)
  {
    (g.uppercase && u in UppercaseChars) || (g.lowercase && u in LowercaseChars) ||
    (g.numbers && u in NumberChars) || (g.symbols && u in SymbolChars)
  }

  /** The characters picked by the random values, `chars[v % chars.length]` for each. */
  function Picks(chars: JsString, values: seq<Uint32>): (r: JsString)
    requires chars != []
    ensures |r| == |values|
    ensures forall i :: 0 <= i < |values| ==> r[i] == chars[values[i] % |chars|]
  {
    seq(|values|, i requires 0 <= i < |values| => chars[values[i] % |chars|])
  }

  /** Every generated character belongs to an enabled group. */
  lemma PicksFromEnabledGroups(g: Groups, values: seq<Uint32>)
    requires Charset(g) != []
    ensures forall i :: 0 <= i < |values| ==> InEnabledGroup(g, Picks(Charset(g), values)[i])
  {
    var chars := Charset(g);
    forall i | 0 <= i < |values| ensures InEnabledGroup(g, Picks(chars, values)[i]) {
      assert chars[values[i] % |chars|] in chars;
      CharsetMembers(g, chars[values[i] % |chars|]);
    }
  }

  /** The number field: `parseInt(value) || 0`, capped at 512. A negative number is kept. */
  function TypedLength(value: JsString): (n: int)
    ensures n <= MaxLength
    ensures ParseInt(value, 0).None? ==> n == 0
  {
    var p := ParseInt(value, 0);
    var v := if p.Some? then p.value else 0;
    if v > MaxLength then MaxLength else v
  }

  /** A length typed in decimal is taken as it is, up to 512. */
  lemma TypedLengthOfNumber(n: nat)
    ensures TypedLength(NatToString(n, 10)) == if n > MaxLength then MaxLength else n
  {
    NatToStringRoundTrip(n, 10);
    ParseIntDecimal(NatToString(n, 10));
  }

  /** What a call of `generate` did. */
  datatype Outcome = Generated | NoCharset | InvalidLength

  /** The component's state. */
  class RandomStringGenerator {
    var length: int
    var groups: Groups
    var result: JsString

    constructor()
      ensures length == 16 && groups == Groups(true, true, true, true) && result == []
    {
      length := 16;
      groups := Groups(true, true, true, true);
      result := [];
    }

    /** The number field's `onChange`. A length that differs from the one held makes a new
        `generate`, and the effect that depends on it runs `Generate` next; the same length
        (`016` while the length is 16) leaves the result as it was. */
    method SetTypedLength(value: JsString)
      modifies this
      ensures length == TypedLength(value) && groups == old(groups) && result == old(result)
    {
      var val := TypedLength(value);
      length := val;
    }

    /** The slider's `onChange`; the slider only offers 1 to 512. `Generate` follows as
        the effect when the value changes. */
    method SetSliderLength(value: int)
      requires 1 <= value <= MaxLength
      modifies this
      ensures length == value && groups == old(groups) && result == old(result)
    {
      length := value;
    }

    /** The checkboxes; `Generate` follows as the effect when a value changes. */
    method SetGroups(g: Groups)
      modifies this
      ensures groups == g && length == old(length) && result == old(result)
    {
      groups := g;
    }

    /** `generate`, which also runs as the effect after a setter that changes a value, with the values
        `crypto.getRandomValues` fills in as a parameter. With no group enabled the result is empty; a negative length makes the typed array
        constructor throw, which leaves the result as it was. */
    method Generate(randomValues: seq<Uint32>) returns (outcome: Outcome)
      requires length >= 0 ==> |randomValues| == length
      modifies this
      ensures length == old(length) && groups == old(groups)
      ensures Charset(groups) == [] ==> outcome == NoCharset && result == []
      ensures Charset(groups) != [] && length < 0 ==> outcome == InvalidLength && result == old(result)
      ensures Charset(groups) != [] && length >= 0 ==>
        outcome == Generated && result == Picks(Charset(groups), randomValues)
    {
      var chars := AssembleCharset(groups);
      if chars == [] {
        result := [];
        return NoCharset;
      }
      if length < 0 {
        return InvalidLength;
      }
      var str := PickAll(chars, randomValues);
      result := str;
      return Generated;
    }
  }

  /** `chars += group` for each enabled group, in order. */
  method AssembleCharset(g: Groups) returns (chars: JsString)
    ensures chars == Charset(g)
  {
    ghost var upper: JsString := if g.uppercase then UppercaseChars else [];
    ghost var lower: JsString := if g.lowercase then LowercaseChars else [];
    ghost var numbers: JsString := if g.numbers then NumberChars else [];
    ghost var symbols: JsString := if g.symbols then SymbolChars else [];
    chars := [];
    if g.uppercase { chars := chars + UppercaseChars; }
    assert chars == upper;
    if g.lowercase { chars := chars + LowercaseChars; }
    assert chars == upper + lower;
    if g.numbers { chars := chars + NumberChars; }
    assert chars == upper + lower + numbers;
    if g.symbols { chars := chars + SymbolChars; }
    assert chars == upper + lower + numbers + symbols;
  }

  /** The loop of `generate`: one character per random value. */
  method PickAll(chars: JsString, values: seq<Uint32>) returns (str: JsString)
    requires chars != []
    ensures str == Picks(chars, values)
  {
    str := [];
    var i := 0;
    while i < |values|
      invariant 0 <= i <= |values|
      invariant |str| == i
      invariant forall j :: 0 <= j < i ==> str[j] == chars[values[j] % |chars|]
    {
      str := str + [chars[values[i] % |chars|]];
      i := i + 1;
    }
  }
}
