/** The JWT decoder (tools/JwtDecoder.tsx): a token is split at its dots, the first two
    segments are read as base64url (section 5 of RFC 4648, padding optional) and shown as
    pretty-printed JSON, the third is shown as the signature; editing either JSON pane
    re-assembles an unsigned token from the minified JSON. */
module Jwt {
  import opened JsStrings
  import opened Base64
  import opened JsonHost

  const Dot: CodeUnit := 0x2E
  const Plus: CodeUnit := 0x2B
  const Slash: CodeUnit := 0x2F
  const Minus: CodeUnit := 0x2D
  const Underscore: CodeUnit := 0x5F
  const EqualsSign: CodeUnit := 0x3D

  /** The signature used when there is none. */
  const Unsigned: JsString := Lit("unsigned")

  // ----- base64url -----

  /** `part.replace(/-/g, '+').replace(/_/g, '/')`: the base64url alphabet back to base64. */
  function FromBase64Url(s: JsString): JsString
  {
    ReplaceAll(ReplaceAll(s, Minus, [Plus]), Underscore, [Slash])
  }

  /** `.replace(/\+/g, '-').replace(/\//g, '_')`: base64 to the base64url alphabet. */
  function ToBase64Url(s: JsString): JsString
  {
    ReplaceAll(ReplaceAll(s, Plus, [Minus]), Slash, [Underscore])
  }

  /** `.replace(/=+$/, '')`: the final run of `=` removed. */
  function TrimEquals(s: JsString): (r: JsString)
    ensures r == [] || r[|r| - 1] != EqualsSign
    decreases |s|
  {
    if s != [] && s[|s| - 1] == EqualsSign then TrimEquals(s[..|s| - 1]) else s
  }

  /** What `TrimEquals` removes is a final run of `=`. */
  lemma {:induction false} TrimEqualsPrefix(s: JsString)
    ensures |TrimEquals(s)| <= |s| && TrimEquals(s) == s[..|TrimEquals(s)|]
    ensures forall j :: |TrimEquals(s)| <= j < |s| ==> s[j] == EqualsSign
    decreases |s|
  {
    if s != [] && s[|s| - 1] == EqualsSign {
      var init := s[..|s| - 1];
      TrimEqualsPrefix(init);
      var r := TrimEquals(init);
      assert init[..|r|] == s[..|r|];
      forall j | |r| <= j < |s| ensures s[j] == EqualsSign {
        if j < |s| - 1 {
          assert s[j] == init[j];
        }
      }
    }
  }

  /** A segment as the decoder reads it: `atob` after mapping the alphabet back; None is the
      exception `atob` throws. */
  function DecodeSegment(segment: JsString): Option<JsString>
  {
    Atob(FromBase64Url(segment))
  }

  /** `encode(str)`: `btoa`, the alphabet mapped to base64url, the padding dropped; None is
      the exception `btoa` throws for a code unit above 0xFF. */
  function Encode(str: JsString): (r: Option<JsString>)
    ensures r.Some? <==> IsLatin1(str)
  {
    match Btoa(str)
    case None => None
    case Some(b) => Some(TrimEquals(ToBase64Url(b)))
  }

  predicate IsUrlChar(u: CodeUnit)
  {
    IsAlnum(u) || u == Minus || u == Underscore
  }

  predicate AllUrlChars(s: JsString)
  {
    forall i :: 0 <= i < |s| ==> IsUrlChar(s[i])
  }

  /** What the mapping to base64url does to one unit. */
  function UrlUnit(c: CodeUnit): CodeUnit
  {
    if c == Plus then Minus else if c == Slash then Underscore else c
  }

  /** What the mapping back to base64 does to one unit. */
  function Base64Unit(c: CodeUnit): CodeUnit
  {
    if c == Minus then Plus else if c == Underscore then Slash else c
  }

  lemma ToBase64UrlPointwise(e: JsString)
    ensures |ToBase64Url(e)| == |e|
    ensures forall i :: 0 <= i < |e| ==> ToBase64Url(e)[i] == UrlUnit(e[i])
  {
    var a := ReplaceAll(e, Plus, [Minus]);
    ReplaceAllPointwise(e, Plus, Minus);
    ReplaceAllPointwise(a, Slash, Underscore);
  }

  lemma FromBase64UrlPointwise(u: JsString)
    ensures |FromBase64Url(u)| == |u|
    ensures forall i :: 0 <= i < |u| ==> FromBase64Url(u)[i] == Base64Unit(u[i])
  {
    var b := ReplaceAll(u, Minus, [Plus]);
    ReplaceAllPointwise(u, Minus, Plus);
    ReplaceAllPointwise(b, Underscore, Slash);
  }

  /** The alphabet mapping sends base64 characters to base64url characters, one for one. */
  lemma ToBase64UrlChars(e: JsString)
    requires AllBase64Chars(e)
    ensures |ToBase64Url(e)| == |e|
    ensures AllUrlChars(ToBase64Url(e))
    ensures FromBase64Url(ToBase64Url(e)) == e
  {
    var u := ToBase64Url(e);
    ToBase64UrlPointwise(e);
    FromBase64UrlPointwise(u);
    forall i | 0 <= i < |e| ensures IsUrlChar(u[i]) && Base64Unit(u[i]) == e[i] {
      UrlUnitOfBase64(e[i]);
    }
  }

  lemma UrlUnitOfBase64(c: CodeUnit)
    requires IsBase64Char(c)
    ensures IsUrlChar(UrlUnit(c)) && Base64Unit(UrlUnit(c)) == c
  {
  }

  /** The padding holds no `+` or `/`, so the mapping leaves it alone. */
  lemma ToBase64UrlPadded(e: JsString, n: nat)
    ensures ToBase64Url(e + Padding(n)) == ToBase64Url(e) + Padding(n)
  {
    var p := Padding(n);
    assert Plus !in p && Slash !in p;
    ReplaceAllAppend(e, p, Plus, [Minus]);
    ReplaceAllAppend(ReplaceAll(e, Plus, [Minus]), p, Slash, [Underscore]);
  }

  /** Removing the final `=` run of a text that ends in something else, followed by `=`s,
      leaves that text. */
  lemma {:induction false} TrimEqualsOfPadded(x: JsString, p: JsString)
    requires x == [] || x[|x| - 1] != EqualsSign
    requires forall i :: 0 <= i < |p| ==> p[i] == EqualsSign
    ensures TrimEquals(x + p) == x
    decreases |p|
  {
    if p == [] {
      assert x + p == x;
    } else {
      var q := p[..|p| - 1];
      assert (x + p)[..|x + p| - 1] == x + q;
      TrimEqualsOfPadded(x, q);
    }
  }

  /** `encode` gives the unpadded base64url encoding: no `+`, `/` or `=` and no `.`. */
  lemma EncodeIsUnpaddedUrl(str: JsString)
    requires IsLatin1(str)
    ensures Encode(str).value == ToBase64Url(EncodeUnpadded(str))
    ensures AllUrlChars(Encode(str).value)
    ensures Plus !in Encode(str).value && Slash !in Encode(str).value
    ensures EqualsSign !in Encode(str).value && Dot !in Encode(str).value
  {
    var e := EncodeUnpadded(str);
    assert Btoa(str).value == e + Padding(|str|);
    UrlOfEncoding(e, |str|);
    UrlCharsExclude(ToBase64Url(e));
  }

  /** Mapping a padded encoding to base64url and dropping the final `=` run leaves the mapped
      unpadded encoding. */
  lemma UrlOfEncoding(e: JsString, n: nat)
    requires AllBase64Chars(e)
    ensures TrimEquals(ToBase64Url(e + Padding(n))) == ToBase64Url(e)
    ensures AllUrlChars(ToBase64Url(e))
  {
    var u := ToBase64Url(e);
    ToBase64UrlPadded(e, n);
    ToBase64UrlChars(e);
    assert u == [] || IsUrlChar(u[|u| - 1]);
    TrimEqualsOfPadded(u, Padding(n));
  }

  lemma UrlCharsExclude(u: JsString)
    requires AllUrlChars(u)
    ensures Plus !in u && Slash !in u && EqualsSign !in u && Dot !in u
  {
    forall i | 0 <= i < |u| ensures u[i] != Plus && u[i] != Slash && u[i] != EqualsSign && u[i] != Dot {
      assert IsUrlChar(u[i]);
    }
  }

  /** Decoding what `encode` produced gives the text back. */
  lemma DecodeEncode(str: JsString)
    requires IsLatin1(str)
    ensures DecodeSegment(Encode(str).value) == Some(str)
  {
    EncodeIsUnpaddedUrl(str);
    ToBase64UrlChars(EncodeUnpadded(str));
    AtobUnpadded(str);
  }

  // ----- tokens -----

  /** `${header}.${payload}.${signature}`. */
  function Token(header: JsString, payload: JsString, signature: JsString): JsString
  {
    header + [Dot] + payload + [Dot] + signature
  }

  /** Splitting an assembled token at its dots gives back its three parts. */
  lemma SplitToken(header: JsString, payload: JsString, signature: JsString)
    requires Dot !in header && Dot !in payload && Dot !in signature
    ensures Split(Token(header, payload, signature), Dot) == [header, payload, signature]
  {
    SplitFree(signature, Dot);
    SplitPrefix(payload, signature, Dot);
    assert Token(header, payload, signature) == header + [Dot] + (payload + [Dot] + signature);
    SplitPrefix(header, payload + [Dot] + signature, Dot);
  }

  /** What typing a token does to the panes. */
  datatype Decoding =
    | Blank                                               // only the error is cleared
    | Rejected                                            // the error is set, no pane changes
    | HeaderOnly(header: JsString)                        // the header pane is replaced, then the error is set
    | Decoded(header: JsString, payload: JsString, signature: JsString)

  /** `handleTokenChange` as a function of the typed value: blank text stops early; a value
      that is not three dot-separated parts, a segment `atob` rejects or a header that is not
      JSON is rejected; a payload that is not JSON is rejected after the header pane has
      been replaced. */
  function DecodeToken(val: JsString, json: Json): (r: Decoding)
    ensures r.Decoded? || r.HeaderOnly? ==> |Split(val, Dot)| == 3
    ensures r.Decoded? ==> Dot !in r.signature && Split(val, Dot)[2] == r.signature
  {
    if Trim(val) == [] then Blank
    else
      var parts := Split(val, Dot);
      if |parts| != 3 then Rejected else DecodeParts(parts, json)
  }

  /** The panes' fate once the two segments are decoded (None where `atob` threw). */
  function DecodeParts(parts: seq<JsString>, json: Json): (r: Decoding)
    requires |parts| == 3
    ensures r.Decoded? ==> r.signature == parts[2]
  {
    PanesOf(DecodeSegment(parts[0]), DecodeSegment(parts[1]), parts[2], json)
  }

  function PanesOf(decodedHeader: Option<JsString>, decodedPayload: Option<JsString>, signature: JsString, json: Json): (r: Decoding)
    ensures r.Decoded? ==> r.signature == signature
  {
    if decodedHeader.None? || decodedPayload.None? then Rejected
    else
      var header := json.pretty(decodedHeader.value);
      if header.None? then Rejected
      else
        var payload := json.pretty(decodedPayload.value);
        if payload.None? then HeaderOnly(header.value)
        else Decoded(header.value, payload.value, signature)
  }

  /** Only blank text is left undecoded. */
  lemma DecodeTokenBlank(val: JsString, json: Json)
    ensures DecodeToken(val, json).Blank? <==> NoNonBlank(val)
  {
    TrimEmptyIffBlank(val);
  }

  /** A value with more or fewer than two dots is rejected, unless it is blank. */
  lemma DecodeTokenPartCount(val: JsString, json: Json)
    requires !NoNonBlank(val) && Count(val, Dot) != 2
    ensures DecodeToken(val, json) == Rejected
  {
    TrimEmptyIffBlank(val);
  }

  /** The token `handleJsonChange` assembles from two minified JSON texts. */
  function AssembleToken(minHeader: JsString, minPayload: JsString, signature: JsString): (r: Option<JsString>)
    ensures r.Some? <==> IsLatin1(minHeader) && IsLatin1(minPayload)
  {
    var h, p := Encode(minHeader), Encode(minPayload);
    if h.None? || p.None? then None
    else Some(Token(h.value, p.value, if signature == [] then Unsigned else signature))
  }

  lemma UnsignedHasNoDot()
    ensures Dot !in Unsigned && Unsigned != []
  {
    assert forall i :: 0 <= i < |Unsigned| ==> Unsigned[i] != Dot by {
      assert Unsigned == [0x75, 0x6E, 0x73, 0x69, 0x67, 0x6E, 0x65, 0x64];
    }
  }

  /** An assembled token splits into the two encodings and the signature (or `unsigned`), and
      its segments decode to the minified texts it was built from. */
  lemma AssembledTokenSegments(minHeader: JsString, minPayload: JsString, signature: JsString)
    requires IsLatin1(minHeader) && IsLatin1(minPayload) && Dot !in signature
    ensures Trim(AssembleToken(minHeader, minPayload, signature).value) != []
    ensures Split(AssembleToken(minHeader, minPayload, signature).value, Dot) ==
            [Encode(minHeader).value, Encode(minPayload).value, if signature == [] then Unsigned else signature]
    ensures DecodeSegment(Encode(minHeader).value) == Some(minHeader)
    ensures DecodeSegment(Encode(minPayload).value) == Some(minPayload)
  {
    EncodeIsUnpaddedUrl(minHeader);
    EncodeIsUnpaddedUrl(minPayload);
    UnsignedHasNoDot();
    SplitToken(Encode(minHeader).value, Encode(minPayload).value, if signature == [] then Unsigned else signature);
    TokenNotBlank(Encode(minHeader).value, Encode(minPayload).value, if signature == [] then Unsigned else signature);
    DecodeEncode(minHeader);
    DecodeEncode(minPayload);
  }

  /** An assembled token is never blank: it holds a dot. */
  lemma TokenNotBlank(header: JsString, payload: JsString, signature: JsString)
    ensures Trim(Token(header, payload, signature)) != []
  {
    var t := Token(header, payload, signature);
    assert t[|header|] == Dot;
    assert !NoNonBlank(t) by {
      assert !IsWhitespace(t[|header|]);
    }
    TrimEmptyIffBlank(t);
  }

  /** Three parts whose first two segments decode to JSON are decoded in full. */
  lemma DecodeTokenOfParts(val: JsString, json: Json, a: JsString, b: JsString, c: JsString, x: JsString, y: JsString)
    requires Trim(val) != [] && Split(val, Dot) == [a, b, c]
    requires DecodeSegment(a) == Some(x) && DecodeSegment(b) == Some(y)
    requires json.pretty(x).Some? && json.pretty(y).Some?
    ensures DecodeToken(val, json) == Decoded(json.pretty(x).value, json.pretty(y).value, c)
  {
  }

  /** Typing back a token the JSON panes assembled shows the pretty-printed form of the
      minified texts, and the signature it was given (or `unsigned`). */
  lemma DecodeAssembledToken(minHeader: JsString, minPayload: JsString, signature: JsString, json: Json)
    requires IsLatin1(minHeader) && IsLatin1(minPayload) && Dot !in signature
    requires json.pretty(minHeader).Some? && json.pretty(minPayload).Some?
    ensures DecodeToken(AssembleToken(minHeader, minPayload, signature).value, json) ==
            Decoded(json.pretty(minHeader).value, json.pretty(minPayload).value,
                    if signature == [] then Unsigned else signature)
  {
    var t := AssembleToken(minHeader, minPayload, signature).value;
    AssembledTokenSegments(minHeader, minPayload, signature);
    DecodeTokenOfParts(t, json, Encode(minHeader).value, Encode(minPayload).value,
                       if signature == [] then Unsigned else signature, minHeader, minPayload);
  }

  /** The JSON pane being edited. */
  datatype Pane = HeaderPane | PayloadPane

  /** The decoder's state: the token text, the two JSON panes, the signature and whether the
      error message is shown (its text is a localised message). */
  class JwtDecoder {
    var token: JsString
    var header: JsString
    var payload: JsString
    var signature: JsString
    var error: bool

    /** The signature is always a dot-free part of a token, or empty. */
    predicate Valid()
      reads this
    {
      Dot !in signature
    }

    constructor ()
      ensures Valid()
      ensures token == [] && signature == [] && !error
      ensures header == Lit("{\n  \"alg\": \"HS256\",\n  \"typ\": \"JWT\"\n}")
      ensures payload == Lit("{\n  \"sub\": \"1234567890\",\n  \"name\": \"John Doe\",\n  \"iat\": 1516239022\n}")
    {
      token := [];
      header := Lit("{\n  \"alg\": \"HS256\",\n  \"typ\": \"JWT\"\n}");
      payload := Lit("{\n  \"sub\": \"1234567890\",\n  \"name\": \"John Doe\",\n  \"iat\": 1516239022\n}");
      signature := [];
      error := false;
    }

    /** `handleTokenChange`: the panes are set one after the other, so a payload that is not
        JSON leaves the header already replaced. */
    method HandleTokenChange(val: JsString, json: Json)
      requires Valid()
      modifies this
      ensures Valid()
      ensures token == val
      ensures match DecodeToken(val, json)
              case Blank => !error && header == old(header) && payload == old(payload) && signature == old(signature)
              case Rejected => error && header == old(header) && payload == old(payload) && signature == old(signature)
              case HeaderOnly(h) => error && header == h && payload == old(payload) && signature == old(signature)
              case Decoded(h, p, s) => !error && header == h && payload == p && signature == s
    {
      token := val;
      error := false;
      if Trim(val) == [] {
        return;
      }
      var parts := Split(val, Dot);
      if |parts| != 3 {
        error := true;
        return;
      }
      var decodedHeader := DecodeSegment(parts[0]);
      var decodedPayload := DecodeSegment(parts[1]);
      ShowDecoded(decodedHeader, decodedPayload, parts[2], json);
    }

    /** The part of `handleTokenChange` inside its `try` once both segments are decoded. */
    method ShowDecoded(decodedHeader: Option<JsString>, decodedPayload: Option<JsString>, sig: JsString, json: Json)
      requires Dot !in sig && !error
      modifies this
      ensures token == old(token)
      ensures match PanesOf(decodedHeader, decodedPayload, sig, json)
              case Blank => false
              case Rejected => error && header == old(header) && payload == old(payload) && signature == old(signature)
              case HeaderOnly(h) => error && header == h && payload == old(payload) && signature == old(signature)
              case Decoded(h, p, s) => !error && header == h && payload == p && signature == s && Dot !in signature
    {
      if decodedHeader.None? || decodedPayload.None? {
        error := true;
        return;
      }
      var prettyHeader := json.pretty(decodedHeader.value);
      if prettyHeader.None? {
        error := true;
        return;
      }
      header := prettyHeader.value;
      var prettyPayload := json.pretty(decodedPayload.value);
      if prettyPayload.None? {
        error := true;
        return;
      }
      payload := prettyPayload.value;
      signature := sig;
    }

    /** `handleJsonChange`: the edited pane takes the typed value; when both panes are JSON
        whose minified form `btoa` accepts, the token is re-assembled and the error cleared;
        otherwise the token and the error are left alone. */
    method HandleJsonChange(pane: Pane, val: JsString, json: Json)
      requires Valid()
      modifies this
      ensures Valid()
      ensures header == if pane == HeaderPane then val else old(header)
      ensures payload == if pane == PayloadPane then val else old(payload)
      ensures signature == old(signature)
      ensures var h, p := json.minified(header), json.minified(payload);
              if h.Some? && p.Some? && AssembleToken(h.value, p.value, signature).Some? then
                token == AssembleToken(h.value, p.value, signature).value && !error
              else token == old(token) && error == old(error)
    {
      if pane == HeaderPane {
        header := val;
      } else {
        payload := val;
      }
      var h := json.minified(header);
      var p := json.minified(payload);
      if h.None? || p.None? {
        return;
      }
      var assembled := AssembleToken(h.value, p.value, signature);
      if assembled.None? {
        return;
      }
      token := assembled.value;
      error := false;
    }

    /** The clear button. */
    method Clear()
      modifies this
      ensures Valid()
      ensures token == [] && header == Lit("{}") && payload == Lit("{}") && signature == [] && !error
    {
      token, header, payload, signature, error := [], Lit("{}"), Lit("{}"), [], false;
    }
  }
}
