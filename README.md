# A verified model of the developer-toolbox core

This project models the core of a browser toolbox of small developer utilities, written in
TypeScript and React. Each utility is one component. The model covers the following.

- **Quick Preview.** This is the detector and ranking engine. It trims the input and runs
  twelve detectors in a fixed push order: json, sql, timestamp, color, jwt, url, unicode,
  base64, number, text-stats, qrcode and hash. It collects the cards that fire and sorts
  them by priority with a stable sort.
- **The tools behind the detectors.**
  - Unicode `\uXXXX` escapes.
  - `btoa`/`atob`, that is base64 per section 4 of RFC 4648 with forgiving decoding.
  - The JWT decoder and encoder, using base64url per section 5 of RFC 4648.
  - `encodeURIComponent`/`encodeURI`/`decodeURIComponent`, per section 19.2.6 of ECMA-262.
  - The number-base converter.
  - The timestamp tool and its relative-time wording.
  - UUID generation: version 1 and version 7 per sections 5.1 and 5.7 of RFC 9562, and the
    batch post-processing.
  - The colour hex/RGB converter and the palette structure.
  - The regular-expression SQL formatter and minifier.
  - The text inspector's statistics and transforms.
  - The random-string builder.
  - The code editor's HTML-escape fallback.

JavaScript strings are sequences of UTF-16 code units (`JsStrings.CodeUnit`, 0..0xFFFF).
They are not Dafny `char`s, because a JS string may hold a lone surrogate.

Host primitives the code calls but does not define are parameters:

- `JSON.parse`/`JSON.stringify` are the `JsonHost.Json` record of two partial functions.
- The `sql-formatter` library and the CryptoJS digests are in `QuickPreview.Host`.
- `Date.now()`, `Date.parse`, `crypto.getRandomValues`, `crypto.randomUUID` and the colour
  mixer are method or function arguments.

Each React component is a `class`. Its state variables are fields, and each handler is a
method. A method states the whole new state in terms of specification functions, and
lemmas prove the promised properties of those functions.

Module layout:

| file | module | source |
|---|---|---|
| js_strings.dfy | `JsStrings` | string primitives: trim, split/join, replace, `\s`, ASCII case mapping |
| js_numbers.dfy | `JsNumbers` | `parseInt`, `BigInt(string)`, `Number.prototype.toString(radix)`, `padStart` |
| json_host.dfy | `JsonHost` | the JSON primitives as parameters |
| quick_preview.dfy | `QuickPreview` | tools/QuickPreview.tsx |
| unicode_escapes.dfy | `UnicodeEscapes` | tools/UnicodeConverter.tsx |
| base64.dfy | `Base64` | tools/Base64Tool.tsx |
| jwt.dfy | `Jwt` | tools/JwtDecoder.tsx |
| uri_coding.dfy | `PercentEncoding` | tools/UrlEncoder.tsx |
| number_base.dfy | `NumberBase` | tools/NumberBase.tsx |
| timestamps.dfy | `Timestamps` | tools/TimestampTool.tsx |
| uuid.dfy | `Uuid` | tools/UuidGenerator.tsx |
| colors.dfy | `Colors` | tools/ColorTool.tsx |
| sql_formatter.dfy | `SqlFormatter` | tools/SqlFormatter.tsx |
| text_inspector.dfy | `TextInspector` | tools/TextInspector.tsx |
| random_string.dfy | `RandomString` | tools/RandomStringGenerator.tsx |
| code_editor.dfy | `CodeEditor` | components/CodeEditor.tsx |

Behaviour the model follows as the code has it, even where a reader might expect otherwise:

- The base64 card needs an input longer than 8 characters. An 8-character encoding such as
  `aGVsbG8=` never shows it (`QuickPreview.Base64CardOfBtoa`).
- The QR code card has no input-length ceiling.
- The number card only rejects `NaN`. There is no finiteness check.
- Quick Preview's unicode card tests for a lower-case `\u`, but it replaces `\u` or `\U`
  case-insensitively. It then strips only a lower-case `\u` before `parseInt`, so an
  upper-case `\UXXXX` escape becomes the code unit 0 (`UnicodeEscapes.UpperEscapeInQuickPreview`).
  The converter tool strips both and decodes the digits (`UnicodeEscapes.UpperEscapeInConverter`).
- The timestamp tool's summary panel always reads `inputTs` as seconds. It does so even when
  `handleTsChange` read a value above 100000000000 as milliseconds
  (`Timestamps.PanelMisreadsMilliseconds`).
- The panel reads `inputTs` with `parseInt` and no radix, but `handleTsChange` uses radix 10.
  So for `0x10` the date field shows the epoch while the panel shows 16 seconds
  (`Timestamps.PanelReadsHexPrefix`).

## Model

| member | source | states |
|---|---|---|
| QuickPreview.PushIndex | tools/QuickPreview.tsx:34-325 | each detector's place in the push order |
| QuickPreview.Rank | tools/QuickPreview.tsx:42-327 | each detector's place in the published order |
| QuickPreview.RankIsPriorityThenPush | tools/QuickPreview.tsx:42-327 | the published order is exactly: higher priority first, then earlier push first; ranks are distinct |
| QuickPreview.Ids | tools/QuickPreview.tsx:327 | the ids of a result list, position by position |
| QuickPreview.CollectPushOrder | tools/QuickPreview.tsx:34-325 | the result array is built by twelve conditional pushes in the detectors' source order |
| QuickPreview.CollectMembers | tools/QuickPreview.tsx:34-325 | a card is in the array iff its detector fired, with the detector's priority and content |
| QuickPreview.CollectPushSorted | tools/QuickPreview.tsx:34-325 | the pushed array has each id at most once, in push order, with its own priority |
| QuickPreview.SortPermutes | tools/QuickPreview.tsx:327 | the priority sort is a permutation of the pushed cards |
| QuickPreview.SortMembers | tools/QuickPreview.tsx:327 | the sort keeps exactly the pushed cards |
| QuickPreview.SortOrdered | tools/QuickPreview.tsx:327 | the sorted list has non-increasing priority |
| QuickPreview.SortRanks | tools/QuickPreview.tsx:327 | the sort is stable: equal priorities keep push order |
| QuickPreview.SortedCollect | tools/QuickPreview.tsx:34-327 | the published ids are the firing detectors in the order json, jwt, sql, color, timestamp, unicode, base64, url, number, text-stats, qrcode, hash |
| QuickPreview.JsonJwtExclusive | tools/QuickPreview.tsx:34-50 | json (leading `{`/`[`) and jwt (leading `ey`) never both fire |
| QuickPreview.SqlShapeIgnoresCase | tools/QuickPreview.tsx:53-55 | the sql keyword gate is case-insensitive |
| QuickPreview.TimestampCardIff | tools/QuickPreview.tsx:76-86 | the timestamp card shows iff the text is 10 to 13 digits; 13 digits are milliseconds, fewer are seconds times 1000 |
| QuickPreview.TimestampDigits | tools/QuickPreview.tsx:76-80 | such a value stays below the time range bound, so the invalid-date guard never rejects |
| QuickPreview.NumberCardIff | tools/QuickPreview.tsx:222-234 | the number card shows iff the text is decimal, `0x` hex or `0b` binary digits, with that value |
| QuickPreview.HexColorAndConverter | tools/QuickPreview.tsx:118-126 | `#` plus 3 or 6 hex digits shows the color card; the converter accepts the 6-digit form and rejects the 3-digit one |
| QuickPreview.OddHexIsNoColor | tools/QuickPreview.tsx:118-120 | `#` plus 4 or 5 characters, such as `#3b82`, never shows the color card |
| QuickPreview.JwtCardAgreesWithDecoder | tools/QuickPreview.tsx:140-165 | the jwt card shows the decoder's header and payload panes; a decodable token starting `ey` always shows it |
| QuickPreview.JwtCardOfPanes | tools/QuickPreview.tsx:143-150 | the card fires iff both segments decode and parse, as in the decoder tool |
| QuickPreview.AssembledTokenShowsCard | tools/QuickPreview.tsx:140-165 | a token built by the JWT editor shows the card with the pretty-printed header and payload |
| QuickPreview.UrlCardOfEncoding | tools/QuickPreview.tsx:168-182 | an `encodeURIComponent` output that differs from its input shows the url card with that input |
| QuickPreview.UnicodeCardIff | tools/QuickPreview.tsx:185-201 | the unicode card shows iff the text holds a complete lower-case `\uXXXX` escape; the decode then always differs |
| QuickPreview.BtoaPassesBase64Shape | tools/QuickPreview.tsx:204-206 | the `btoa` of 7 or more Latin-1 units is longer than 8 and passes the base64 regex |
| QuickPreview.Base64CardOfBtoa | tools/QuickPreview.tsx:204-219 | printable text of 7 or more units round-trips through the base64 card; 6 or fewer (an 8-character encoding) never shows it |
| QuickPreview.TextStatsAgree | tools/QuickPreview.tsx:256-282 | the text-stats card counts as the text inspector does, with words and lines at least 1 and bytes between chars and 3 times chars |
| QuickPreview.FiringMembers | tools/QuickPreview.tsx:34-325 | the firing list holds exactly the ids whose detector fires |
| QuickPreview.EvaluateOrder | tools/QuickPreview.tsx:22-327 | the published list is the firing detectors in rank order, non-increasing in priority, each id once, each card its detector's result |
| QuickPreview.EvaluateShows | tools/QuickPreview.tsx:22-327 | an id is published iff the trimmed input is not blank and its detector fires |
| QuickPreview.EvaluateBlank | tools/QuickPreview.tsx:23-27 | the list is empty iff the input is blank or whitespace |
| QuickPreview.EvaluateEndsWithFallbacks | tools/QuickPreview.tsx:255-327 | a non-blank input always ends with text-stats, qrcode, hash |
| QuickPreview.EvaluateStats | tools/QuickPreview.tsx:256-282 | a non-blank input shows text-stats with words and lines at least 1 |
| QuickPreview.DigitsShowTimestampAndNumber | tools/QuickPreview.tsx:76-80 | 10 to 13 digits always show both the timestamp and the number card |
| QuickPreview.EvaluateJsonOrJwt | tools/QuickPreview.tsx:34-165 | json and jwt are never both published |
| QuickPreview.PushDetected | tools/QuickPreview.tsx:34-325 | one `if (…) newResults.push(…)` step |
| QuickPreview.PushCards | tools/QuickPreview.tsx:34-325 | the effect's pushes build exactly the collected array |
| QuickPreview.Preview.constructor | tools/QuickPreview.tsx:19-20 | empty input and no results |
| QuickPreview.Preview.SetInput | tools/QuickPreview.tsx:19 | the input is the typed value; results are unchanged until the effect runs |
| QuickPreview.Preview.Refresh | tools/QuickPreview.tsx:22-329 | the effect publishes the evaluated list and keeps the input |
| UnicodeEscapes.Hex4IsPaddedString | tools/UnicodeConverter.tsx:16-19 | each code unit's digits are `toString(16).toUpperCase().padStart(4, '0')` |
| UnicodeEscapes.Hex4Value | tools/UnicodeConverter.tsx:16-19 | the four digits are upper-case hex and read back as the code unit |
| UnicodeEscapes.Encode | tools/UnicodeConverter.tsx:16-19 | the encoding is 6 times as long as the text |
| UnicodeEscapes.EncodeBlock | tools/UnicodeConverter.tsx:16-19 | block k of the encoding is the escape of unit k |
| UnicodeEscapes.DecodeEncode | tools/UnicodeConverter.tsx:16-33 | decoding the encoding of any text gives the text back |
| UnicodeEscapes.DecodeEscapeFirst | tools/UnicodeConverter.tsx:31-33 | decoding is one left-to-right pass: a replaced escape is not rescanned |
| UnicodeEscapes.DecodeWithoutEscape | tools/UnicodeConverter.tsx:31-33 | text with no complete escape, such as `\u12`, is returned unchanged |
| UnicodeEscapes.DecodeShrinks | tools/UnicodeConverter.tsx:31-33 | any complete escape makes the decode shorter, so it differs |
| UnicodeEscapes.ReplacementOfDigits | tools/UnicodeConverter.tsx:31-33 | an escape is replaced by the code unit its digits denote, in any case |
| UnicodeEscapes.UpperEscapeInConverter | tools/UnicodeConverter.tsx:31-33 | the converter decodes `\U` escapes as well |
| UnicodeEscapes.UpperEscapeInQuickPreview | tools/QuickPreview.tsx:187-188 | Quick Preview turns a `\UXXXX` escape into the code unit 0 |
| UnicodeEscapes.UnicodeConverter.constructor | tools/UnicodeConverter.tsx:6-7 | both panes empty |
| UnicodeEscapes.UnicodeConverter.HandleTextChange | tools/UnicodeConverter.tsx:10-21 | the text pane is the typed value and the other pane its encoding; empty empties both |
| UnicodeEscapes.UnicodeConverter.HandleUnicodeChange | tools/UnicodeConverter.tsx:23-39 | the escape pane is the typed value and the text pane its decoding; empty empties both |
| UnicodeEscapes.UnicodeConverter.ClearAll | tools/UnicodeConverter.tsx:41-44 | both panes empty |
| Base64.Btoa | tools/Base64Tool.tsx:11-12 | `btoa` succeeds iff every unit is at most 0xFF |
| Base64.BtoaLength | tools/Base64Tool.tsx:12 | the encoding has length 4 times the ceiling of n/3 |
| Base64.AtobBtoa | tools/Base64Tool.tsx:12-22 | `atob(btoa(s)) = s` for every Latin-1 string |
| Base64.AtobUnpadded | tools/Base64Tool.tsx:22 | missing padding is accepted |
| Base64.AtobRejectsOneModFour | tools/Base64Tool.tsx:22 | after whitespace removal, length 1 mod 4 is rejected |
| Base64.AtobRejectsForeignChar | tools/Base64Tool.tsx:22 | a unit outside the alphabet that is neither whitespace nor `=` is rejected, padded input included (`a!==`) |
| Base64.AtobRejectsUnstripped | tools/Base64Tool.tsx:22 | in the whitespace-free text, any non-alphabet unit the padding strip does not remove is rejected, such as the inner `=` of `ab=c` |
| Base64.RemoveAsciiWhitespace | tools/Base64Tool.tsx:22 | decoding first drops ASCII whitespace |
| Base64.Atob | tools/Base64Tool.tsx:22 | a successful decode holds only units up to 0xFF |
| Base64.Base64Tool.constructor | tools/Base64Tool.tsx:5-6 | both panes empty |
| Base64.Base64Tool.HandleTextChange | tools/Base64Tool.tsx:8-16 | text is the typed value; base64 is its encoding, or unchanged when `btoa` throws |
| Base64.Base64Tool.HandleBase64Change | tools/Base64Tool.tsx:18-26 | base64 is the typed value; text is its decoding, or unchanged when `atob` throws |
| Jwt.Encode | tools/JwtDecoder.tsx:101 | `encode` succeeds iff the text is Latin-1 |
| Jwt.EncodeIsUnpaddedUrl | tools/JwtDecoder.tsx:101 | `encode` is unpadded base64url: no `+`, `/`, `=` or `.` |
| Jwt.DecodeEncode | tools/JwtDecoder.tsx:27-101 | decoding a segment recovers the encoded text |
| Jwt.ToBase64UrlChars | tools/JwtDecoder.tsx:27-101 | the `-`/`_` substitution and its inverse undo each other on base64 text |
| Jwt.TrimEqualsPrefix | tools/JwtDecoder.tsx:101 | `/=+$/` removal drops exactly a trailing run of `=` |
| Jwt.DecodeToken | tools/JwtDecoder.tsx:16-36 | a decoded token has exactly three parts, and its signature is the third verbatim |
| Jwt.DecodeTokenBlank | tools/JwtDecoder.tsx:16-19 | a blank token is the no-op case |
| Jwt.DecodeTokenPartCount | tools/JwtDecoder.tsx:22-34 | a token without exactly two dots is rejected |
| Jwt.DecodeParts | tools/JwtDecoder.tsx:26-32 | a success keeps the third part as the signature |
| Jwt.PanesOf | tools/JwtDecoder.tsx:26-34 | the decoded signature is the given one |
| Jwt.AssembleToken | tools/JwtDecoder.tsx:98-102 | a token is built iff both minified texts are Latin-1 |
| Jwt.AssembledTokenSegments | tools/JwtDecoder.tsx:98-102 | the built token splits into the two encodings and the signature or `unsigned` |
| Jwt.DecodeAssembledToken | tools/JwtDecoder.tsx:27-102 | decoding a built token recovers the pretty forms of the minified header and payload |
| Jwt.JwtDecoder.constructor | tools/JwtDecoder.tsx:8-12 | the sample header and payload, no token, no error |
| Jwt.JwtDecoder.HandleTokenChange | tools/JwtDecoder.tsx:16-36 | token is the typed value; blank: error cleared, panes kept; wrong part count or bad header: error, panes kept; bad payload: header replaced, error; success: all three panes, no error |
| Jwt.JwtDecoder.ShowDecoded | tools/JwtDecoder.tsx:26-34 | the panes written step by step, so a failure after the header leaves a partial update |
| Jwt.JwtDecoder.HandleJsonChange | tools/JwtDecoder.tsx:89-108 | the edited pane is the typed value; the token is re-assembled and the error cleared, or both kept when the JSON or `btoa` fails |
| Jwt.JwtDecoder.Clear | tools/JwtDecoder.tsx:123 | empty token, `{}` panes, empty signature, no error |
| PercentEncoding.EncodeForm | tools/UrlEncoder.tsx:19 | the output is unescaped characters and `%XX` triplets of UTF-8 bytes |
| PercentEncoding.EncodedFormChars | tools/UrlEncoder.tsx:19 | every output unit is unreserved for the mode, `%`, or an upper-case hex digit |
| PercentEncoding.EncodeFailsOnLoneSurrogate | tools/UrlEncoder.tsx:18-23 | encoding succeeds iff the text has no lone surrogate |
| PercentEncoding.DecodeEncode | tools/UrlEncoder.tsx:19-31 | `decodeURIComponent(encodeURIComponent(s)) = s` for well-formed s |
| PercentEncoding.DecodeWithoutPercent | tools/UrlEncoder.tsx:31 | text without `%` decodes to itself |
| PercentEncoding.EncodeWithoutPercent | tools/UrlEncoder.tsx:19 | an encoding with no `%` is the text itself |
| PercentEncoding.PercentOpensTriplet | tools/UrlEncoder.tsx:19 | every `%` in an encoding opens a complete triplet |
| PercentEncoding.DecodeFailureNotBlank | tools/UrlEncoder.tsx:31-38 | a malformed input is never blank, so it always reports an error |
| PercentEncoding.ReservedCharacter | tools/UrlEncoder.tsx:19-45 | uri mode keeps reserved characters such as `/`, `:`, `&`, which component mode escapes |
| PercentEncoding.PairRoundTrip | tools/UrlEncoder.tsx:19-31 | a surrogate pair is one code point and back |
| PercentEncoding.Utf8Decodes | tools/UrlEncoder.tsx:19-31 | the UTF-8 bytes of a code point decode to it |
| PercentEncoding.UrlEncoder.constructor | tools/UrlEncoder.tsx:8-11 | empty panes, component mode, no error |
| PercentEncoding.UrlEncoder.HandleDecodedChange | tools/UrlEncoder.tsx:15-24 | decoded is the typed value; encoded its encoding with no error, or unchanged with "Encoding failed" |
| PercentEncoding.UrlEncoder.HandleEncodedChange | tools/UrlEncoder.tsx:27-40 | encoded is the typed value; decoded its decoding, or unchanged with an error only when the value is not blank |
| PercentEncoding.UrlEncoder.SetMode | tools/UrlEncoder.tsx:43-45 | a new mode re-encodes the current text |
| PercentEncoding.UrlEncoder.Clear | tools/UrlEncoder.tsx:84 | both panes empty, no error |
| NumberBase.WithField | tools/NumberBase.tsx:45-48 | one field replaced, the others kept |
| NumberBase.StripPrefix | tools/NumberBase.tsx:29-36 | a leading prefix is removed, anything else is kept |
| NumberBase.EmptyClears | tools/NumberBase.tsx:19-22 | an empty value clears all four fields |
| NumberBase.FailureKeepsOthers | tools/NumberBase.tsx:45-48 | on a parse failure only the edited field changes, to the raw text |
| NumberBase.BlankDecimalIsZero | tools/NumberBase.tsx:27-30 | a whitespace-only decimal entry renders 0 |
| NumberBase.BlankOtherFails | tools/NumberBase.tsx:27-37 | a whitespace-only hex, binary or octal entry fails |
| NumberBase.PrefixOptional | tools/NumberBase.tsx:27-36 | hex, binary and octal read the same with or without their prefix |
| NumberBase.ReadBack | tools/NumberBase.tsx:27-44 | every displayed field parses back to the rendered integer |
| NumberBase.HexFieldUpper | tools/NumberBase.tsx:41 | the hex field has no lower-case letter |
| NumberBase.Reentry | tools/NumberBase.tsx:18-49 | re-entering any field of a non-negative value reproduces the same four fields |
| NumberBase.NumberBaseTool.constructor | tools/NumberBase.tsx:11-16 | four empty fields |
| NumberBase.NumberBaseTool.Update | tools/NumberBase.tsx:18-49 | the fields become the update of the old fields |
| Timestamps.TsToMs | tools/TimestampTool.tsx:21-23 | above 100000000000 is milliseconds, otherwise seconds times 1000 |
| Timestamps.FieldsMakeDate | tools/TimestampTool.tsx:22-23 | the calendar fields of a time value rebuild it |
| Timestamps.FieldRanges | tools/TimestampTool.tsx:22-23 | day, hour, minute, second and ms are in range |
| Timestamps.YearFromDay | tools/TimestampTool.tsx:22-23 | the year holds the day |
| Timestamps.IsoShape | tools/TimestampTool.tsx:22-23 | `toISOString` is 24 characters (27 for an expanded year) with its separators in place |
| Timestamps.RelativeBuckets | tools/TimestampTool.tsx:108-116 | floor(abs(diff)/1000) seconds, bucketed at 60, 3600 and 86400; "ago" iff diff > 0 |
| Timestamps.PanelTime | tools/TimestampTool.tsx:99-103 | the panel's moment is radix-less `parseInt(inputTs)` seconds: whole seconds, and Invalid Date iff the field does not parse |
| Timestamps.PanelRelative | tools/TimestampTool.tsx:109-115 | NaN iff the field does not parse; otherwise "ago" iff the panel's moment is before now |
| Timestamps.PanelMisreadsMilliseconds | tools/TimestampTool.tsx:99-109 | a value `handleTsChange` takes as milliseconds is multiplied by 1000 again in the panel |
| Timestamps.PanelReadsHexPrefix | tools/TimestampTool.tsx:99-109 | `0x` plus hex digits: radix 10 reads 0, so the date field shows the epoch, while the panel reads the hex value as seconds |
| Timestamps.TimestampTool.constructor | tools/TimestampTool.tsx:5-7 | now in seconds, the timestamp field in seconds and the ISO date, each from its own clock read |
| Timestamps.TimestampTool.Tick | tools/TimestampTool.tsx:10-15 | the clock advances; the fields stay |
| Timestamps.TimestampTool.HandleTsChange | tools/TimestampTool.tsx:17-25 | the field is kept verbatim; the date changes only for a parsed value in range; out of range throws |
| Timestamps.TimestampTool.HandleDateChange | tools/TimestampTool.tsx:27-33 | the date is verbatim; the timestamp is floor(ms/1000) when `Date.parse` succeeds, unchanged otherwise |
| Uuid.GregorianEpoch | tools/UuidGenerator.tsx:34 | 12219292800000 ms is the distance from 1582-10-15 to 1970 |
| Uuid.Tick | tools/UuidGenerator.tsx:21-32 | the last time is always updated |
| Uuid.TickKeepsSequence | tools/UuidGenerator.tsx:16-29 | the clock sequence stays in 0..0x3fff |
| Uuid.TickAdvances | tools/UuidGenerator.tsx:21-37 | a forward clock strictly advances the 100 ns timestamp and keeps the sequence |
| Uuid.TickBackwards | tools/UuidGenerator.tsx:27-31 | a backward clock changes the sequence and increments nsecs |
| Uuid.V1Layout | tools/UuidGenerator.tsx:39-53 | 8-4-4-4-12 lower-case hex, version `1` at index 14, index 19 in 8/9/a/b |
| Uuid.WithMulticast | tools/UuidGenerator.tsx:13-15 | the node id has the multicast bit set and is otherwise the random bytes |
| Uuid.V1Clock.constructor | tools/UuidGenerator.tsx:13-18 | the module clock: multicast node, random sequence, zero times |
| Uuid.V1Clock.Generate | tools/UuidGenerator.tsx:20-54 | one clock step, and the id laid out from the new state |
| Uuid.V1RunLayout | tools/UuidGenerator.tsx:20-54 | every id of a run of v1 calls has the layout, and the sequence stays in range |
| Uuid.V7Layout | tools/UuidGenerator.tsx:57-75 | 8-4-4-4-12, the first 12 hex digits are msecs, version `7`, variant 10 |
| Uuid.V7Order | tools/UuidGenerator.tsx:57-76 | v7 ids order lexicographically by msecs whatever the random bytes, as the "Time-sortable" label promises |
| Uuid.PostProcess | tools/UuidGenerator.tsx:93-96 | no hyphen when stripped, no lower-case letter when upper-cased, the id itself otherwise |
| Uuid.PostAllAt | tools/UuidGenerator.tsx:87-98 | post-processing is applied to each id |
| Uuid.IndependentRunAt | tools/UuidGenerator.tsx:87-98 | v4 and v7 ids are generated independently per slot |
| Uuid.NextId | tools/UuidGenerator.tsx:88-94 | one slot: a v1 clock step or an independent id |
| Uuid.UuidGenerator.constructor | tools/UuidGenerator.tsx:80-84 | version 4, quantity 5, no options, no ids |
| Uuid.UuidGenerator.SetVersion | tools/UuidGenerator.tsx:137 | stores the version and nothing else; `Generate` follows as the effect when the value changes |
| Uuid.UuidGenerator.SetQuantity | tools/UuidGenerator.tsx:155-160 | stores the slider's 1 to 50 and nothing else; `Generate` follows as the effect when the value changes |
| Uuid.UuidGenerator.SetUppercase | tools/UuidGenerator.tsx:174 | stores the checkbox and nothing else; `Generate` follows as the effect when the value changes |
| Uuid.UuidGenerator.SetNoHyphens | tools/UuidGenerator.tsx:183 | stores the checkbox and nothing else; `Generate` follows as the effect when the value changes |
| Uuid.UuidGenerator.Generate | tools/UuidGenerator.tsx:87-103 | exactly quantity ids, each generated then post-processed; the v1 clock stepped once per id; it runs again after every setter that changes a value |
| Colors.HexToRgb | tools/ColorTool.tsx:7-14 | parses iff there are exactly six hex digits after an optional `#`; components in 0..255 |
| Colors.ShorthandRejected | tools/ColorTool.tsx:7-14 | 3-digit shorthand gives null |
| Colors.RgbToHexShape | tools/ColorTool.tsx:16-23 | `#` plus six lower-case hex digits |
| Colors.RgbRoundTrip | tools/ColorTool.tsx:7-23 | `hexToRgb(rgbToHex(r,g,b)) = {r,g,b}` on 0..255 |
| Colors.HexRoundTrip | tools/ColorTool.tsx:7-23 | a parsed hex prints back as its lower-cased digits with `#` |
| Colors.Clamp | tools/ColorTool.tsx:83 | clamped into 0..255, identity inside |
| Colors.TypedComponent | tools/ColorTool.tsx:82-83 | a typed component is always in 0..255 |
| Colors.NonNumericIsZero | tools/ColorTool.tsx:82 | non-numeric input becomes 0 |
| Colors.WithChannel | tools/ColorTool.tsx:83 | only the edited component changes |
| Colors.MixWeight | tools/ColorTool.tsx:44-55 | mixing weights lie in 0..1 |
| Colors.PaletteOfUnreadable | tools/ColorTool.tsx:36-38 | the palette is `{}` iff the input does not parse |
| Colors.PaletteKeys | tools/ColorTool.tsx:43-56 | otherwise 11 shades, whose 500 entry is the input verbatim |
| Colors.PaletteShades | tools/ColorTool.tsx:44-55 | each other shade is a `#`-prefixed 7-character hex colour |
| Colors.ColorTool.constructor | tools/ColorTool.tsx:70-71 | the initial hex and the RGB it denotes |
| Colors.ColorTool.HandleHexChange | tools/ColorTool.tsx:74-79 | the typed text is always stored; rgb is updated only when it parses |
| Colors.ColorTool.HandleRgbChange | tools/ColorTool.tsx:81-86 | the edited component clamped, the others unchanged, hex is `rgbToHex` of the new triple |
| Colors.InitialAgrees | tools/ColorTool.tsx:70-71 | the initial hex and RGB agree |
| SqlFormatter.CompressShape | tools/SqlFormatter.tsx:38 | the minified text has no whitespace at either end and single spaces only, and keeps the non-whitespace units |
| SqlFormatter.CompressIdempotent | tools/SqlFormatter.tsx:38 | minifying twice is minifying once |
| SqlFormatter.KeywordMatch | tools/SqlFormatter.tsx:22-25 | a keyword between whitespace matches in any case and keeps its spelling |
| SqlFormatter.KeywordPassUnchanged | tools/SqlFormatter.tsx:22-25 | a keyword that does not occur between whitespace changes nothing |
| SqlFormatter.KeywordPassesKeepFirst | tools/SqlFormatter.tsx:8-25 | a keyword at the very start gets no line break |
| SqlFormatter.JoinPassSplitsLeftJoin | tools/SqlFormatter.tsx:16-25 | the later `JOIN` pass splits a `LEFT JOIN` over two lines |
| SqlFormatter.SepKeepsSolid | tools/SqlFormatter.tsx:28-32 | the comma and parenthesis passes only move whitespace |
| SqlFormatter.FormatKeepsSolid | tools/SqlFormatter.tsx:8-32 | formatting keeps the non-whitespace units, in order |
| SqlFormatter.FormatKeepsFirst | tools/SqlFormatter.tsx:8-32 | a statement begins as its trimmed input does |
| JsStrings.CollapseSingleSpaced | tools/SqlFormatter.tsx:13 | after `replace(/\s+/g, ' ')` every whitespace run is one space |
| JsStrings.CollapseKeepsSolid | tools/SqlFormatter.tsx:13 | collapsing keeps the non-whitespace units |
| SqlFormatter.SqlFormatter.constructor | tools/SqlFormatter.tsx:5 | empty editor |
| SqlFormatter.SqlFormatter.SetInput | tools/SqlFormatter.tsx:83 | the editor holds the typed value |
| SqlFormatter.SqlFormatter.FormatSql | tools/SqlFormatter.tsx:7-35 | blank input is left untouched; otherwise the formatted text |
| SqlFormatter.SqlFormatter.CompressSql | tools/SqlFormatter.tsx:37-39 | the minified text |
| SqlFormatter.SqlFormatter.Clear | tools/SqlFormatter.tsx:71 | empty editor |
| TextInspector.StatsFacts | tools/TextInspector.tsx:9-17 | charsNoSpaces ≤ chars ≤ bytes ≤ 3·chars; words 0 iff blank and otherwise the whitespace-separated runs; lines 0 iff empty and otherwise 1 plus breaks with `\r\n` once |
| TextInspector.WordsAreRuns | tools/TextInspector.tsx:13 | `trim().split(/\s+/).length` counts the runs of non-whitespace |
| TextInspector.SplitLines | tools/TextInspector.tsx:14 | the line pieces contain no break |
| TextInspector.LinesCountBreaks | tools/TextInspector.tsx:14 | the pieces number 1 plus the breaks, with `\r\n` once |
| TextInspector.BytesBounds | tools/TextInspector.tsx:15 | UTF-8 length is between chars and 3·chars, equal to chars iff ASCII |
| TextInspector.MatchLength | tools/TextInspector.tsx:43 | a token match starts exactly at a letter or digit and spans letters and digits |
| TextInspector.Tokens | tools/TextInspector.tsx:43 | every token is non-empty ASCII letters and digits |
| TextInspector.TokensCoverAlnum | tools/TextInspector.tsx:43 | the tokens together are all letters and digits of the text, in order |
| TextInspector.TokensEmptyIff | tools/TextInspector.tsx:43-51 | there is no match iff the text has no ASCII letter or digit |
| TextInspector.JoinTokensShape | tools/TextInspector.tsx:41-52 | no match leaves the text; otherwise lower-case letters, digits and the separator, splitting back into the lowered tokens |
| TextInspector.TransformsTwice | tools/TextInspector.tsx:22-54 | upper and lower are idempotent; reverse twice restores the text |
| JsStrings.ReverseInvolution | tools/TextInspector.tsx:54 | reversing code units twice is the identity |
| TextInspector.TextInspector.constructor | tools/TextInspector.tsx:6 | empty text |
| TextInspector.TextInspector.SetText | tools/TextInspector.tsx:6 | the text is the typed value |
| TextInspector.TextInspector.ApplyTransform | tools/TextInspector.tsx:19-58 | the text becomes its transform |
| RandomString.Charset | tools/RandomStringGenerator.tsx:18-27 | empty iff no group is enabled |
| RandomString.CharsetMembers | tools/RandomStringGenerator.tsx:18-27 | a character is in the charset iff it is in an enabled group |
| RandomString.Picks | tools/RandomStringGenerator.tsx:34-41 | exactly one character per random value, character i is the charset entry at the i-th random value modulo the charset length |
| RandomString.PicksFromEnabledGroups | tools/RandomStringGenerator.tsx:23-39 | every result character belongs to an enabled group |
| RandomString.TypedLength | tools/RandomStringGenerator.tsx:66-69 | at most 512, non-numeric input becomes 0 |
| RandomString.TypedLengthOfNumber | tools/RandomStringGenerator.tsx:66-69 | a typed decimal length is taken as it is, capped at 512 |
| RandomString.AssembleCharset | tools/RandomStringGenerator.tsx:23-27 | the `+=` chain builds the charset |
| RandomString.PickAll | tools/RandomStringGenerator.tsx:34-40 | the loop builds the picks |
| RandomString.RandomStringGenerator.constructor | tools/RandomStringGenerator.tsx:8-13 | length 16, all groups, empty result |
| RandomString.RandomStringGenerator.SetTypedLength | tools/RandomStringGenerator.tsx:66-70 | stores the clamped typed length; `Generate` follows as the effect when the value changes |
| RandomString.RandomStringGenerator.SetSliderLength | tools/RandomStringGenerator.tsx:79 | stores the slider's value; `Generate` follows as the effect when the value changes |
| RandomString.RandomStringGenerator.SetGroups | tools/RandomStringGenerator.tsx:93-120 | stores the checkbox values; `Generate` follows as the effect when the value changes |
| RandomString.RandomStringGenerator.Generate | tools/RandomStringGenerator.tsx:17-46 | runs again after every setter that changes a value; no group: empty result; negative length: unchanged (the typed array throws); otherwise the picks |
| CodeEditor.Escape | components/CodeEditor.tsx:37 | text without `&`, `<` or `>` passes through unchanged |
| CodeEditor.EscapeIsEach | components/CodeEditor.tsx:37 | the chained replaces are escaping unit by unit |
| CodeEditor.EscapeHasNoTags | components/CodeEditor.tsx:33-38 | the fallback contains no `<` or `>` |
| CodeEditor.EscapeLength | components/CodeEditor.tsx:37 | length is n + 4·#`&` + 3·#`<` + 3·#`>` |
| CodeEditor.UnescapeEscape | components/CodeEditor.tsx:37 | unescaping `&lt;`, `&gt;`, `&amp;` recovers the input |
| CodeEditor.LineBreakTagIff | components/CodeEditor.tsx:75 | without a grammar the layer ends with `<br>` iff the value ends with a line break |
| JsNumbers.NatToString | tools/NumberBase.tsx:39-44 | `toString(radix)`: lower-case digits, no leading zero |
| JsNumbers.NatToStringRoundTrip | tools/NumberBase.tsx:39-44 | the digits read back as the number |
| JsNumbers.ParseIntDigits | tools/ColorTool.tsx:10-12 | `parseInt` of a digit string is its value |
| JsNumbers.ParseIntNoDigit | tools/TimestampTool.tsx:18-20 | `parseInt` of text not starting with a digit or sign is NaN |
| JsStrings.TrimEmptyIffBlank | tools/QuickPreview.tsx:23-27 | trimming gives the empty string iff the text is all whitespace |
| JsStrings.JoinSplit | tools/JwtDecoder.tsx:22 | joining the pieces of a split gives the text back |

## Left out

- Rendering is left out: JSX, icons, the card markup, QR code drawing, Prism highlighting and
  scroll synchronisation are UI. Each card's content is a datatype.
- `JSON.parse`/`JSON.stringify`, `sql-formatter`'s `format` and the CryptoJS MD5/SHA-256
  digests are host or library code, so they are parameters. What the model proves holds for
  any such functions.
- `Date.now()`, the one-second interval, `Date.parse`, `crypto.getRandomValues`, `Math.random`
  and `crypto.randomUUID` are inputs.
- The JsonFormatter, DiffViewer, HashGenerator, QrCodeGenerator and FullscreenColor tools are
  wrappers around libraries, async crypto or DOM APIs. The navigation components and the hooks
  are not part of this model.
- The JWT decoder's `useEffect` (tools/JwtDecoder.tsx:40-87) computes a token and never stores
  it, so it has no observable effect and is not modelled.
- Floating point is left out. Numbers are exact integers, so the number card's double rounding
  above 2^53 and its `Infinity` for huge digit strings are not modelled.
- Colors.Palette: `mixColors`' weighted rounding is a parameter. Only the palette's keys, its
  500 entry and the shape of the other entries are proved.
- `toLocaleString`, `toString` and `toUTCString` of dates depend on the locale and time zone.
  They are not modelled; only `toISOString` and the relative wording are.
- `toUpperCase`/`toLowerCase` are modelled on ASCII letters only. Non-ASCII case mapping is
  left out.
- TextInspector.Transformed: the title-case and camel-case transforms (tools/TextInspector.tsx:28-40)
  are not modelled. Snake and kebab case are modelled with the tokenizer; `\b` is read as an
  ASCII word boundary.
- QuickPreview.Preview.Refresh: `Array.prototype.sort` works in place. The model sorts a
  sequence with a stable insertion sort and proves it is stable and a permutation. The
  in-place update and the comparator calls are not modelled.
- QuickPreview.Base64CardOfBtoa: only printable text is characterised. Other decodable inputs
  are covered by the detector's definition, not by a lemma.
- Timestamps.TimestampTool.HandleTsChange: `parseInt` is exact. Values that a double would round
  are not modelled, and the uncaught RangeError is the `thrown` result.
