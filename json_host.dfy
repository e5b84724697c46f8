/** `JSON.parse` and `JSON.stringify` are host primitives; the model takes the two
    combinations the tools use as functions of the text. */
module JsonHost {
  import opened JsStrings

  /** `pretty(s)` is `JSON.stringify(JSON.parse(s), null, 2)` and `minified(s)` is
      `JSON.stringify(JSON.parse(s))`; each is None exactly when `JSON.parse(s)` throws. */
  datatype Json = Json(pretty: JsString -> Option<JsString>, minified: JsString -> Option<JsString>)
}
