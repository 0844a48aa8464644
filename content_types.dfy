/** The body media types (`ContentType`): a case-insensitive parse with an
    `Unknown` fallback, the body formatter that dispatches on the type, and
    the two `content-type; charset` string builders. */
module ContentTypes {
  import opened Wrappers
  import opened Bytes
  import opened Text
  import C = Constants
  import Utf8
  import Hex

  datatype ContentType = ApplicationJson | ApplicationXml | TextPlain | TextHtml | FormUrlEncoded | Unknown

  /** `ContentType::default()` */
  function Default(): (ct: ContentType)
    ensures FromStr("") == Ok(ct)
  {
    Unknown
  }

  /** `FromStr for ContentType`: never fails; compares the ASCII-lowercased
      text with the five known media types, anything else is `Unknown`. */
  function FromStr(s: string): (r: Result<ContentType, ()>)
    ensures r.Ok?
    ensures r.value == ApplicationJson <==> AsciiLower(s) == C.APPLICATION_JSON
    ensures r.value == ApplicationXml <==> AsciiLower(s) == C.APPLICATION_XML
    ensures r.value == TextPlain <==> AsciiLower(s) == C.TEXT_PLAIN
    ensures r.value == TextHtml <==> AsciiLower(s) == C.TEXT_HTML
    ensures r.value == FormUrlEncoded <==> AsciiLower(s) == C.FORM_URLENCODED
  {
    var lower := AsciiLower(s);
    if lower == C.APPLICATION_JSON then Ok(ApplicationJson)
    else if lower == C.APPLICATION_XML then Ok(ApplicationXml)
    else if lower == C.TEXT_PLAIN then Ok(TextPlain)
    else if lower == C.TEXT_HTML then Ok(TextHtml)
    else if lower == C.FORM_URLENCODED then Ok(FormUrlEncoded)
    else Ok(Unknown)
  }

  /** Parsing ignores ASCII case: two spellings that differ only in the case of
      ASCII letters parse to the same type. */
  lemma FromStrIgnoresCase(a: string, b: string)
    requires EqIgnoreAsciiCase(a, b)
    ensures FromStr(a) == FromStr(b)
  {
    EqIgnoreAsciiCaseIsLowerEq(a, b);
  }

  /** The five media types, spelled as the constants, parse to their variants. */
  lemma FromStrKnown()
    ensures FromStr(C.APPLICATION_JSON) == Ok(ApplicationJson)
    ensures FromStr(C.APPLICATION_XML) == Ok(ApplicationXml)
    ensures FromStr(C.TEXT_PLAIN) == Ok(TextPlain)
    ensures FromStr(C.TEXT_HTML) == Ok(TextHtml)
    ensures FromStr(C.FORM_URLENCODED) == Ok(FormUrlEncoded)
  {
    LowerCaseApplicationJson();
    LowerCaseApplicationXml();
    LowerCaseTextPlain();
    LowerCaseTextHtml();
    LowerCaseFormUrlEncoded();
  }

  // The five spellings are already lower case, one literal at a time.
  lemma LowerCaseApplicationJson()
    ensures AsciiLower(C.APPLICATION_JSON) == C.APPLICATION_JSON
  {
    AsciiLowerOfLower(C.APPLICATION_JSON);
  }

  lemma LowerCaseApplicationXml()
    ensures AsciiLower(C.APPLICATION_XML) == C.APPLICATION_XML
  {
    AsciiLowerOfLower(C.APPLICATION_XML);
  }

  lemma LowerCaseTextPlain()
    ensures AsciiLower(C.TEXT_PLAIN) == C.TEXT_PLAIN
  {
    AsciiLowerOfLower(C.TEXT_PLAIN);
  }

  lemma LowerCaseTextHtml()
    ensures AsciiLower(C.TEXT_HTML) == C.TEXT_HTML
  {
    AsciiLowerOfLower(C.TEXT_HTML);
  }

  lemma LowerCaseFormUrlEncoded()
    ensures AsciiLower(C.FORM_URLENCODED) == C.FORM_URLENCODED
  {
    AsciiLowerOfLower(C.FORM_URLENCODED);
  }

  /** The foreign capabilities the formatter calls on a value of type `T`:
      the JSON, XML and url-encoded serialisers (each of which may fail) and
      the value's `Display` and `Debug` text. */
  datatype Formatters<-T> = Formatters(
    json: T -> Option<string>,
    xml: T -> Option<string>,
    urlEncoded: T -> Option<string>,
    display: T -> string,
    debug: T -> string)

  const JSON_FALLBACK: string := "{}"
  const XML_FALLBACK: string := "<root></root>"
  const HTML_OPEN: string := "<table><tr><td>"
  const HTML_CLOSE: string := "</td></tr></table>"

  /** `get_application_json`: the JSON text, or `{}` when serialisation fails. */
  function GetApplicationJson<T>(data: T, f: Formatters<T>): (r: string)
    ensures f.json(data).Some? ==> r == f.json(data).value
    ensures f.json(data).None? ==> r == JSON_FALLBACK
  {
    f.json(data).GetOr(JSON_FALLBACK)
  }

  /** `get_application_xml`: the XML text, or `<root></root>` when serialisation fails. */
  function GetApplicationXml<T>(data: T, f: Formatters<T>): (r: string)
    ensures f.xml(data).Some? ==> r == f.xml(data).value
    ensures f.xml(data).None? ==> r == XML_FALLBACK
  {
    f.xml(data).GetOr(XML_FALLBACK)
  }

  /** `get_form_url_encoded`: the url-encoded text, or `""` when serialisation fails. */
  function GetFormUrlEncoded<T>(data: T, f: Formatters<T>): (r: string)
    ensures f.urlEncoded(data).Some? ==> r == f.urlEncoded(data).value
    ensures f.urlEncoded(data).None? ==> r == ""
  {
    f.urlEncoded(data).GetOr("")
  }

  /** `get_binary`: the lower-case hex text of the UTF-8 bytes of the value's
      `Display` text; it decodes back to those bytes and is twice as long. */
  function GetBinary<T>(data: T, f: Formatters<T>): (r: string)
    ensures |r| == 2 * |Utf8.Encode(f.display(data))|
    ensures Hex.Decode(r) == Some(Utf8.Encode(f.display(data)))
  {
    var bytes := Utf8.Encode(f.display(data));
    Hex.DecodeEncode(bytes);
    Hex.Encode(bytes)
  }

  /** `get_text_html`: the value's `Debug` text in a one-cell table. */
  method GetTextHtml<T>(data: T, f: Formatters<T>) returns (html: string)
    ensures html == HTML_OPEN + f.debug(data) + HTML_CLOSE
    ensures html[|HTML_OPEN|..|html| - |HTML_CLOSE|] == f.debug(data)
  {
    html := "";
    html := html + HTML_OPEN;
    html := html + f.debug(data);
    html := html + HTML_CLOSE;
  }

  /** `get_body_string`: formats `data` for the media type. It always yields a
      string: each serialisation failure falls back to its default text. */
  method GetBodyString<T>(ct: ContentType, data: T, f: Formatters<T>) returns (body: string)
    ensures ct == ApplicationJson ==>
      body == (if f.json(data).Some? then f.json(data).value else JSON_FALLBACK)
    ensures ct == ApplicationXml ==>
      body == (if f.xml(data).Some? then f.xml(data).value else XML_FALLBACK)
    ensures ct == TextPlain ==> body == f.display(data)
    ensures ct == TextHtml ==> body == HTML_OPEN + f.debug(data) + HTML_CLOSE
    ensures ct == FormUrlEncoded ==>
      body == (if f.urlEncoded(data).Some? then f.urlEncoded(data).value else "")
    ensures ct == Unknown ==>
      |body| == 2 * |Utf8.Encode(f.display(data))| && Hex.Decode(body) == Some(Utf8.Encode(f.display(data)))
  {
    match ct
    case ApplicationJson => body := GetApplicationJson(data, f);
    case ApplicationXml => body := GetApplicationXml(data, f);
    case TextPlain => body := f.display(data);
    case TextHtml => body := GetTextHtml(data, f);
    case FormUrlEncoded => body := GetFormUrlEncoded(data, f);
    case Unknown => body := GetBinary(data, f);
  }

  /** `format_content_type_with_charset`: `"<type>; charset=<charset>"`. */
  method FormatContentTypeWithCharset(contentType: string, charset: string) returns (r: string)
    ensures r == contentType + C.SEMICOLON_SPACE + C.CHARSET_EQUAL + charset
    ensures |r| == |contentType| + |C.SEMICOLON_SPACE| + |C.CHARSET_EQUAL| + |charset|
  {
    r := "";
    r := r + contentType;
    r := r + C.SEMICOLON_SPACE;
    r := r + C.CHARSET_EQUAL;
    r := r + charset;
  }

  /** `format_content_type_with_charset_declaration`: `"<type>; <declaration>"`;
      with the declaration `charset=<charset>` it is the same text as
      `FormatContentTypeWithCharset`. */
  method FormatContentTypeWithCharsetDeclaration(contentType: string, declaration: string)
    returns (r: string)
    ensures r == contentType + C.SEMICOLON_SPACE + declaration
    ensures |r| == |contentType| + |C.SEMICOLON_SPACE| + |declaration|
    ensures forall charset :: declaration == C.CHARSET_EQUAL + charset ==>
      r == contentType + C.SEMICOLON_SPACE + C.CHARSET_EQUAL + charset
  {
    r := "";
    r := r + contentType;
    r := r + C.SEMICOLON_SPACE;
    r := r + declaration;
  }
}
