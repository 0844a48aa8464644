/** The protocol-version vocabulary (`HttpVersion`): five well-known versions
    and an `Unknown` variant that keeps any other spelling verbatim. */
module HttpVersions {
  import opened Wrappers
  import C = Constants

  datatype HttpVersion = HTTP0_9 | HTTP1_0 | HTTP1_1 | HTTP2 | HTTP3 | Unknown(text: string)
  {
    predicate IsHttp0_9() { HTTP0_9? }
    predicate IsHttp1_0() { HTTP1_0? }
    predicate IsHttp1_1() { HTTP1_1? }
    predicate IsHttp2() { HTTP2? }
    predicate IsHttp3() { HTTP3? }
    predicate IsUnknown() { Unknown? }
  }

  /** The wire spellings of the five named versions. */
  const KNOWN_NAMES: set<string> :=
    {C.HTTP_VERSION_0_9, C.HTTP_VERSION_1_0, C.HTTP_VERSION_1_1, C.HTTP_VERSION_2, C.HTTP_VERSION_3}

  /** `HttpVersion::default()`: an unknown version with empty text. */
  function Default(): (v: HttpVersion)
    ensures v.IsUnknown() && ToString(v) == ""
  {
    Unknown("")
  }

  /** `Display for HttpVersion` */
  function ToString(v: HttpVersion): string {
    match v
    case HTTP0_9 => C.HTTP_VERSION_0_9
    case HTTP1_0 => C.HTTP_VERSION_1_0
    case HTTP1_1 => C.HTTP_VERSION_1_1
    case HTTP2 => C.HTTP_VERSION_2
    case HTTP3 => C.HTTP_VERSION_3
    case Unknown(text) => text
  }

  /** `FromStr for HttpVersion`: never fails, and printing the result gives
      back exactly the parsed text; only an unrecognised spelling becomes `Unknown`. */
  function FromStr(s: string): (r: Result<HttpVersion, string>)
    ensures r.Ok? && ToString(r.value) == s
    ensures r.value.IsUnknown() <==> s !in KNOWN_NAMES
  {
    if s == C.HTTP_VERSION_0_9 then Ok(HTTP0_9)
    else if s == C.HTTP_VERSION_1_0 then Ok(HTTP1_0)
    else if s == C.HTTP_VERSION_1_1 then Ok(HTTP1_1)
    else if s == C.HTTP_VERSION_2 then Ok(HTTP2)
    else if s == C.HTTP_VERSION_3 then Ok(HTTP3)
    else Ok(Unknown(s))
  }

  /** Every named version survives printing and parsing. */
  lemma FromStrToStringNamed(v: HttpVersion)
    requires !v.IsUnknown()
    ensures FromStr(ToString(v)) == Ok(v)
  {
  }

  /** An unknown version survives printing and parsing exactly when its text
      is not the spelling of a named version. */
  lemma FromStrToStringUnknown(text: string)
    ensures FromStr(ToString(Unknown(text))) == Ok(Unknown(text)) <==> text !in KNOWN_NAMES
  {
  }

  function Indicator(b: bool): nat {
    if b then 1 else 0
  }

  /** Exactly one of the `is_*` predicates holds of any version. */
  lemma ExactlyOnePredicate(v: HttpVersion)
    ensures Indicator(v.IsHttp0_9()) + Indicator(v.IsHttp1_0()) + Indicator(v.IsHttp1_1())
          + Indicator(v.IsHttp2()) + Indicator(v.IsHttp3()) + Indicator(v.IsUnknown()) == 1
  {
  }
}
