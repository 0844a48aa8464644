/** The request-method vocabulary (`Methods`): nine well-known methods and an
    `UNKNOWN` variant that keeps any other spelling verbatim. */
module HttpMethods {
  import opened Wrappers
  import C = Constants

  datatype Methods = GET | POST | PUT | DELETE | PATCH | HEAD | OPTIONS | CONNECT | TRACE
                   | UNKNOWN(text: string)
  {
    predicate IsGet() { GET? }
    predicate IsPost() { POST? }
    predicate IsPut() { PUT? }
    predicate IsDelete() { DELETE? }
    predicate IsPatch() { PATCH? }
    predicate IsHead() { HEAD? }
    predicate IsOptions() { OPTIONS? }
    predicate IsConnect() { CONNECT? }
    predicate IsTrace() { TRACE? }
    predicate IsUnknown() { UNKNOWN? }
  }

  /** The wire spellings of the nine named methods. */
  const KNOWN_NAMES: set<string> :=
    {C.GET, C.POST, C.PUT, C.DELETE, C.PATCH, C.HEAD, C.OPTIONS, C.CONNECT, C.TRACE}

  /** `Methods::default()` and `Methods::new()`: an unknown method with empty
      text (not `GET`). */
  function Default(): (m: Methods)
    ensures m.IsUnknown() && ToString(m) == ""
  {
    UNKNOWN("")
  }

  /** `Display for Methods` */
  function ToString(m: Methods): string {
    match m
    case GET => C.GET
    case POST => C.POST
    case CONNECT => C.CONNECT
    case DELETE => C.DELETE
    case HEAD => C.HEAD
    case PATCH => C.PATCH
    case TRACE => C.TRACE
    case PUT => C.PUT
    case OPTIONS => C.OPTIONS
    case UNKNOWN(text) => text
  }

  /** `FromStr for Methods`: never fails, and printing the result gives back
      exactly the parsed text; only an unrecognised spelling becomes `UNKNOWN`. */
  function FromStr(s: string): (r: Result<Methods, ()>)
    ensures r.Ok? && ToString(r.value) == s
    ensures r.value.IsUnknown() <==> s !in KNOWN_NAMES
  {
    if s == C.GET then Ok(GET)
    else if s == C.POST then Ok(POST)
    else if s == C.PUT then Ok(PUT)
    else if s == C.DELETE then Ok(DELETE)
    else if s == C.PATCH then Ok(PATCH)
    else if s == C.HEAD then Ok(HEAD)
    else if s == C.OPTIONS then Ok(OPTIONS)
    else if s == C.CONNECT then Ok(CONNECT)
    else if s == C.TRACE then Ok(TRACE)
    else Ok(UNKNOWN(s))
  }

  /** Every named method survives printing and parsing. */
  lemma FromStrToStringNamed(m: Methods)
    requires !m.IsUnknown()
    ensures FromStr(ToString(m)) == Ok(m)
  {
  }

  /** An unknown method survives printing and parsing exactly when its text is
      not the spelling of a named method (`UNKNOWN("GET")` comes back as `GET`). */
  lemma FromStrToStringUnknown(text: string)
    ensures FromStr(ToString(UNKNOWN(text))) == Ok(UNKNOWN(text)) <==> text !in KNOWN_NAMES
  {
  }

  function Indicator(b: bool): nat {
    if b then 1 else 0
  }

  /** Exactly one of the `is_*` predicates holds of any method. */
  lemma ExactlyOnePredicate(m: Methods)
    ensures Indicator(m.IsGet()) + Indicator(m.IsPost()) + Indicator(m.IsPut())
          + Indicator(m.IsDelete()) + Indicator(m.IsPatch()) + Indicator(m.IsHead())
          + Indicator(m.IsOptions()) + Indicator(m.IsConnect()) + Indicator(m.IsTrace())
          + Indicator(m.IsUnknown()) == 1
  {
  }
}
