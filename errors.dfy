/** The error type of the request decoder (`request::error::Error`) and its
    `Display` text. */
module RequestErrors {

  datatype Error = HttpReadError(detail: string) | InvalidHttpRequest(detail: string) | Unknown

  const READ_ERROR_PREFIX: string := "Http read error: "
  const INVALID_REQUEST_PREFIX: string := "Invalid http request: "

  /** `Display for Error` */
  function ToString(e: Error): (s: string)
    ensures e.HttpReadError? ==> |s| >= |READ_ERROR_PREFIX| && s[..|READ_ERROR_PREFIX|] == READ_ERROR_PREFIX
    ensures e.InvalidHttpRequest? ==> |s| >= |INVALID_REQUEST_PREFIX| && s[..|INVALID_REQUEST_PREFIX|] == INVALID_REQUEST_PREFIX
    ensures !e.Unknown? ==> |s| >= |e.detail| && s[|s| - |e.detail|..] == e.detail
    ensures e.HttpReadError? ==> |s| == |READ_ERROR_PREFIX| + |e.detail|
    ensures e.InvalidHttpRequest? ==> |s| == |INVALID_REQUEST_PREFIX| + |e.detail|
    ensures e.Unknown? ==> s == "Unknown"
  {
    match e
    case HttpReadError(d) => READ_ERROR_PREFIX + d
    case InvalidHttpRequest(d) => INVALID_REQUEST_PREFIX + d
    case Unknown => "Unknown"
  }

  /** No two errors display the same text: the leading word tells the
      variant apart and the rest is the payload. */
  lemma ToStringInjective(e1: Error, e2: Error)
    requires ToString(e1) == ToString(e2)
    ensures e1 == e2
  {
    var s := ToString(e1);
    assert s[0] == ToString(e2)[0];
    if !e1.Unknown? && !e2.Unknown? {
      assert e1.detail == s[|s| - |e1.detail|..];
    }
  }
}

/** The error type of the response side (`response::error::Error`) and its
    `Display` text. */
module ResponseErrors {

  datatype Error = ResponseError(detail: string) | Unknown

  const RESPONSE_ERROR_PREFIX: string := "Response Error: "

  /** `Display for Error` */
  function ToString(e: Error): (s: string)
    ensures e.ResponseError? ==> |s| >= |RESPONSE_ERROR_PREFIX| && s[..|RESPONSE_ERROR_PREFIX|] == RESPONSE_ERROR_PREFIX
    ensures e.ResponseError? ==> |s| >= |e.detail| && s[|s| - |e.detail|..] == e.detail
    ensures e.ResponseError? ==> |s| == |RESPONSE_ERROR_PREFIX| + |e.detail|
    ensures e.Unknown? ==> s == "Unknown"
  {
    match e
    case ResponseError(d) => RESPONSE_ERROR_PREFIX + d
    case Unknown => "Unknown"
  }

  /** No two errors display the same text; in particular no `ResponseError`
      displays as `Unknown`. */
  lemma ToStringInjective(e1: Error, e2: Error)
    requires ToString(e1) == ToString(e2)
    ensures e1 == e2
  {
    var s := ToString(e1);
    assert s[0] == ToString(e2)[0];
    if e1.ResponseError? && e2.ResponseError? {
      assert e1.detail == s[|s| - |e1.detail|..];
    }
  }
}
