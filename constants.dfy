/** The string constants the core takes from the `http_constant` crate. That
    crate is not part of this model; the values below are the conventional
    spellings. The proofs see these values; the facts about them they lean on
    are that the header names and the media types are lower case, that the
    names within each group are pairwise distinct, and that the separators
    hold no line feed. The crate's `COLON_SPACE_SYMBOL`, which the request
    parser splits header lines on, has the same value as `COLON_SPACE` and is
    modelled by it. */
module Constants {

  // Request methods
  const GET: string := "GET"
  const POST: string := "POST"
  const PUT: string := "PUT"
  const DELETE: string := "DELETE"
  const PATCH: string := "PATCH"
  const HEAD: string := "HEAD"
  const OPTIONS: string := "OPTIONS"
  const CONNECT: string := "CONNECT"
  const TRACE: string := "TRACE"

  // Protocol versions
  const HTTP_VERSION_0_9: string := "HTTP/0.9"
  const HTTP_VERSION_1_0: string := "HTTP/1.0"
  const HTTP_VERSION_1_1: string := "HTTP/1.1"
  const HTTP_VERSION_2: string := "HTTP/2"
  const HTTP_VERSION_3: string := "HTTP/3"

  // Header names, all lower case
  const HOST: string := "host"
  const CONTENT_LENGTH: string := "content-length"
  const CONTENT_ENCODING: string := "content-encoding"
  const CONTENT_TYPE: string := "content-type"
  const CONNECTION: string := "connection"

  // Header values and media types
  const KEEP_ALIVE: string := "keep-alive"
  const APPLICATION_JSON: string := "application/json"
  const APPLICATION_XML: string := "application/xml"
  const TEXT_PLAIN: string := "text/plain"
  const TEXT_HTML: string := "text/html"
  const FORM_URLENCODED: string := "application/x-www-form-urlencoded"
  const TEXT_EVENT_STREAM: string := "text/event-stream"
  const CHARSET_EQUAL: string := "charset="
  const CHARSET_UTF_8: string := "charset=utf-8"

  // Punctuation of the wire format
  const SPACE: string := " "
  const COLON_SPACE: string := ": "
  const SEMICOLON_SPACE: string := "; "
  const HTTP_BR: string := "\r\n"
  const HASH_SYMBOL: char := '#'
  const QUERY_SYMBOL: char := '?'
  const EMPTY_STR: string := ""
}
