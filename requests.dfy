/** The request decoder (`Request::new`): one request line, a header block
    ended by an empty line, and a body whose size comes from `Content-Length`.
    The TCP stream behind the buffered reader is a byte sequence read through
    a cursor. */
module Requests {
  import opened Wrappers
  import opened Bytes
  import opened Text
  import opened Decimal
  import C = Constants
  import Utf8
  import opened RequestErrors

  /** The text of the I/O error `read_line` reports for bytes that are not UTF-8. */
  const INVALID_UTF8_DETAIL: string := "stream did not contain valid UTF-8"
  /** The text of the I/O error `read_exact` reports when the stream ends early. */
  const SHORT_READ_DETAIL: string := "failed to fill whole buffer"

  /** A decoded request. The method is kept as the raw first token, the
      version token is required but not stored. */
  datatype Request = Request(
    httpMethod: string,
    host: string,
    path: string,
    query: string,
    hash: string,
    headers: map<string, string>,
    body: seq<byte>)

  // ---------------------------------------------------------------------------
  // Reading lines from the stream

  /** The index just past the line that starts at `pos`: past the first LF at
      or after `pos`, or the end of the stream when there is none. */
  function LineEnd(stream: seq<byte>, pos: nat): (e: nat)
    requires pos <= |stream|
    ensures pos <= e <= |stream|
    ensures e == pos <==> pos == |stream|
    ensures forall i :: pos <= i < e - 1 ==> stream[i] != LF
    ensures e < |stream| || (e > pos && stream[e - 1] == LF) || LF !in stream[pos..]
    ensures e > pos && stream[e - 1] != LF ==> e == |stream|
    decreases |stream| - pos
  {
    if pos == |stream| then pos
    else if stream[pos] == LF then pos + 1
    else LineEnd(stream, pos + 1)
  }

  /** `BufRead::read_line`: the next line including its LF (or the rest of the
      stream; empty at the end), decoded as UTF-8, and the cursor after it. */
  function ReadLine(stream: seq<byte>, pos: nat): (r: Result<(string, nat), Error>)
    requires pos <= |stream|
    ensures r.Err? ==> r.error == HttpReadError(INVALID_UTF8_DETAIL)
    ensures r.Ok? ==> pos <= r.value.1 <= |stream|
    ensures r.Ok? ==> (r.value.0 == [] <==> r.value.1 == pos)
    ensures r.Ok? ==>
      r.value.1 == LineEnd(stream, pos) && Utf8.Encode(r.value.0) == stream[pos..r.value.1]
    ensures r.Err? <==> Utf8.Decode(stream[pos..LineEnd(stream, pos)]).None?
  {
    var e := LineEnd(stream, pos);
    match Utf8.Decode(stream[pos..e])
    case None => Err(HttpReadError(INVALID_UTF8_DETAIL))
    case Some(line) => Ok((line, e))
  }

  // ---------------------------------------------------------------------------
  // The request target

  datatype Target = Target(path: string, query: string, hash: string)

  /** `split(HASH_SYMBOL).next()`: the text before the first `#`, or all of it. */
  function FirstSegment(s: string, sep: char): (r: string)
    ensures sep !in r
    ensures r == s || (|r| < |s| && s == r + [sep] + s[|r| + 1..])
  {
    match IndexOf(s, sep)
    case None => s
    case Some(j) =>
      assert s == s[..j] + [sep] + s[j + 1..];
      s[..j]
  }

  /** The split of the request target into path, query and fragment. The path
      ends at the first `?` when there is one and otherwise at the first `#`;
      the query is cut at a `#` only when that `#` comes after the `?`; the
      fragment is everything after the first `#`. */
  function SplitTarget(full: string): Target {
    var hashIndex := IndexOf(full, C.HASH_SYMBOL);
    var queryIndex := IndexOf(full, C.QUERY_SYMBOL);
    var hash := match hashIndex
      case None => C.EMPTY_STR
      case Some(i) => full[i + 1..];
    var query := match queryIndex
      case None => C.EMPTY_STR
      case Some(i) =>
        var temp := full[i + 1..];
        if hashIndex.None? || hashIndex.value <= i then temp
        else FirstSegment(temp, C.HASH_SYMBOL);
    var path := match (if queryIndex.Some? then queryIndex else hashIndex)
      case Some(i) => full[..i]
      case None => full;
    Target(path, query, hash)
  }

  /** A target without `?` or `#` is all path. */
  lemma SplitTargetPlain(full: string)
    requires '?' !in full && '#' !in full
    ensures SplitTarget(full) == Target(full, "", "")
  {
  }

  /** Without a `?`, the path ends at the first `#` and the fragment is the rest. */
  lemma SplitTargetFragmentOnly(full: string)
    requires '?' !in full && '#' in full
    ensures var t := SplitTarget(full);
      full == t.path + "#" + t.hash && '#' !in t.path && t.query == ""
  {
    HashWithoutQuery(full, IndexOf(full, C.QUERY_SYMBOL), IndexOf(full, C.HASH_SYMBOL));
  }

  /** With a `?` before the first `#`, the target is path, `?`, query, `#`,
      fragment, and the query stops at that `#`. */
  lemma SplitTargetQueryAndFragment(full: string)
    requires '?' in full && '#' in full && '#' !in SplitTarget(full).path
    ensures var t := SplitTarget(full);
      full == t.path + "?" + t.query + "#" + t.hash && '?' !in t.path && '#' !in t.query
  {
    var queryIndex := IndexOf(full, C.QUERY_SYMBOL);
    var hashIndex := IndexOf(full, C.HASH_SYMBOL);
    QueryWithoutLaterHash(full, queryIndex, hashIndex);
    QueryBeforeHash(full, queryIndex, hashIndex);
  }

  /** With a `?` and no `#` after it, the query is everything after the `?`,
      including any `#`: the path ends at the `?`, not at an earlier `#`. */
  lemma SplitTargetQueryOnly(full: string)
    requires '?' in full && ('#' in SplitTarget(full).path || '#' !in full)
    ensures var t := SplitTarget(full);
      full == t.path + "?" + t.query && '?' !in t.path
  {
    var queryIndex := IndexOf(full, C.QUERY_SYMBOL);
    var hashIndex := IndexOf(full, C.HASH_SYMBOL);
    QueryWithoutLaterHash(full, queryIndex, hashIndex);
    QueryBeforeHash(full, queryIndex, hashIndex);
  }

  /** The fragment is exactly what follows the first `#`, and empty without one. */
  lemma SplitTargetHash(full: string)
    ensures var t := SplitTarget(full);
      ('#' !in full ==> t.hash == "") &&
      ('#' in full ==>
        |t.hash| < |full| && full[|full| - |t.hash| - 1] == '#' && '#' !in full[..|full| - |t.hash| - 1])
  {
    HashIsSuffix(full, IndexOf(full, C.HASH_SYMBOL));
  }

  lemma HashIsSuffix(full: string, hashIndex: Option<nat>)
    requires hashIndex == IndexOf(full, '#')
    ensures hashIndex.Some? ==> var hash := full[hashIndex.value + 1..];
      |hash| < |full| && full[|full| - |hash| - 1] == '#' && '#' !in full[..|full| - |hash| - 1]
  {
  }

  lemma HashWithoutQuery(full: string, queryIndex: Option<nat>, hashIndex: Option<nat>)
    requires queryIndex == IndexOf(full, '?') && hashIndex == IndexOf(full, '#')
    ensures queryIndex.None? && hashIndex.Some? ==> var h := hashIndex.value;
      full == full[..h] + "#" + full[h + 1..] && '#' !in full[..h]
  {
    if queryIndex.None? && hashIndex.Some? {
      var h := hashIndex.value;
      assert full == full[..h] + [full[h]] + full[h + 1..];
    }
  }

  lemma QueryWithoutLaterHash(full: string, queryIndex: Option<nat>, hashIndex: Option<nat>)
    requires queryIndex == IndexOf(full, '?') && hashIndex == IndexOf(full, '#')
    ensures queryIndex.Some? && (hashIndex.None? || hashIndex.value <= queryIndex.value) ==>
      var q := queryIndex.value;
      full == full[..q] + "?" + full[q + 1..] && '?' !in full[..q] && ('#' in full ==> '#' in full[..q])
  {
    if queryIndex.Some? && (hashIndex.None? || hashIndex.value <= queryIndex.value) {
      var q := queryIndex.value;
      assert full == full[..q] + [full[q]] + full[q + 1..];
      if '#' in full {
        var h := hashIndex.value;
        assert full[..q][h] == '#';
      }
    }
  }

  lemma QueryBeforeHash(full: string, queryIndex: Option<nat>, hashIndex: Option<nat>)
    requires queryIndex == IndexOf(full, '?') && hashIndex == IndexOf(full, '#')
    ensures queryIndex.Some? && hashIndex.Some? && queryIndex.value < hashIndex.value ==>
      var q := queryIndex.value;
      var h := hashIndex.value;
      FirstSegment(full[q + 1..], '#') == full[q + 1..h] &&
      full == full[..q] + "?" + full[q + 1..h] + "#" + full[h + 1..] &&
      '?' !in full[..q] && '#' !in full[..q] && '#' !in full[q + 1..h]
  {
    if queryIndex.Some? && hashIndex.Some? && queryIndex.value < hashIndex.value {
      var q := queryIndex.value;
      var h := hashIndex.value;
      assert full[q] == '?' && '?' !in full[..q];
      assert h < |full| && full[h] == '#' && '#' !in full[..h];
      QueryBeforeHashSegments(full, q, h);
      QueryBeforeHashJoin(full, q, h);
    }
  }

  lemma QueryBeforeHashSegments(full: string, q: nat, h: nat)
    requires q < h < |full| && full[h] == '#' && '#' !in full[..h]
    ensures FirstSegment(full[q + 1..], '#') == full[q + 1..h]
    ensures '#' !in full[..q] && '#' !in full[q + 1..h]
  {
    var temp := full[q + 1..];
    assert '#' !in full[q + 1..h] by {
      forall k | q + 1 <= k < h ensures full[k] != '#' {
        assert full[k] == full[..h][k];
      }
    }
    assert temp[..h - q - 1] == full[q + 1..h];
    assert temp[h - q - 1] == '#';
    assert IndexOf(temp, '#') == Some(h - q - 1);
    assert '#' !in full[..q] by {
      forall k | 0 <= k < q ensures full[k] != '#' {
        assert full[k] == full[..h][k];
      }
    }
  }

  lemma QueryBeforeHashJoin(full: string, q: nat, h: nat)
    requires q < h < |full| && full[q] == '?' && full[h] == '#'
    ensures full == full[..q] + "?" + full[q + 1..h] + "#" + full[h + 1..]
  {
    assert full[..h] == full[..q] + "?" + full[q + 1..h];
    assert full == full[..h] + "#" + full[h + 1..];
  }

  // ---------------------------------------------------------------------------
  // The header block

  /** What the header loop has gathered so far. */
  datatype HeaderState = HeaderState(headers: map<string, string>, host: string, contentLength: nat)

  /** A trimmed header line split at the first `": "` into a trimmed key and
      value; `None` for a line without `": "`. */
  function ParseHeaderLine(line: string): (r: Option<(string, string)>)
    ensures r.Some? ==>
      exists pre, post ::
        && line == pre + C.COLON_SPACE + post
        && r.value == (Trim(pre), Trim(post))
        && forall j :: 0 <= j < |pre| ==> !OccursAt(line, C.COLON_SPACE, j)
    ensures r.None? ==> forall j :: 0 <= j <= |line| ==> !OccursAt(line, C.COLON_SPACE, j)
  {
    match SplitOnce(line, C.COLON_SPACE)
    case None => None
    case Some((pre, post)) => Some((Trim(pre), Trim(post)))
  }

  /** One turn of the header loop on a parsed line: a `key: value` entry is
      stored under its key and updates the host or the content length when its
      key names them, ignoring ASCII case; a line without `": "` changes nothing. */
  function ApplyEntry(st: HeaderState, entry: Option<(string, string)>): HeaderState {
    match entry
    case None => st
    case Some((key, value)) =>
      HeaderState(
        st.headers[key := value],
        if EqIgnoreAsciiCase(key, C.HOST) then value else st.host,
        if EqIgnoreAsciiCase(key, C.CONTENT_LENGTH) then ParseUsize(value).GetOr(0) else st.contentLength)
  }

  /** The header loop run over parsed lines in order, from an empty state. */
  function FoldEntries(entries: seq<Option<(string, string)>>): HeaderState {
    if entries == [] then HeaderState(map[], C.EMPTY_STR, 0)
    else ApplyEntry(FoldEntries(entries[..|entries| - 1]), entries[|entries| - 1])
  }

  /** Each header line split into its key and value, or `None`. */
  function Entries(lines: seq<string>): (r: seq<Option<(string, string)>>)
    ensures |r| == |lines|
  {
    seq(|lines|, i requires 0 <= i < |lines| => ParseHeaderLine(lines[i]))
  }

  /** The header loop run over `lines`. */
  function FoldHeaders(lines: seq<string>): HeaderState {
    FoldEntries(Entries(lines))
  }

  /** The trimmed, non-empty header lines from `pos` up to the first line that
      is empty once trimmed (or the end of the stream), and the cursor after
      that line. */
  function HeaderLines(stream: seq<byte>, pos: nat): (r: Result<(seq<string>, nat), Error>)
    requires pos <= |stream|
    ensures r.Err? ==> r.error == HttpReadError(INVALID_UTF8_DETAIL)
    ensures r.Ok? ==> pos <= r.value.1 <= |stream|
    ensures r.Ok? ==> AllTrimmedLines(r.value.0)
    decreases |stream| - pos
  {
    var read := ReadLine(stream, pos);
    if read.Err? then Err(read.error)
    else
      var raw := read.value.0;
      var next := read.value.1;
      var line := Trim(raw);
      if line == [] then Ok(([], next))
      else
        assert next > pos;
        var rest := HeaderLines(stream, next);
        if rest.Err? then Err(rest.error)
        else
          assert IsTrimmedLine(line);
          ConsTrimmedLines(line, rest.value.0);
          Ok(([line] + rest.value.0, rest.value.1))
  }

  predicate AllTrimmedLines(lines: seq<string>) {
    forall i :: 0 <= i < |lines| ==> IsTrimmedLine(lines[i])
  }

  lemma ConsTrimmedLines(line: string, lines: seq<string>)
    requires IsTrimmedLine(line) && AllTrimmedLines(lines)
    ensures AllTrimmedLines([line] + lines)
  {
    var all := [line] + lines;
    forall i | 0 <= i < |all| ensures IsTrimmedLine(all[i]) {
      if i > 0 {
        assert all[i] == lines[i - 1];
      }
    }
  }

  /** A header line as the loop sees it: trimmed and not empty. */
  predicate IsTrimmedLine(line: string) {
    line != [] && !IsWhitespace(line[0]) && !IsWhitespace(line[|line| - 1])
  }

  // ---------------------------------------------------------------------------
  // The decoder

  /** The header block read from `pos` and folded into the request's headers,
      host and content length, with the cursor after the block. */
  function HeaderBlock(stream: seq<byte>, pos: nat): (r: Result<(HeaderState, nat), Error>)
    requires pos <= |stream|
    ensures r.Ok? ==> pos <= r.value.1 <= |stream|
  {
    match HeaderLines(stream, pos)
    case Err(e) => Err(e)
    case Ok((lines, end)) => Ok((FoldHeaders(lines), end))
  }

  /** The body read after the header block: `n` bytes from `pos`, none when
      `n` is zero, and the short-read error when the stream ends first. */
  function ReadBody(stream: seq<byte>, pos: nat, n: nat): (r: Result<seq<byte>, Error>)
    requires pos <= |stream|
    ensures r.Ok? <==> pos + n <= |stream| || n == 0
    ensures r.Ok? ==> r.value == stream[pos..pos + n]
    ensures r.Err? ==> r.error == HttpReadError(SHORT_READ_DETAIL)
  {
    if n > 0 && pos + n > |stream| then Err(HttpReadError(SHORT_READ_DETAIL))
    else if n > 0 then Ok(stream[pos..pos + n])
    else Ok([])
  }

  /** The largest `isize` on a 64-bit target, and so the most bytes a
      `Vec<u8>` may hold. */
  const ISIZE_MAX: nat := 0x7FFF_FFFF_FFFF_FFFF

  /** The body read as `Request::new` writes it: `body.resize(n, 0)` panics
      with a capacity overflow before anything is read when `n` exceeds
      `isize::MAX` (`None`), and otherwise the read is `ReadBody`. */
  function ReadBodyAsWritten(stream: seq<byte>, pos: nat, n: nat): (r: Option<Result<seq<byte>, Error>>)
    requires pos <= |stream|
    ensures r.None? <==> n > ISIZE_MAX
    ensures r.Some? ==> r.value == ReadBody(stream, pos, n)
  {
    if n > 0 && n > ISIZE_MAX then None else Some(ReadBody(stream, pos, n))
  }

  /** What `Request::new` returns for a stream. */
  function Decode(stream: seq<byte>): Result<Request, Error> {
    match ReadLine(stream, 0)
    case Err(e) => Err(e)
    case Ok((requestLine, pos)) =>
      var parts := SplitWhitespace(requestLine);
      if |parts| < 3 then Err(InvalidHttpRequest(requestLine))
      else
        match HeaderBlock(stream, pos)
        case Err(e) => Err(e)
        case Ok((st, bodyStart)) =>
          match ReadBody(stream, bodyStart, st.contentLength)
          case Err(e) => Err(e)
          case Ok(body) =>
            var target := SplitTarget(parts[1]);
            Ok(Request(parts[0], st.host, target.path, target.query, target.hash, st.headers, body))
  }

  function Prefixed(lines: seq<string>, r: Result<(seq<string>, nat), Error>): Result<(seq<string>, nat), Error> {
    match r
    case Err(e) => Err(e)
    case Ok((rest, end)) => Ok((lines + rest, end))
  }

  /** One turn of the header loop, seen from `HeaderLines`: an empty line ends
      the block, any other line is the first of the block. */
  lemma HeaderLinesStep(stream: seq<byte>, pos: nat)
    requires pos <= |stream| && ReadLine(stream, pos).Ok?
    ensures var line := Trim(ReadLine(stream, pos).value.0);
      var next := ReadLine(stream, pos).value.1;
      (line == [] ==> HeaderLines(stream, pos) == Ok(([], next))) &&
      (line != [] ==> pos < next && HeaderLines(stream, pos) == Prefixed([line], HeaderLines(stream, next)))
  {
  }

  lemma PrefixedNothing(r: Result<(seq<string>, nat), Error>)
    ensures Prefixed([], r) == r
  {
    if r.Ok? {
      assert [] + r.value.0 == r.value.0;
    }
  }

  lemma PrefixedAppend(done: seq<string>, line: string, r: Result<(seq<string>, nat), Error>)
    ensures Prefixed(done, Prefixed([line], r)) == Prefixed(done + [line], r)
  {
    if r.Ok? {
      assert done + ([line] + r.value.0) == done + [line] + r.value.0;
    }
  }

  lemma FoldHeadersSnoc(lines: seq<string>, line: string)
    ensures FoldHeaders(lines + [line]) == ApplyEntry(FoldHeaders(lines), ParseHeaderLine(line))
  {
    var e := Entries(lines + [line]);
    assert e[..|lines|] == Entries(lines);
    assert e[|lines|] == ParseHeaderLine(line);
  }

  /** The header loop of `Request::new`: reads lines from `pos` until one is
      empty once trimmed, folding each into the headers, the host and the
      content length; returns what it gathered and the cursor after the block. */
  method ReadHeaderBlock(stream: seq<byte>, pos: nat) returns (r: Result<(HeaderState, nat), Error>)
    requires pos <= |stream|
    ensures r == HeaderBlock(stream, pos)
  {
    var headers: map<string, string> := map[];
    var host := C.EMPTY_STR;
    var contentLength: nat := 0;
    var cursor := pos;
    ghost var consumed: seq<string> := [];
    PrefixedNothing(HeaderLines(stream, pos));
    while true
      invariant pos <= cursor <= |stream|
      invariant HeaderLines(stream, pos) == Prefixed(consumed, HeaderLines(stream, cursor))
      invariant HeaderState(headers, host, contentLength) == FoldHeaders(consumed)
      decreases |stream| - cursor
    {
      var read := ReadLine(stream, cursor);
      if read.Err? {
        return Err(read.error);
      }
      HeaderLinesStep(stream, cursor);
      var headerLine := Trim(read.value.0);
      cursor := read.value.1;
      if headerLine == [] {
        assert HeaderLines(stream, pos) == Ok((consumed, cursor)) by {
          assert consumed + [] == consumed;
        }
        break;
      }
      PrefixedAppend(consumed, headerLine, HeaderLines(stream, cursor));
      FoldHeadersSnoc(consumed, headerLine);
      consumed := consumed + [headerLine];
      headers, host, contentLength := StoreHeaderLine(headers, host, contentLength, headerLine);
    }
    r := Ok((HeaderState(headers, host, contentLength), cursor));
  }

  /** One turn of the header loop after the blank-line test: a line holding
      `": "` is stored under its key, and updates the host or the content
      length when its key names them, ignoring ASCII case. */
  method StoreHeaderLine(headers: map<string, string>, host: string, contentLength: nat, headerLine: string)
    returns (headers': map<string, string>, host': string, contentLength': nat)
    ensures HeaderState(headers', host', contentLength')
         == ApplyEntry(HeaderState(headers, host, contentLength), ParseHeaderLine(headerLine))
  {
    headers', host', contentLength' := headers, host, contentLength;
    var kv := ParseHeaderLine(headerLine);
    if kv.None? {
      return;
    }
    var (key, value) := kv.value;
    if EqIgnoreAsciiCase(key, C.HOST) {
      host' := value;
    }
    if EqIgnoreAsciiCase(key, C.CONTENT_LENGTH) {
      contentLength' := ParseUsize(value).GetOr(0);
    }
    headers' := headers[key := value];
  }

  /** The body of `Request::new`: nothing when the content length is zero,
      otherwise a buffer of that many bytes filled from the cursor, failing
      when the stream ends first. */
  method ReadExactBody(stream: seq<byte>, pos: nat, n: nat) returns (r: Result<seq<byte>, Error>)
    requires pos <= |stream|
    ensures r == ReadBody(stream, pos, n)
  {
    var body: seq<byte> := [];
    if n > 0 {
      if pos + n > |stream| {
        return Err(HttpReadError(SHORT_READ_DETAIL));
      }
      body := stream[pos..pos + n];
    }
    r := Ok(body);
  }

  /** `Decode` once the request line and the header block have been read
      successfully: only the body read is left. */
  lemma DecodeAfterHeaders(stream: seq<byte>, requestLine: string, pos: nat, st: HeaderState, bodyStart: nat)
    requires ReadLine(stream, 0).Ok?
    requires ReadLine(stream, 0).value.0 == requestLine && ReadLine(stream, 0).value.1 == pos
    requires |SplitWhitespace(requestLine)| >= 3
    requires pos <= |stream| && HeaderBlock(stream, pos).Ok?
    requires HeaderBlock(stream, pos).value.0 == st && HeaderBlock(stream, pos).value.1 == bodyStart
    ensures var parts := SplitWhitespace(requestLine);
      var target := SplitTarget(parts[1]);
      Decode(stream) == match ReadBody(stream, bodyStart, st.contentLength)
        case Err(e) => Err(e)
        case Ok(body) => Ok(Request(parts[0], st.host, target.path, target.query, target.hash, st.headers, body))
  {
  }

  /** `Request::new`: reads the request line, splits the target, runs the
      header loop and reads the body, all through one cursor over the stream. */
  method New(stream: seq<byte>) returns (r: Result<Request, Error>)
    ensures r == Decode(stream)
  {
    var read := ReadLine(stream, 0);
    if read.Err? {
      return Err(read.error);
    }
    var requestLine := read.value.0;
    var pos := read.value.1;
    var parts := SplitWhitespace(requestLine);
    if |parts| < 3 {
      return Err(InvalidHttpRequest(requestLine));
    }
    var httpMethod := parts[0];
    var target := SplitTarget(parts[1]);
    var block := ReadHeaderBlock(stream, pos);
    if block.Err? {
      return Err(block.error);
    }
    var st := block.value.0;
    DecodeAfterHeaders(stream, requestLine, pos, st, block.value.1);
    pos := block.value.1;
    var body := ReadExactBody(stream, pos, st.contentLength);
    if body.Err? {
      return Err(body.error);
    }
    r := Ok(Request(httpMethod, st.host, target.path, target.query, target.hash, st.headers, body.value));
  }
}
