/** What the header loop and the decoder of `Request::new` promise, stated
    without reference to the order in which they compute it. */
module RequestProperties {
  import opened Wrappers
  import opened Text
  import opened Decimal
  import C = Constants
  import opened Requests
  import opened Bytes
  import Utf8
  import opened RequestErrors

  // ---------------------------------------------------------------------------
  // Host and Content-Length: the last line that names them wins

  /** The entry is a `key: value` pair whose key is `name` up to ASCII case. */
  predicate Names(entry: Option<(string, string)>, name: string) {
    entry.Some? && EqIgnoreAsciiCase(entry.value.0, name)
  }

  /** Entry `i` is the last of `entries` that names `name`. */
  predicate LastNaming(entries: seq<Option<(string, string)>>, i: int, name: string) {
    0 <= i < |entries| && Names(entries[i], name) && forall j :: i < j < |entries| ==> !Names(entries[j], name)
  }

  lemma LastNamingSnoc(entries: seq<Option<(string, string)>>, i: int, name: string)
    requires LastNaming(entries, i, name) && i < |entries| - 1
    ensures !Names(entries[|entries| - 1], name)
    ensures LastNaming(entries[..|entries| - 1], i, name)
  {
    var init := entries[..|entries| - 1];
    forall j | i < j < |init| ensures !Names(init[j], name) {
      assert init[j] == entries[j];
    }
  }

  /** `host` is the value of the last `Host` line (any ASCII case), and empty
      when no line names the host. */
  lemma {:induction false} FoldEntriesHost(entries: seq<Option<(string, string)>>)
    ensures (forall i :: 0 <= i < |entries| ==> !Names(entries[i], C.HOST)) ==> FoldEntries(entries).host == ""
    ensures forall i :: LastNaming(entries, i, C.HOST) ==> FoldEntries(entries).host == entries[i].value.1
  {
    if entries != [] {
      var n := |entries| - 1;
      var init := entries[..n];
      FoldEntriesHost(init);
      if !Names(entries[n], C.HOST) {
        forall i | 0 <= i < |init| ensures init[i] == entries[i] { }
        forall i | LastNaming(entries, i, C.HOST)
          ensures FoldEntries(entries).host == entries[i].value.1
        {
          LastNamingSnoc(entries, i, C.HOST);
        }
      } else {
        forall i | LastNaming(entries, i, C.HOST) ensures i == n {
          if i < n {
            LastNamingSnoc(entries, i, C.HOST);
          }
        }
      }
    }
  }

  /** `content_length` is the last `Content-Length` value (any ASCII case)
      parsed as a `usize`, 0 when that value does not parse, and 0 when no
      line names the length. */
  lemma {:induction false} FoldEntriesContentLength(entries: seq<Option<(string, string)>>)
    ensures (forall i :: 0 <= i < |entries| ==> !Names(entries[i], C.CONTENT_LENGTH)) ==>
      FoldEntries(entries).contentLength == 0
    ensures forall i :: LastNaming(entries, i, C.CONTENT_LENGTH) ==>
      FoldEntries(entries).contentLength == ParseUsize(entries[i].value.1).GetOr(0)
  {
    if entries != [] {
      var n := |entries| - 1;
      var init := entries[..n];
      FoldEntriesContentLength(init);
      if !Names(entries[n], C.CONTENT_LENGTH) {
        forall i | 0 <= i < |init| ensures init[i] == entries[i] { }
        forall i | LastNaming(entries, i, C.CONTENT_LENGTH)
          ensures FoldEntries(entries).contentLength == ParseUsize(entries[i].value.1).GetOr(0)
        {
          LastNamingSnoc(entries, i, C.CONTENT_LENGTH);
        }
      } else {
        forall i | LastNaming(entries, i, C.CONTENT_LENGTH) ensures i == n {
          if i < n {
            LastNamingSnoc(entries, i, C.CONTENT_LENGTH);
          }
        }
      }
    }
  }

  // ---------------------------------------------------------------------------
  // The header map: one entry per exact key, the last value wins

  /** The entry is a `key: value` pair whose trimmed key is exactly `key`. */
  predicate HasKey(entry: Option<(string, string)>, key: string) {
    entry.Some? && entry.value.0 == key
  }

  /** Entry `i` is the last of `entries` with key `key`. */
  predicate LastWithKey(entries: seq<Option<(string, string)>>, i: int, key: string) {
    0 <= i < |entries| && HasKey(entries[i], key) && forall j :: i < j < |entries| ==> !HasKey(entries[j], key)
  }

  lemma LastWithKeySnoc(entries: seq<Option<(string, string)>>, i: int, key: string)
    requires LastWithKey(entries, i, key) && i < |entries| - 1
    ensures !HasKey(entries[|entries| - 1], key)
    ensures LastWithKey(entries[..|entries| - 1], i, key)
  {
    var init := entries[..|entries| - 1];
    forall j | i < j < |init| ensures !HasKey(init[j], key) {
      assert init[j] == entries[j];
    }
  }

  /** The header map holds exactly the keys of the `key: value` entries; entries
      without `": "` leave no trace. */
  lemma {:induction false} FoldEntriesKeys(entries: seq<Option<(string, string)>>)
    ensures forall key :: key in FoldEntries(entries).headers <==> exists i :: 0 <= i < |entries| && HasKey(entries[i], key)
  {
    if entries != [] {
      var n := |entries| - 1;
      var init := entries[..n];
      FoldEntriesKeys(init);
      assert FoldEntries(entries) == ApplyEntry(FoldEntries(init), entries[n]);
      forall key ensures key in FoldEntries(entries).headers <==> exists i :: 0 <= i < |entries| && HasKey(entries[i], key) {
        if key in FoldEntries(entries).headers {
          if !HasKey(entries[n], key) {
            assert key in FoldEntries(init).headers;
            var i :| 0 <= i < |init| && HasKey(init[i], key);
            assert entries[i] == init[i];
          }
        } else {
          assert key !in FoldEntries(init).headers;
          forall i | 0 <= i < |entries| ensures !HasKey(entries[i], key) {
            if i < n {
              assert entries[i] == init[i];
            }
          }
        }
      }
    }
  }

  /** Each key maps to the value of the last line with that exact key: a later
      identical key overwrites an earlier one. */
  lemma {:induction false} FoldEntriesValues(entries: seq<Option<(string, string)>>)
    ensures forall i, key :: LastWithKey(entries, i, key) ==>
      key in FoldEntries(entries).headers && FoldEntries(entries).headers[key] == entries[i].value.1
  {
    if entries != [] {
      var n := |entries| - 1;
      var init := entries[..n];
      FoldEntriesValues(init);
      forall i, key | LastWithKey(entries, i, key)
        ensures key in FoldEntries(entries).headers && FoldEntries(entries).headers[key] == entries[i].value.1
      {
        if i < n {
          LastWithKeySnoc(entries, i, key);
        }
      }
    }
  }

  // ---------------------------------------------------------------------------
  // Reading lines from the stream

  lemma {:induction false} LineEndAt(stream: seq<byte>, pos: nat, e: nat)
    requires pos <= e < |stream| && stream[e] == LF && LF !in stream[pos..e]
    ensures LineEnd(stream, pos) == e + 1
    decreases e - pos
  {
    if pos < e {
      assert stream[pos] == stream[pos..e][0];
      assert stream[pos + 1..e] == stream[pos..e][1..];
      LineEndAt(stream, pos + 1, e);
    }
  }

  /** The bytes of a line without `\n`, then its LF. */
  lemma EncodeLine(line: string)
    requires '\n' !in line
    ensures Utf8.Encode(line + "\n") == Utf8.Encode(line) + [LF]
    ensures LF !in Utf8.Encode(line)
  {
    Utf8.EncodeConcat(line, "\n");
    assert Utf8.Encode("\n") == [LF];
    Utf8.LineFeedInEncode(line);
  }

  /** The line end after an encoded line is just past its LF. */
  lemma EncodedLineEnd(prefix: seq<byte>, line: string, rest: seq<byte>)
    requires '\n' !in line
    ensures LineEnd(prefix + Utf8.Encode(line + "\n") + rest, |prefix|)
      == |prefix| + |Utf8.Encode(line + "\n")|
  {
    EncodeLine(line);
    var enc := Utf8.Encode(line);
    var stream := prefix + (enc + [LF]) + rest;
    var e := |prefix| + |enc|;
    assert stream[|prefix|..e] == enc;
    assert stream[e] == LF;
    LineEndAt(stream, |prefix|, e);
  }

  /** `read_line` on an encoded line without an inner `\n`: it returns the
      line with its `\n` and moves the cursor past its bytes. */
  lemma ReadEncodedLine(prefix: seq<byte>, line: string, rest: seq<byte>)
    requires '\n' !in line
    ensures var r := ReadLine(prefix + Utf8.Encode(line + "\n") + rest, |prefix|);
      r.Ok? && r.value.0 == line + "\n" && r.value.1 == |prefix| + |Utf8.Encode(line + "\n")|
  {
    var enc := Utf8.Encode(line + "\n");
    var stream := prefix + enc + rest;
    var e := |prefix| + |enc|;
    assert LineEnd(stream, |prefix|) == e by {
      EncodedLineEnd(prefix, line, rest);
    }
    assert Utf8.Decode(stream[|prefix|..e]) == Some(line + "\n") by {
      assert stream[|prefix|..e] == enc;
      Utf8.DecodeEncode(line + "\n");
    }
    ReadLineOf(stream, |prefix|, e, line + "\n");
  }

  /** `read_line` in terms of the line end and the decoding of the bytes up to it. */
  lemma ReadLineOf(stream: seq<byte>, pos: nat, e: nat, line: string)
    requires pos <= e <= |stream| && LineEnd(stream, pos) == e
    requires Utf8.Decode(stream[pos..e]) == Some(line)
    ensures ReadLine(stream, pos).Ok?
    ensures ReadLine(stream, pos).value.0 == line
    ensures ReadLine(stream, pos).value.1 == e
  {
  }

  lemma NoLineFeedInToken(tok: string)
    requires IsToken(tok)
    ensures '\n' !in tok
  {
    assert IsWhitespace('\n');
  }

  // ---------------------------------------------------------------------------
  // The request line

  /** A request line of three tokens separated by single spaces and ended by
      CRLF splits into exactly those three tokens. */
  lemma RequestLineTokens(m: string, t: string, v: string)
    requires IsToken(m) && IsToken(t) && IsToken(v)
    ensures SplitWhitespace(m + " " + t + " " + v + "\r\n") == [m, t, v]
  {
    var y := v + "\r\n";
    var x := t + " " + y;
    TrailingTokens(t, v);
    SplitTokenThenSpace(m, ' ', x);
    ConcatAssoc(m + " " + t + " ", v, "\r\n");
    ConcatAssoc(m + " " + t, " ", y);
    ConcatAssoc(m + " ", t, " " + y);
    ConcatAssoc(t, " ", y);
  }

  /** The last two tokens of a request line. */
  lemma TrailingTokens(t: string, v: string)
    requires IsToken(t) && IsToken(v)
    ensures SplitWhitespace(t + " " + (v + "\r\n")) == [t, v]
  {
    LastTokenThenCrLf(v);
    SplitTokenThenSpace(t, ' ', v + "\r\n");
  }

  /** The version token and the CRLF that ends the request line. */
  lemma LastTokenThenCrLf(v: string)
    requires IsToken(v)
    ensures SplitWhitespace(v + "\r\n") == [v]
  {
    assert AllWhitespace("\r\n");
    SplitTokenThenWhitespace(v, "\r\n");
  }

  lemma EmptyConcat(b: seq<byte>)
    ensures [] + b == b && b + [] == b
  {
  }

  /** The empty stream: `read_line` returns an empty line, which has no
      tokens, so the request is invalid with an empty payload. */
  lemma DecodeEmptyStream()
    ensures Decode([]) == Err(InvalidHttpRequest(""))
  {
    assert Utf8.Decode([]) == Some([]);
    assert SplitWhitespace("") == [];
  }

  /** The first line decides the outcome before the header block is read: a
      read error is returned as it is, and a line of fewer than three tokens,
      however it ends, is rejected with the raw line. */
  lemma DecodeFirstLine(stream: seq<byte>)
    ensures ReadLine(stream, 0).Err? ==>
      Decode(stream).Err? && Decode(stream).error == ReadLine(stream, 0).error
    ensures ReadLine(stream, 0).Ok? && |SplitWhitespace(ReadLine(stream, 0).value.0)| < 3 ==>
      Decode(stream).Err? && Decode(stream).error == InvalidHttpRequest(ReadLine(stream, 0).value.0)
  {
  }

  /** A first line with fewer than three tokens is rejected with the raw line,
      `\n` included, whatever follows it. */
  lemma DecodeShortRequestLine(line: string, rest: seq<byte>)
    requires '\n' !in line && |SplitWhitespace(line + "\n")| < 3
    ensures var r := Decode(Utf8.Encode(line + "\n") + rest);
      r.Err? && r.error == InvalidHttpRequest(line + "\n")
  {
    var first := Utf8.Encode(line + "\n");
    var stream := first + rest;
    EmptyConcat(first);
    assert [] + first + rest == stream;
    ReadEncodedLine([], line, rest);
    assert ReadLine(stream, 0).Ok? && ReadLine(stream, 0).value.0 == line + "\n";
    DecodeFirstLine(stream);
  }

  /** A blank line ends the header block at once: no headers, no host and a
      content length of zero. */
  lemma BlankLineEndsHeaders(stream: seq<byte>, pos: nat)
    requires pos <= |stream| && ReadLine(stream, pos).Ok?
    requires AllWhitespace(ReadLine(stream, pos).value.0)
    ensures HeaderBlock(stream, pos).Ok?
    ensures HeaderBlock(stream, pos).value.0 == HeaderState(map[], "", 0)
    ensures HeaderBlock(stream, pos).value.1 == ReadLine(stream, pos).value.1
  {
    TrimAllWhitespace(ReadLine(stream, pos).value.0);
    assert HeaderLines(stream, pos).value.0 == [];
    assert Entries([]) == [];
  }

  /** `Request::new` once the request line and an empty header block have been read. */
  lemma DecodeOfEmptyBlock(stream: seq<byte>, requestLine: string, pos: nat)
    requires ReadLine(stream, 0).Ok? && ReadLine(stream, 0).value.0 == requestLine
    requires ReadLine(stream, 0).value.1 == pos && |SplitWhitespace(requestLine)| >= 3
    requires pos <= |stream| && HeaderBlock(stream, pos).Ok?
    requires HeaderBlock(stream, pos).value.0 == HeaderState(map[], "", 0)
    ensures var parts := SplitWhitespace(requestLine);
      var target := SplitTarget(parts[1]);
      Decode(stream).Ok? &&
      Decode(stream).value == Request(parts[0], "", target.path, target.query, target.hash, map[], [])
  {
    DecodeAfterHeaders(stream, requestLine, pos, HeaderState(map[], "", 0), HeaderBlock(stream, pos).value.1);
  }

  /** A first line of at least three tokens followed by a blank line (CRLF)
      decodes to the first token as method, the split of the second token
      as target, no host, no headers and an empty body. */
  lemma DecodeLineThenBlank(line: string)
    requires '\n' !in line && |SplitWhitespace(line + "\n")| >= 3
    ensures var parts := SplitWhitespace(line + "\n");
      var target := SplitTarget(parts[1]);
      var r := Decode(Utf8.Encode(line + "\n") + Utf8.Encode("\r\n"));
      r.Ok? && r.value == Request(parts[0], "", target.path, target.query, target.hash, map[], [])
  {
    var first := Utf8.Encode(line + "\n");
    assert "\r" + "\n" == "\r\n";
    var second := Utf8.Encode("\r" + "\n");
    var stream := first + second;
    EmptyConcat(first);
    EmptyConcat(stream);
    assert AllWhitespace("\r" + "\n");
    ReadEncodedLine([], line, second);
    ReadEncodedLine(first, "\r", []);
    BlankLineEndsHeaders(stream, |first|);
    DecodeOfEmptyBlock(stream, line + "\n", |first|);
  }

  /** A request line followed by an empty line decodes to its method token,
      the split of its target token, no host, no headers and an empty body. */
  lemma DecodeRequestLineOnly(m: string, t: string, v: string)
    requires IsToken(m) && IsToken(t) && IsToken(v)
    ensures var target := SplitTarget(t);
      var r := Decode(Utf8.Encode(m + " " + t + " " + v + "\r\n") + Utf8.Encode("\r\n"));
      r.Ok? && r.value == Request(m, "", target.path, target.query, target.hash, map[], [])
  {
    var line := m + " " + t + " " + v + "\r";
    assert line + "\n" == m + " " + t + " " + v + "\r\n" by {
      ConcatAssoc(m + " " + t + " " + v, "\r", "\n");
    }
    assert '\n' !in line by {
      NoLineFeedInToken(m);
      NoLineFeedInToken(t);
      NoLineFeedInToken(v);
    }
    RequestLineTokens(m, t, v);
    DecodeLineThenBlank(line);
  }

  // ---------------------------------------------------------------------------
  // Header blocks of encoded lines

  /** Header lines as they are sent: each line (without its LF) is encoded and
      followed by an LF. */
  function EncodedLines(lines: seq<string>): seq<byte> {
    if lines == [] then [] else Utf8.Encode(lines[0] + "\n") + EncodedLines(lines[1..])
  }

  /** What the header loop keeps of each sent line: the line with its LF, trimmed. */
  function TrimmedLines(lines: seq<string>): (r: seq<string>)
    ensures |r| == |lines|
  {
    if lines == [] then [] else [Trim(lines[0] + "\n")] + TrimmedLines(lines[1..])
  }

  /** A header line as a client sends it: no LF inside, and not blank. */
  predicate IsSentHeaderLine(line: string) {
    '\n' !in line && Trim(line + "\n") != []
  }

  /** A line that ends the header block: no LF inside, and blank. */
  predicate IsBlankLine(line: string) {
    '\n' !in line && AllWhitespace(line)
  }

  /** `read_line` at the start of an encoded line returns that line and its LF. */
  lemma ReadSentLine(stream: seq<byte>, prefix: seq<byte>, line: string, rest: seq<byte>)
    requires '\n' !in line && stream == prefix + Utf8.Encode(line + "\n") + rest
    ensures ReadLine(stream, |prefix|).Ok?
    ensures ReadLine(stream, |prefix|).value.0 == line + "\n"
    ensures ReadLine(stream, |prefix|).value.1 == |prefix| + |Utf8.Encode(line + "\n")|
  {
    ReadEncodedLine(prefix, line, rest);
  }

  /** A blank line ends the header block, with the cursor after it. */
  lemma BlankLineStep(stream: seq<byte>, pos: nat, blank: string, next: nat)
    requires pos <= |stream| && IsBlankLine(blank)
    requires ReadLine(stream, pos).Ok?
    requires ReadLine(stream, pos).value.0 == blank + "\n" && ReadLine(stream, pos).value.1 == next
    ensures HeaderLines(stream, pos).Ok?
    ensures HeaderLines(stream, pos).value.0 == [] && HeaderLines(stream, pos).value.1 == next
  {
    assert AllWhitespace(blank + "\n");
    TrimAllWhitespace(blank + "\n");
    HeaderLinesStep(stream, pos);
  }

  /** A sent header line is the first line of the block; the rest of the
      block is read from the cursor after it. */
  lemma SentLineStep(stream: seq<byte>, pos: nat, line: string, next: nat)
    requires pos <= |stream| && IsSentHeaderLine(line)
    requires ReadLine(stream, pos).Ok?
    requires ReadLine(stream, pos).value.0 == line + "\n" && ReadLine(stream, pos).value.1 == next
    requires next <= |stream| && HeaderLines(stream, next).Ok?
    ensures HeaderLines(stream, pos).Ok?
    ensures HeaderLines(stream, pos).value.0 == [Trim(line + "\n")] + HeaderLines(stream, next).value.0
    ensures HeaderLines(stream, pos).value.1 == HeaderLines(stream, next).value.1
  {
    HeaderLinesStep(stream, pos);
  }

  /** A header block as it is sent: the header lines, then the blank line. */
  function SentBlock(lines: seq<string>, blank: string): seq<byte> {
    EncodedLines(lines) + Utf8.Encode(blank + "\n")
  }

  /** The bytes of a sent block split after its first line. */
  lemma SentBlockSplit(prefix: seq<byte>, lines: seq<string>, blank: string, rest: seq<byte>)
    requires lines != []
    ensures var first := Utf8.Encode(lines[0] + "\n");
      && prefix + SentBlock(lines, blank) + rest == prefix + first + (SentBlock(lines[1..], blank) + rest)
      && prefix + SentBlock(lines, blank) + rest == (prefix + first) + SentBlock(lines[1..], blank) + rest
      && |prefix + first| + |SentBlock(lines[1..], blank)| == |prefix| + |SentBlock(lines, blank)|
  {
    var first := Utf8.Encode(lines[0] + "\n");
    var last := Utf8.Encode(blank + "\n");
    var block := SentBlock(lines[1..], blank);
    assert SentBlock(lines, blank) == first + block by {
      ConcatAssoc(first, EncodedLines(lines[1..]), last);
    }
    ConcatAssoc(prefix, first + block, rest);
    ConcatAssoc(prefix, first, block);
    ConcatAssoc(prefix + first, block, rest);
    ConcatAssoc(prefix, first, block + rest);
  }

  /** The header loop over just a blank line. */
  lemma HeaderLinesOfBlank(prefix: seq<byte>, blank: string, rest: seq<byte>)
    requires IsBlankLine(blank)
    ensures HeaderLines(prefix + SentBlock([], blank) + rest, |prefix|).Ok?
    ensures HeaderLines(prefix + SentBlock([], blank) + rest, |prefix|).value.0 == []
    ensures HeaderLines(prefix + SentBlock([], blank) + rest, |prefix|).value.1
      == |prefix| + |SentBlock([], blank)|
  {
    var last := Utf8.Encode(blank + "\n");
    var stream := prefix + SentBlock([], blank) + rest;
    assert stream == prefix + last + rest by {
      EmptyConcat(last);
    }
    ReadSentLine(stream, prefix, blank, rest);
    BlankLineStep(stream, |prefix|, blank, |prefix| + |last|);
  }

  /** The header loop over sent lines followed by a blank line returns the
      trimmed lines, in order, and leaves the cursor just after the blank line,
      whatever follows it. */
  lemma {:induction false} HeaderLinesOfEncoded(prefix: seq<byte>, lines: seq<string>, blank: string, rest: seq<byte>)
    requires forall i :: 0 <= i < |lines| ==> IsSentHeaderLine(lines[i])
    requires IsBlankLine(blank)
    ensures HeaderLines(prefix + SentBlock(lines, blank) + rest, |prefix|).Ok?
    ensures HeaderLines(prefix + SentBlock(lines, blank) + rest, |prefix|).value.0 == TrimmedLines(lines)
    ensures HeaderLines(prefix + SentBlock(lines, blank) + rest, |prefix|).value.1
      == |prefix| + |SentBlock(lines, blank)|
    decreases |lines|
  {
    if lines == [] {
      HeaderLinesOfBlank(prefix, blank, rest);
    } else {
      var stream := prefix + SentBlock(lines, blank) + rest;
      var first := Utf8.Encode(lines[0] + "\n");
      SentBlockSplit(prefix, lines, blank, rest);
      ReadSentLine(stream, prefix, lines[0], SentBlock(lines[1..], blank) + rest);
      forall i | 0 <= i < |lines[1..]| ensures IsSentHeaderLine(lines[1..][i]) {
        assert lines[1..][i] == lines[i + 1];
      }
      HeaderLinesOfEncoded(prefix + first, lines[1..], blank, rest);
      SentLineStep(stream, |prefix|, lines[0], |prefix + first|);
    }
  }

  /** A request as it is sent: the request line, the header block, and
      whatever follows the blank line. */
  function SentRequest(requestLine: string, lines: seq<string>, blank: string, rest: seq<byte>): seq<byte> {
    Utf8.Encode(requestLine + "\n") + SentBlock(lines, blank) + rest
  }

  /** `Request::new` on a sent request: the headers, host and content length
      are the header loop over the trimmed lines, and the body is the first
      content-length bytes after the blank line, or the short-read error when
      fewer follow. */
  lemma DecodeWithHeaders(requestLine: string, lines: seq<string>, blank: string, rest: seq<byte>)
    requires '\n' !in requestLine && |SplitWhitespace(requestLine + "\n")| >= 3
    requires forall i :: 0 <= i < |lines| ==> IsSentHeaderLine(lines[i])
    requires IsBlankLine(blank)
    ensures var r := Decode(SentRequest(requestLine, lines, blank, rest));
      var parts := SplitWhitespace(requestLine + "\n");
      var target := SplitTarget(parts[1]);
      var st := FoldHeaders(TrimmedLines(lines));
      && (st.contentLength <= |rest| ==>
           r.Ok? && r.value == Request(parts[0], st.host, target.path, target.query, target.hash, st.headers, rest[..st.contentLength]))
      && (st.contentLength > |rest| ==> r.Err? && r.error == HttpReadError(SHORT_READ_DETAIL))
  {
    var stream := SentRequest(requestLine, lines, blank, rest);
    var first := Utf8.Encode(requestLine + "\n");
    var block := SentBlock(lines, blank);
    assert [] + first + (block + rest) == stream by {
      EmptyConcat(first);
      ConcatAssoc(first, block, rest);
    }
    ReadEncodedLine([], requestLine, block + rest);
    HeaderLinesOfEncoded(first, lines, blank, rest);
    var st := FoldHeaders(TrimmedLines(lines));
    var bodyStart := |first| + |block|;
    DecodeAfterHeaders(stream, requestLine + "\n", |first|, st, bodyStart);
    if st.contentLength <= |rest| {
      BodyAfterFront(stream, first + block, rest, bodyStart, st.contentLength);
    }
  }

  /** The body read after a block is the first bytes of what follows it. */
  lemma BodyAfterFront(stream: seq<byte>, front: seq<byte>, rest: seq<byte>, pos: nat, n: nat)
    requires stream == front + rest && pos == |front| && n <= |rest|
    ensures ReadBody(stream, pos, n).Ok? && ReadBody(stream, pos, n).value == rest[..n]
  {
    assert stream[pos..pos + n] == rest[..n];
  }

  // ---------------------------------------------------------------------------
  // A request with a Content-Length header

  /** A line `key: value` whose key holds no `:` splits at the `": "` after
      the key. */
  lemma ParseHeaderLineAfterKey(key: string, value: string)
    requires ':' !in key
    ensures ParseHeaderLine(key + C.COLON_SPACE + value) == Some((Trim(key), Trim(value)))
  {
    var line := key + C.COLON_SPACE + value;
    ConcatAround(key, C.COLON_SPACE, value);
    assert OccursAt(line, C.COLON_SPACE, |key|);
    var r := ParseHeaderLine(line);
    var pre, post :| && line == pre + C.COLON_SPACE + post
        && r.value == (Trim(pre), Trim(post))
        && forall j :: 0 <= j < |pre| ==> !OccursAt(line, C.COLON_SPACE, j);
    ConcatAround(pre, C.COLON_SPACE, post);
    assert |pre| <= |key|;
  }

  lemma NoLineFeedInConcat(a: string, b: string)
    requires '\n' !in a && '\n' !in b
    ensures '\n' !in a + b
  {
  }

  /** A digit string is a token. */
  lemma DigitsAreToken(digits: string)
    requires digits != [] && AllDigits(digits)
    ensures IsToken(digits)
  {
    forall i | 0 <= i < |digits| ensures !IsWhitespace(digits[i]) {
      assert IsDigit(digits[i]);
    }
  }

  /** The sent line `key: n` (with its CR) for a key that names Content-Length:
      the header loop stores it under the key and takes `n` as the content
      length, and leaves the host empty. */
  lemma ContentLengthLine(key: string, n: nat)
    requires IsToken(key) && ':' !in key && EqIgnoreAsciiCase(key, C.CONTENT_LENGTH)
    requires n <= USIZE_MAX
    ensures var sent := key + C.COLON_SPACE + NatToString(n) + "\r";
      && IsSentHeaderLine(sent)
      && FoldHeaders(TrimmedLines([sent])) == HeaderState(map[key := NatToString(n)], "", n)
  {
    var digits := NatToString(n);
    var header := key + C.COLON_SPACE + digits;
    var sent := header + "\r";
    DigitsAreToken(digits);
    assert sent + "\n" == header + "\r\n" by {
      ConcatAssoc(header, "\r", "\n");
    }
    ConcatAround(key, C.COLON_SPACE, digits);
    assert header[0] == key[0] && header[|header| - 1] == digits[|digits| - 1];
    assert AllWhitespace("\r\n");
    TrimTrailingWhitespace(header, "\r\n");
    assert '\n' !in sent by {
      NoLineFeedInToken(key);
      NoLineFeedInToken(digits);
      NoLineFeedInConcat(key, C.COLON_SPACE);
      NoLineFeedInConcat(key + C.COLON_SPACE, digits);
      NoLineFeedInConcat(header, "\r");
    }
    assert TrimmedLines([sent]) == [header];
    ParseHeaderLineAfterKey(key, digits);
    TrimOfTrimmed(key);
    TrimOfTrimmed(digits);
    ParseNatToString(n);
    assert !EqIgnoreAsciiCase(key, C.HOST);
    FoldHeadersSnoc([], header);
    assert Entries([]) == [];
  }

  /** A request line of three tokens as a client sends it, before its line feed. */
  function TokenLine(m: string, t: string, v: string): string
  {
    m + " " + t + " " + v + "\r"
  }

  /** A token line holds no line feed and splits back into its three tokens. */
  lemma TokenLineSplits(m: string, t: string, v: string)
    requires IsToken(m) && IsToken(t) && IsToken(v)
    ensures '\n' !in TokenLine(m, t, v)
    ensures SplitWhitespace(TokenLine(m, t, v) + "\n") == [m, t, v]
  {
    assert TokenLine(m, t, v) + "\n" == m + " " + t + " " + v + "\r\n" by {
      ConcatAssoc(m + " " + t + " " + v, "\r", "\n");
    }
    assert '\n' !in TokenLine(m, t, v) by {
      NoLineFeedInToken(m);
      NoLineFeedInToken(t);
      NoLineFeedInToken(v);
      NoLineFeedInConcat(m, " ");
      NoLineFeedInConcat(m + " ", t);
      NoLineFeedInConcat(m + " " + t, " ");
      NoLineFeedInConcat(m + " " + t + " ", v);
      NoLineFeedInConcat(m + " " + t + " " + v, "\r");
    }
    RequestLineTokens(m, t, v);
  }

  /** `Request::new` on a sent request whose request line is three tokens:
      the method is the first token and the target the split of the second. */
  lemma DecodeSentTokens(m: string, t: string, v: string, lines: seq<string>, blank: string, rest: seq<byte>)
    requires IsToken(m) && IsToken(t) && IsToken(v)
    requires forall i :: 0 <= i < |lines| ==> IsSentHeaderLine(lines[i])
    requires IsBlankLine(blank)
    ensures var r := Decode(SentRequest(TokenLine(m, t, v), lines, blank, rest));
      var target := SplitTarget(t);
      var st := FoldHeaders(TrimmedLines(lines));
      && (st.contentLength <= |rest| ==>
           r.Ok? && r.value == Request(m, st.host, target.path, target.query, target.hash, st.headers, rest[..st.contentLength]))
      && (st.contentLength > |rest| ==> r.Err? && r.error == HttpReadError(SHORT_READ_DETAIL))
  {
    TokenLineSplits(m, t, v);
    DecodeWithHeaders(TokenLine(m, t, v), lines, blank, rest);
  }

  /** `Request::new` on a request line, one Content-Length header and a blank
      line: the request carries that one header, no host, and the next `n`
      bytes as its body, or fails with the short-read error when fewer follow. */
  lemma DecodeWithContentLength(m: string, t: string, v: string, key: string, n: nat, rest: seq<byte>)
    requires IsToken(m) && IsToken(t) && IsToken(v)
    requires IsToken(key) && ':' !in key && EqIgnoreAsciiCase(key, C.CONTENT_LENGTH)
    requires n <= USIZE_MAX
    ensures var r := Decode(SentRequest(TokenLine(m, t, v),
                                        [key + C.COLON_SPACE + NatToString(n) + "\r"], "\r", rest));
      var target := SplitTarget(t);
      && (n <= |rest| ==>
           r.Ok? && r.value == Request(m, "", target.path, target.query, target.hash, map[key := NatToString(n)], rest[..n]))
      && (n > |rest| ==> r.Err? && r.error == HttpReadError(SHORT_READ_DETAIL))
  {
    var sent := key + C.COLON_SPACE + NatToString(n) + "\r";
    ContentLengthLine(key, n);
    assert IsBlankLine("\r");
    DecodeSentTokens(m, t, v, [sent], "\r", rest);
  }

  // ---------------------------------------------------------------------------
  // A Content-Length beyond isize::MAX

  /** A client can send a Content-Length that `usize` holds but a `Vec<u8>`
      cannot: the header loop accepts it, and the body read as written panics
      on it while `ReadBody` reports the short read for any stream that fits
      in memory. */
  lemma OversizedContentLength(key: string, stream: seq<byte>, pos: nat)
    requires IsToken(key) && ':' !in key && EqIgnoreAsciiCase(key, C.CONTENT_LENGTH)
    requires pos <= |stream| <= ISIZE_MAX
    ensures var sent := key + C.COLON_SPACE + NatToString(USIZE_MAX) + "\r";
      var n := FoldHeaders(TrimmedLines([sent])).contentLength;
      && IsSentHeaderLine(sent)
      && n == USIZE_MAX
      && ReadBodyAsWritten(stream, pos, n).None?
      && ReadBody(stream, pos, n).Err?
      && ReadBody(stream, pos, n).error == HttpReadError(SHORT_READ_DETAIL)
  {
    ContentLengthLine(key, USIZE_MAX);
  }
}
