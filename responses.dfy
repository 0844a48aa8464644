/** The response object: a mutable record with setters, and `build`, which
    fills in the reason phrase, drains the header map and serialises the
    message into bytes. */
module Responses {
  import opened Wrappers
  import opened Bytes
  import opened Text
  import Utf8
  import Decimal
  import opened HttpVersions
  import opened ResponseWire
  import C = Constants

  class Response {
    var version: HttpVersion
    var statusCode: nat
    var reasonPhrase: string
    var headers: map<string, string>
    var body: seq<byte>

    /** `Response::new` (and `Default`): HTTP/1.1, 200, no reason phrase, no
        headers, no body. */
    constructor ()
      ensures version == HTTP1_1 && statusCode == 200 && reasonPhrase == C.EMPTY_STR
      ensures headers == map[] && body == []
    {
      version := HTTP1_1;
      statusCode := 200;
      reasonPhrase := C.EMPTY_STR;
      headers := map[];
      body := [];
    }

    /** `get_header`: the value stored under exactly this key, if any. */
    function GetHeader(key: string): (r: Option<string>)
      reads this
      ensures r.Some? <==> key in headers
      ensures r.Some? ==> r.value == headers[key]
    {
      if key in headers then Some(headers[key]) else None
    }

    /** `set_header`: stores the value under the key as given, replacing an
        earlier value under the same key; nothing else changes. */
    method SetHeader(key: string, value: string)
      modifies this
      ensures headers == old(headers)[key := value]
      ensures version == old(version) && statusCode == old(statusCode)
      ensures reasonPhrase == old(reasonPhrase) && body == old(body)
      ensures GetHeader(key) == Some(value)
      ensures forall k :: k != key ==> GetHeader(k) == old(GetHeader(k))
    {
      headers := headers[key := value];
    }

    /** `set_body` */
    method SetBody(b: seq<byte>)
      modifies this
      ensures body == b
      ensures version == old(version) && statusCode == old(statusCode)
      ensures reasonPhrase == old(reasonPhrase) && headers == old(headers)
    {
      body := b;
    }

    /** `set_reason_phrase` */
    method SetReasonPhrase(phrase: string)
      modifies this
      ensures reasonPhrase == phrase
      ensures version == old(version) && statusCode == old(statusCode)
      ensures headers == old(headers) && body == old(body)
    {
      reasonPhrase := phrase;
    }

    /** `push_header`: appends one field line to the buffer. */
    static method PushHeader(buffer: string, key: string, value: string) returns (r: string)
      ensures r == buffer + HeaderLine(key, value)
    {
      r := buffer;
      r := r + key;
      r := r + C.COLON_SPACE;
      r := r + value;
      r := r + C.HTTP_BR;
    }

    /** `push_http_response_first_line`: appends the status line. */
    method PushFirstLine(buffer: string) returns (r: string)
      ensures r == buffer + StatusLine(version, statusCode, reasonPhrase)
    {
      r := buffer;
      r := r + ToString(version);
      r := r + C.SPACE;
      r := r + Decimal.NatToString(statusCode);
      r := r + C.SPACE;
      r := r + reasonPhrase;
      r := r + C.HTTP_BR;
    }

    /** `build`. An empty reason phrase is replaced, for good, by the phrase of
        the status code. The header map is drained into a map with lowercased
        keys, in the order `drained`, and that map is written out in the
        order `visited`; the map is left empty and the body field untouched,
        while the bytes carry the final, possibly encoded, body. */
    method Build(caps: Capabilities) returns (data: seq<byte>, ghost drained: seq<string>, ghost visited: seq<string>)
      modifies this
      ensures reasonPhrase == (if old(reasonPhrase) == [] then caps.phrase(old(statusCode)) else old(reasonPhrase))
      ensures version == old(version) && statusCode == old(statusCode) && body == old(body)
      ensures headers == map[]
      ensures IsEnumeration(drained, old(headers).Keys)
      ensures IsEnumeration(visited, Collect(old(headers), drained).Keys)
      ensures data == Wire(version, statusCode, reasonPhrase, Collect(old(headers), drained), visited, body, caps)
    {
      if reasonPhrase == [] {
        SetReasonPhrase(caps.phrase(statusCode));
      }
      var s := PushFirstLine("");
      ghost var status := s;
      assert status == StatusLine(version, statusCode, reasonPhrase);

      var collected;
      collected, drained := DrainLowercased();

      var compress, connection, contentType, unsetContentLength;
      s, compress, connection, contentType, unsetContentLength, visited := WriteUserHeaders(s, collected, caps);
      assert s == status + Lines(UserFields(collected, visited));
      assert IsEnumeration(visited, collected.Keys);

      var finalBody;
      s, finalBody := WriteDefaults(s, collected, body, caps, compress, connection, contentType, unsetContentLength);
      assert s == status + Lines(UserFields(collected, visited)) + Lines(DefaultFields(collected, body, caps));
      HeadJoin(status, collected, visited, body, caps);
      s := s + C.HTTP_BR;
      data := Utf8.Encode(s) + finalBody;
    }

    /** The loop of `build` over the lowercased map, in the order `visited`:
        writes every field line except `content-length` and notes the
        compression scheme, the connection, the content type and whether the
        body is an event stream. */
    static method WriteUserHeaders(buffer: string, collected: map<string, string>, caps: Capabilities)
      returns (s: string, compress: Option<Compress>, connection: Option<string>, contentType: Option<string>,
               unsetContentLength: bool, ghost visited: seq<string>)
      ensures IsEnumeration(visited, collected.Keys)
      ensures s == buffer + Lines(UserFields(collected, visited))
      ensures compress == CompressOf(collected, caps)
      ensures connection == (if C.CONNECTION in collected then Some(collected[C.CONNECTION]) else None)
      ensures contentType == (if C.CONTENT_TYPE in collected then Some(collected[C.CONTENT_TYPE]) else None)
      ensures unsetContentLength == IsEventStream(collected)
    {
      s := buffer;
      compress := None;
      connection := None;
      contentType := None;
      unsetContentLength := false;
      var todo := collected.Keys;
      visited := [];
      while todo != {}
        invariant todo <= collected.Keys
        invariant forall k :: k in visited ==> k in collected
        invariant forall k :: k in collected ==> (k in todo <==> k !in visited)
        invariant Distinct(visited)
        invariant s == buffer + Lines(UserFields(collected, visited))
        invariant compress == (if C.CONTENT_ENCODING in visited
                               then Some(caps.parseCompress(collected[C.CONTENT_ENCODING])) else None)
        invariant connection == (if C.CONNECTION in visited then Some(collected[C.CONNECTION]) else None)
        invariant contentType == (if C.CONTENT_TYPE in visited then Some(collected[C.CONTENT_TYPE]) else None)
        invariant unsetContentLength == (C.CONTENT_TYPE in visited
                                         && EqIgnoreAsciiCase(collected[C.CONTENT_TYPE], C.TEXT_EVENT_STREAM))
        decreases |todo|
      {
        var key :| key in todo;
        todo := todo - {key};
        VisitStep(buffer, collected, visited, key);
        visited := visited + [key];
        s, compress, connection, contentType, unsetContentLength :=
          VisitHeader(s, key, collected[key], caps, compress, connection, contentType, unsetContentLength);
      }
    }

    /** One turn of the loop of `build`: `content-length` is skipped, the
        other fields are written, and the ones `build` looks at are noted. */
    static method VisitHeader(buffer: string, key: string, value: string, caps: Capabilities,
                              compress0: Option<Compress>, connection0: Option<string>, contentType0: Option<string>,
                              unset0: bool)
      returns (s: string, compress: Option<Compress>, connection: Option<string>, contentType: Option<string>,
               unsetContentLength: bool)
      ensures s == buffer + (if key == C.CONTENT_LENGTH then [] else HeaderLine(key, value))
      ensures compress == (if key == C.CONTENT_ENCODING then Some(caps.parseCompress(value)) else compress0)
      ensures connection == (if key == C.CONNECTION then Some(value) else connection0)
      ensures contentType == (if key == C.CONTENT_TYPE then Some(value) else contentType0)
      ensures unsetContentLength
              == (if key == C.CONTENT_TYPE then EqIgnoreAsciiCase(value, C.TEXT_EVENT_STREAM) || unset0 else unset0)
    {
      s, compress, connection, contentType, unsetContentLength := buffer, compress0, connection0, contentType0, unset0;
      if key == C.CONTENT_LENGTH {
        assert s + [] == s;
        return;
      } else if key == C.CONTENT_ENCODING {
        compress := Some(caps.parseCompress(value));
      } else if key == C.CONNECTION {
        connection := Some(value);
      } else if key == C.CONTENT_TYPE {
        contentType := Some(value);
        if EqIgnoreAsciiCase(value, C.TEXT_EVENT_STREAM) {
          unsetContentLength := true;
        }
      }
      s := PushHeader(s, key, value);
    }

    /** The tail of `build` after the loop: a default `connection` and
        `content-type` where the map had none, then, unless the body is an
        event stream, the body encoded with a known compression scheme and its
        `content-length`. */
    static method WriteDefaults(buffer: string, collected: map<string, string>, body: seq<byte>, caps: Capabilities,
                                compress: Option<Compress>, connection: Option<string>, contentType: Option<string>,
                                unsetContentLength: bool)
      returns (s: string, finalBody: seq<byte>)
      requires compress == CompressOf(collected, caps)
      requires connection.None? <==> C.CONNECTION !in collected
      requires contentType.None? <==> C.CONTENT_TYPE !in collected
      requires unsetContentLength == IsEventStream(collected)
      ensures s == buffer + Lines(DefaultFields(collected, body, caps))
      ensures finalBody == FinalBody(collected, body, caps)
    {
      s := buffer;
      if connection.None? {
        s := PushHeader(s, C.CONNECTION, C.KEEP_ALIVE);
      }
      ghost var s1 := s;
      if contentType.None? {
        var ct := DefaultContentTypeString();
        s := PushHeader(s, C.CONTENT_TYPE, ct);
      }
      ghost var s2 := s;
      finalBody := body;
      if !unsetContentLength {
        finalBody := Compressed(body, compress, caps);
        var lenString := Decimal.NatToString(|finalBody|);
        s := PushHeader(s, C.CONTENT_LENGTH, lenString);
      }
      assert finalBody == FinalBody(collected, body, caps);
      AddedLines(buffer, s1, s2, s, collected, body, caps);
    }

    /** The default content type, assembled as `build` does. */
    static method DefaultContentTypeString() returns (ct: string)
      ensures ct == DefaultContentType()
    {
      ct := "";
      ct := ct + C.TEXT_HTML;
      ct := ct + C.SEMICOLON_SPACE;
      ct := ct + C.CHARSET_UTF_8;
      assert "" + C.TEXT_HTML == C.TEXT_HTML;
    }

    /** The body encoded with the scheme of `content-encoding` when that scheme
        is known, and unchanged otherwise. */
    static method Compressed(body: seq<byte>, compress: Option<Compress>, caps: Capabilities) returns (b: seq<byte>)
      ensures compress.Some? && compress.value.Known? ==> b == caps.encode(compress.value.tag, body)
      ensures compress.None? || compress.value.Unknown? ==> b == body
    {
      b := body;
      if compress.Some? {
        if !compress.value.IsUnknown() {
          b := caps.encode(compress.value.tag, b);
        }
      }
    }

    /** The user's field lines followed by the added ones are the lines of
        `Fields`. */
    static lemma HeadJoin(status: string, collected: map<string, string>, visited: seq<string>,
                          body: seq<byte>, caps: Capabilities)
      requires forall k :: k in visited ==> k in collected
      ensures status + Lines(UserFields(collected, visited)) + Lines(DefaultFields(collected, body, caps))
              == status + Lines(Fields(collected, visited, body, caps))
    {
      var user := UserFields(collected, visited);
      var added := DefaultFields(collected, body, caps);
      FieldsSplit(collected, visited, body, caps);
      LinesAppend(user, added);
      ConcatAssoc(status, Lines(user), Lines(added));
    }

    /** Three optional field lines appended in turn to `buffer` give the lines
        of the added fields. */
    static lemma AddedLines(buffer: string, s1: string, s2: string, s3: string,
                            collected: map<string, string>, body: seq<byte>, caps: Capabilities)
      requires s1 == buffer + (if C.CONNECTION in collected then "" else HeaderLine(C.CONNECTION, C.KEEP_ALIVE))
      requires s2 == s1 + (if C.CONTENT_TYPE in collected then "" else HeaderLine(C.CONTENT_TYPE, DefaultContentType()))
      requires s3 == s2 + (if IsEventStream(collected) then ""
                           else HeaderLine(C.CONTENT_LENGTH, Decimal.NatToString(|FinalBody(collected, body, caps)|)))
      ensures s3 == buffer + Lines(DefaultFields(collected, body, caps))
    {
      var a := if C.CONNECTION in collected then "" else HeaderLine(C.CONNECTION, C.KEEP_ALIVE);
      var b := if C.CONTENT_TYPE in collected then "" else HeaderLine(C.CONTENT_TYPE, DefaultContentType());
      var c := if IsEventStream(collected) then ""
               else HeaderLine(C.CONTENT_LENGTH, Decimal.NatToString(|FinalBody(collected, body, caps)|));
      DefaultFieldsLines(collected, body, caps);
      ConcatAssoc(buffer, a, b);
      ConcatAssoc(buffer, a + b, c);
    }

    /** `drain().map(lowercase key).collect()`: empties the header map into a
        new map keyed by the lowercased names, in the order `drained`. */
    method DrainLowercased() returns (collected: map<string, string>, ghost drained: seq<string>)
      modifies this
      ensures headers == map[]
      ensures version == old(version) && statusCode == old(statusCode)
      ensures reasonPhrase == old(reasonPhrase) && body == old(body)
      ensures IsEnumeration(drained, old(headers).Keys)
      ensures collected == Collect(old(headers), drained)
    {
      var h := headers;
      var rest := headers.Keys;
      collected := map[];
      drained := [];
      while rest != {}
        invariant unchanged(this)
        invariant rest <= h.Keys
        invariant forall k :: k in drained ==> k in h
        invariant forall k :: k in h ==> (k in rest <==> k !in drained)
        invariant Distinct(drained)
        invariant collected == Collect(h, drained)
        decreases |rest|
      {
        var k :| k in rest;
        DrainStep(h, drained, k);
        collected := collected[AsciiLower(k) := h[k]];
        rest := rest - {k};
        drained := drained + [k];
      }
      headers := map[];
    }

    /** One more drained entry: it overwrites whatever its lowercased key held. */
    static lemma DrainStep(h: map<string, string>, drained: seq<string>, k: string)
      requires forall j :: j in drained ==> j in h
      requires k in h && k !in drained && Distinct(drained)
      ensures forall j :: j in drained + [k] ==> j in h
      ensures Distinct(drained + [k])
      ensures Collect(h, drained + [k]) == Collect(h, drained)[AsciiLower(k) := h[k]]
    {
      assert (drained + [k])[..|drained|] == drained;
    }

    /** One more visited key adds its field line to the buffer, unless it is
        `content-length`. */
    static lemma VisitStep(buffer: string, collected: map<string, string>, visited: seq<string>, key: string)
      requires forall k :: k in visited ==> k in collected
      requires key in collected && key !in visited && Distinct(visited)
      ensures forall k :: k in visited + [key] <==> k in visited || k == key
      ensures forall k :: k in visited + [key] ==> k in collected
      ensures Distinct(visited + [key])
      ensures buffer + Lines(UserFields(collected, visited + [key]))
        == buffer + Lines(UserFields(collected, visited))
           + (if key == C.CONTENT_LENGTH then [] else HeaderLine(key, collected[key]))
    {
      assert (visited + [key])[..|visited|] == visited;
      var user := UserFields(collected, visited);
      if key == C.CONTENT_LENGTH {
        assert user + [] == user;
      } else {
        LinesSnoc(user, (key, collected[key]));
      }
    }
  }
}
