/** What `Response::build` writes, as functions of the response's fields and
    of the two orders the header map is visited in: the order `drain` hands the
    original entries over (which decides which of several keys that differ only
    in case survives) and the order the lowercased map is iterated in (which
    decides the order of the field lines). The lemmas hold for every pair of
    orders. */
module ResponseWire {
  import opened Wrappers
  import opened Bytes
  import opened Text
  import Utf8
  import Decimal
  import HttpVersions
  import C = Constants

  /** `http_compress::Compress` is not part of this model. A scheme that parses
      is known by an uninterpreted tag; text that does not parse becomes
      `Unknown`, the `Default` that `unwrap_or_default` falls back to. */
  datatype Compress = Known(tag: nat) | Unknown {
    predicate IsUnknown() {
      Unknown?
    }
  }

  /** The calls `build` makes into code this model does not include:
      `HttpStatus::phrase`, `str::parse::<Compress>().unwrap_or_default()` and
      `Compress::encode` with the default buffer size. */
  datatype Capabilities = Capabilities(
    phrase: nat -> string,
    parseCompress: string -> Compress,
    encode: (nat, seq<byte>) -> seq<byte>)

  /** One field line: `key: value` and CRLF. */
  function HeaderLine(key: string, value: string): string {
    key + C.COLON_SPACE + value + C.HTTP_BR
  }

  /** The status line: version, status code and reason phrase separated by
      single spaces, then CRLF. */
  function StatusLine(version: HttpVersions.HttpVersion, code: nat, reason: string): string {
    HttpVersions.ToString(version) + C.SPACE + Decimal.NatToString(code) + C.SPACE + reason + C.HTTP_BR
  }

  /** The field lines for a sequence of (name, value) pairs, in order. */
  function Lines(fields: seq<(string, string)>): string {
    if fields == [] then []
    else Lines(fields[..|fields| - 1]) + HeaderLine(fields[|fields| - 1].0, fields[|fields| - 1].1)
  }

  /** How many of the fields carry the name `key`. */
  function Count(fields: seq<(string, string)>, key: string): nat {
    if fields == [] then 0
    else Count(fields[..|fields| - 1], key) + (if fields[|fields| - 1].0 == key then 1 else 0)
  }

  predicate Distinct(order: seq<string>) {
    forall i, j :: 0 <= i < j < |order| ==> order[i] != order[j]
  }

  /** `order` lists every key of the set once: an iteration order of a map. */
  ghost predicate IsEnumeration(order: seq<string>, keys: set<string>) {
    Distinct(order) && forall k :: k in order <==> k in keys
  }

  // ---------------------------------------------------------------------------
  // Draining and lowercasing the header map

  /** The map `drain().map(lowercase key).collect()` builds when the entries
      come out of `h` in `order`: a later entry overwrites an earlier one
      whose key lowercases the same. */
  function Collect(h: map<string, string>, order: seq<string>): map<string, string>
    requires forall k :: k in order ==> k in h
  {
    if order == [] then map[]
    else
      var k := order[|order| - 1];
      Collect(h, order[..|order| - 1])[AsciiLower(k) := h[k]]
  }

  /** `order[i]` is the last key in `order` that lowercases to `key`. */
  predicate LastLowering(order: seq<string>, i: int, key: string) {
    0 <= i < |order| && AsciiLower(order[i]) == key &&
    forall j :: i < j < |order| ==> AsciiLower(order[j]) != key
  }

  // ---------------------------------------------------------------------------
  // The field lines

  /** The user's field lines in iteration order: every key of the collected
      map except `content-length`, with its value. */
  function UserFields(collected: map<string, string>, order: seq<string>): seq<(string, string)>
    requires forall k :: k in order ==> k in collected
  {
    if order == [] then []
    else
      var k := order[|order| - 1];
      UserFields(collected, order[..|order| - 1]) + (if k == C.CONTENT_LENGTH then [] else [(k, collected[k])])
  }

  /** A content type equal to `text/event-stream` up to ASCII case: the body is
      then sent as is and without a length. */
  predicate IsEventStream(collected: map<string, string>) {
    C.CONTENT_TYPE in collected && EqIgnoreAsciiCase(collected[C.CONTENT_TYPE], C.TEXT_EVENT_STREAM)
  }

  /** The scheme named by a `content-encoding` field, if there is one. */
  function CompressOf(collected: map<string, string>, caps: Capabilities): Option<Compress> {
    if C.CONTENT_ENCODING in collected then Some(caps.parseCompress(collected[C.CONTENT_ENCODING])) else None
  }

  /** The body that goes on the wire: encoded with a known scheme unless the
      response is an event stream, otherwise unchanged. */
  function FinalBody(collected: map<string, string>, body: seq<byte>, caps: Capabilities): seq<byte> {
    var c := CompressOf(collected, caps);
    if !IsEventStream(collected) && c.Some? && !c.value.IsUnknown() then caps.encode(c.value.tag, body)
    else body
  }

  /** `text/html; charset=utf-8` */
  function DefaultContentType(): string {
    C.TEXT_HTML + C.SEMICOLON_SPACE + C.CHARSET_UTF_8
  }

  /** Every field line `build` writes, in order: the user's, then the
      defaults for a missing `connection` and `content-type`, then the
      recomputed `content-length` unless the body is an event stream. */
  function Fields(collected: map<string, string>, order: seq<string>, body: seq<byte>, caps: Capabilities): seq<(string, string)>
    requires forall k :: k in order ==> k in collected
  {
    UserFields(collected, order)
    + (if C.CONNECTION in collected then [] else [(C.CONNECTION, C.KEEP_ALIVE)])
    + (if C.CONTENT_TYPE in collected then [] else [(C.CONTENT_TYPE, DefaultContentType())])
    + (if IsEventStream(collected) then []
       else [(C.CONTENT_LENGTH, Decimal.NatToString(|FinalBody(collected, body, caps)|))])
  }

  /** The field lines `build` adds after the user's: the defaults for a
      missing `connection` and `content-type`, then `content-length` unless
      the body is an event stream. */
  function DefaultFields(collected: map<string, string>, body: seq<byte>, caps: Capabilities): seq<(string, string)> {
    (if C.CONNECTION in collected then [] else [(C.CONNECTION, C.KEEP_ALIVE)])
    + (if C.CONTENT_TYPE in collected then [] else [(C.CONTENT_TYPE, DefaultContentType())])
    + (if IsEventStream(collected) then []
       else [(C.CONTENT_LENGTH, Decimal.NatToString(|FinalBody(collected, body, caps)|))])
  }

  /** The lines of the added fields, one optional line after another. */
  lemma DefaultFieldsLines(collected: map<string, string>, body: seq<byte>, caps: Capabilities)
    ensures Lines(DefaultFields(collected, body, caps))
      == (if C.CONNECTION in collected then "" else HeaderLine(C.CONNECTION, C.KEEP_ALIVE))
         + (if C.CONTENT_TYPE in collected then "" else HeaderLine(C.CONTENT_TYPE, DefaultContentType()))
         + (if IsEventStream(collected) then ""
            else HeaderLine(C.CONTENT_LENGTH, Decimal.NatToString(|FinalBody(collected, body, caps)|)))
  {
    var a: seq<(string, string)> := if C.CONNECTION in collected then [] else [(C.CONNECTION, C.KEEP_ALIVE)];
    var b: seq<(string, string)> := if C.CONTENT_TYPE in collected then [] else [(C.CONTENT_TYPE, DefaultContentType())];
    var c: seq<(string, string)> := if IsEventStream(collected) then []
      else [(C.CONTENT_LENGTH, Decimal.NatToString(|FinalBody(collected, body, caps)|))];
    LinesAppend(a + b, c);
    LinesAppend(a, b);
    LinesOfAtMostOne(a);
    LinesOfAtMostOne(b);
    LinesOfAtMostOne(c);
  }

  lemma LinesOfAtMostOne(fields: seq<(string, string)>)
    requires |fields| <= 1
    ensures Lines(fields) == if fields == [] then "" else HeaderLine(fields[0].0, fields[0].1)
  {
    if fields != [] {
      assert fields[..0] == [];
      assert [] + HeaderLine(fields[0].0, fields[0].1) == HeaderLine(fields[0].0, fields[0].1);
    }
  }

  lemma FieldsSplit(collected: map<string, string>, order: seq<string>, body: seq<byte>, caps: Capabilities)
    requires forall k :: k in order ==> k in collected
    ensures Fields(collected, order, body, caps) == UserFields(collected, order) + DefaultFields(collected, body, caps)
  {
  }

  /** The whole message: the head as UTF-8, then the final body. */
  function Wire(version: HttpVersions.HttpVersion, code: nat, reason: string, collected: map<string, string>,
                order: seq<string>, body: seq<byte>, caps: Capabilities): seq<byte>
    requires forall k :: k in order ==> k in collected
  {
    Utf8.Encode(StatusLine(version, code, reason) + Lines(Fields(collected, order, body, caps)) + C.HTTP_BR)
    + FinalBody(collected, body, caps)
  }

  // ---------------------------------------------------------------------------
  // Lemmas: lines and counts

  lemma {:induction false} LinesAppend(a: seq<(string, string)>, b: seq<(string, string)>)
    ensures Lines(a + b) == Lines(a) + Lines(b)
    decreases |b|
  {
    if b == [] {
      assert a + b == a;
    } else {
      var b' := b[..|b| - 1];
      var last := b[|b| - 1];
      assert (a + b)[..|a + b| - 1] == a + b';
      assert (a + b)[|a + b| - 1] == last;
      assert Lines(a + b) == Lines(a + b') + HeaderLine(last.0, last.1);
      LinesAppend(a, b');
      ConcatAssoc(Lines(a), Lines(b'), HeaderLine(last.0, last.1));
    }
  }

  lemma LinesSnoc(fields: seq<(string, string)>, f: (string, string))
    ensures Lines(fields + [f]) == Lines(fields) + HeaderLine(f.0, f.1)
  {
    assert (fields + [f])[..|fields|] == fields;
  }

  lemma {:induction false} CountAppend(a: seq<(string, string)>, b: seq<(string, string)>, key: string)
    ensures Count(a + b, key) == Count(a, key) + Count(b, key)
    decreases |b|
  {
    if b == [] {
      assert a + b == a;
    } else {
      var b' := b[..|b| - 1];
      assert (a + b)[..|a + b| - 1] == a + b';
      CountAppend(a, b', key);
    }
  }

  /** A name no field carries has count zero, and a name has count zero only then. */
  lemma {:induction false} CountZero(fields: seq<(string, string)>, key: string)
    ensures Count(fields, key) == 0 <==> forall f :: f in fields ==> f.0 != key
  {
    if fields != [] {
      var init := fields[..|fields| - 1];
      CountZero(init, key);
      assert fields == init + [fields[|fields| - 1]];
    }
  }

  // ---------------------------------------------------------------------------
  // Lemmas: the collected map

  /** The collected keys are exactly the lowercased original keys: keys that
      differ only in ASCII case collapse into one, and every collected key is
      lower case. */
  lemma {:induction false} CollectKeys(h: map<string, string>, order: seq<string>)
    requires forall k :: k in order ==> k in h
    ensures forall key :: key in Collect(h, order) <==> exists k :: k in order && AsciiLower(k) == key
    ensures forall key :: key in Collect(h, order) ==> IsAsciiLower(key)
  {
    if order != [] {
      var init := order[..|order| - 1];
      var last := order[|order| - 1];
      assert forall k :: k in init ==> k in order;
      CollectKeys(h, init);
      forall key | key in Collect(h, order)
        ensures exists k :: k in order && AsciiLower(k) == key
      {
        if key != AsciiLower(last) {
          assert key in Collect(h, init);
          var k :| k in init && AsciiLower(k) == key;
          assert k in order;
        }
      }
      forall key | exists k :: k in order && AsciiLower(k) == key
        ensures key in Collect(h, order)
      {
        var k :| k in order && AsciiLower(k) == key;
        if k != last {
          var i :| 0 <= i < |order| && order[i] == k;
          assert k == init[i];
        }
      }
    }
  }

  /** The value under a collected key is the value of the last original key,
      in drain order, that lowercases to it. */
  lemma {:induction false} CollectValues(h: map<string, string>, order: seq<string>, i: int, key: string)
    requires forall k :: k in order ==> k in h
    requires LastLowering(order, i, key)
    ensures key in Collect(h, order) && Collect(h, order)[key] == h[order[i]]
  {
    var init := order[..|order| - 1];
    if i < |order| - 1 {
      assert forall k :: k in init ==> k in order;
      assert LastLowering(init, i, key);
      CollectValues(h, init, i, key);
    }
  }

  /** Every original key has a last entry that lowercases like it. */
  lemma LastLoweringExists(order: seq<string>, k: string) returns (i: int)
    requires k in order
    ensures LastLowering(order, i, AsciiLower(k))
  {
    var n := |order| - 1;
    while AsciiLower(order[n]) != AsciiLower(k)
      invariant 0 <= n < |order|
      invariant exists j :: 0 <= j <= n && AsciiLower(order[j]) == AsciiLower(k)
      invariant forall j :: n < j < |order| ==> AsciiLower(order[j]) != AsciiLower(k)
      decreases n
    {
      n := n - 1;
    }
    i := n;
  }

  // ---------------------------------------------------------------------------
  // Lemmas: the field lines

  /** Each collected key other than `content-length` gives exactly one user
      field, `content-length` none. */
  lemma {:induction false} UserFieldsCount(collected: map<string, string>, order: seq<string>, key: string)
    requires forall k :: k in order ==> k in collected
    requires Distinct(order)
    ensures Count(UserFields(collected, order), key) == (if key in order && key != C.CONTENT_LENGTH then 1 else 0)
  {
    if order != [] {
      var init := order[..|order| - 1];
      var last := order[|order| - 1];
      assert forall k :: k in init ==> k in order;
      assert Distinct(init);
      UserFieldsCount(collected, init, key);
      var tail: seq<(string, string)> := if last == C.CONTENT_LENGTH then [] else [(last, collected[last])];
      CountAppend(UserFields(collected, init), tail, key);
      CountOfAtMostOne(tail, key);
      assert last !in init;
      assert key in order <==> key in init || key == last;
    }
  }

  /** A user field carries a collected key other than `content-length`, with
      the collected value. */
  lemma {:induction false} UserFieldsContent(collected: map<string, string>, order: seq<string>)
    requires forall k :: k in order ==> k in collected
    ensures forall f :: f in UserFields(collected, order) ==>
      f.0 != C.CONTENT_LENGTH && f.0 in collected && f.1 == collected[f.0]
  {
    if order != [] {
      var init := order[..|order| - 1];
      assert forall k :: k in init ==> k in order;
      UserFieldsContent(collected, init);
    }
  }

  /** The names of the fields `build` writes: the user's, then the defaults,
      then the recomputed length. */
  lemma FieldsCount(collected: map<string, string>, order: seq<string>, body: seq<byte>, caps: Capabilities, key: string)
    requires forall k :: k in order ==> k in collected
    ensures Count(Fields(collected, order, body, caps), key)
      == Count(UserFields(collected, order), key)
         + (if key == C.CONNECTION && C.CONNECTION !in collected then 1 else 0)
         + (if key == C.CONTENT_TYPE && C.CONTENT_TYPE !in collected then 1 else 0)
         + (if key == C.CONTENT_LENGTH && !IsEventStream(collected) then 1 else 0)
  {
    var user := UserFields(collected, order);
    var conn: seq<(string, string)> := if C.CONNECTION in collected then [] else [(C.CONNECTION, C.KEEP_ALIVE)];
    var ct: seq<(string, string)> := if C.CONTENT_TYPE in collected then [] else [(C.CONTENT_TYPE, DefaultContentType())];
    var cl: seq<(string, string)> := if IsEventStream(collected) then []
      else [(C.CONTENT_LENGTH, Decimal.NatToString(|FinalBody(collected, body, caps)|))];
    CountFour(user, conn, ct, cl, key);
    CountOfAtMostOne(conn, key);
    CountOfAtMostOne(ct, key);
    CountOfAtMostOne(cl, key);
  }

  /** The fields `build` writes, as a set of pairs. */
  lemma FieldsMembers(collected: map<string, string>, order: seq<string>, body: seq<byte>, caps: Capabilities)
    requires forall k :: k in order ==> k in collected
    ensures forall f :: f in Fields(collected, order, body, caps) <==>
      || f in UserFields(collected, order)
      || (C.CONNECTION !in collected && f == (C.CONNECTION, C.KEEP_ALIVE))
      || (C.CONTENT_TYPE !in collected && f == (C.CONTENT_TYPE, DefaultContentType()))
      || (!IsEventStream(collected) && f == (C.CONTENT_LENGTH, Decimal.NatToString(|FinalBody(collected, body, caps)|)))
  {
  }

  /** A collected key that is not `content-length` is among the user fields. */
  lemma UserFieldPresent(collected: map<string, string>, order: seq<string>, key: string)
    requires IsEnumeration(order, collected.Keys)
    requires key in collected && key != C.CONTENT_LENGTH
    ensures (key, collected[key]) in UserFields(collected, order)
  {
    UserFieldsCount(collected, order, key);
    CountZero(UserFields(collected, order), key);
    UserFieldsContent(collected, order);
    var f :| f in UserFields(collected, order) && f.0 == key;
  }

  /** Among the field lines `build` pushes, `connection` appears exactly once:
      the user's value when one was set,
      `keep-alive` otherwise. */
  lemma ConnectionField(collected: map<string, string>, order: seq<string>, body: seq<byte>, caps: Capabilities)
    requires IsEnumeration(order, collected.Keys)
    ensures var fields := Fields(collected, order, body, caps);
      Count(fields, C.CONNECTION) == 1 &&
      (C.CONNECTION !in collected ==> (C.CONNECTION, C.KEEP_ALIVE) in fields) &&
      (C.CONNECTION in collected ==> (C.CONNECTION, collected[C.CONNECTION]) in fields)
  {
    FieldsCount(collected, order, body, caps, C.CONNECTION);
    UserFieldsCount(collected, order, C.CONNECTION);
    FieldsMembers(collected, order, body, caps);
    if C.CONNECTION in collected {
      UserFieldPresent(collected, order, C.CONNECTION);
    }
  }

  /** Among the field lines `build` pushes, `content-type` appears exactly once:
      the user's value when one was set,
      `text/html; charset=utf-8` otherwise. */
  lemma ContentTypeField(collected: map<string, string>, order: seq<string>, body: seq<byte>, caps: Capabilities)
    requires IsEnumeration(order, collected.Keys)
    ensures var fields := Fields(collected, order, body, caps);
      Count(fields, C.CONTENT_TYPE) == 1 &&
      (C.CONTENT_TYPE !in collected ==> (C.CONTENT_TYPE, DefaultContentType()) in fields) &&
      (C.CONTENT_TYPE in collected ==> (C.CONTENT_TYPE, collected[C.CONTENT_TYPE]) in fields)
  {
    FieldsCount(collected, order, body, caps, C.CONTENT_TYPE);
    UserFieldsCount(collected, order, C.CONTENT_TYPE);
    FieldsMembers(collected, order, body, caps);
    if C.CONTENT_TYPE in collected {
      UserFieldPresent(collected, order, C.CONTENT_TYPE);
    }
  }

  /** Among the field lines `build` pushes, `content-length` appears once,
      carrying the length of the final body, unless the body is an event
      stream; then it does not appear at all. No field line `build` pushes
      carries a user's own `content-length`. */
  lemma ContentLengthField(collected: map<string, string>, order: seq<string>, body: seq<byte>, caps: Capabilities)
    requires IsEnumeration(order, collected.Keys)
    ensures var fields := Fields(collected, order, body, caps);
      Count(fields, C.CONTENT_LENGTH) == (if IsEventStream(collected) then 0 else 1) &&
      forall f :: f in fields && f.0 == C.CONTENT_LENGTH ==>
        f.1 == Decimal.NatToString(|FinalBody(collected, body, caps)|)
  {
    FieldsCount(collected, order, body, caps, C.CONTENT_LENGTH);
    UserFieldsCount(collected, order, C.CONTENT_LENGTH);
    FieldsMembers(collected, order, body, caps);
    UserFieldsContent(collected, order);
  }

  /** Every user header is pushed as exactly one field line, under its lowercased
      name, unless that name is `content-length`; its value is the one of the
      last original key, in drain order, with that lowercased name. */
  lemma UserHeaderOnce(h: map<string, string>, drained: seq<string>, visited: seq<string>,
                       body: seq<byte>, caps: Capabilities, k: string)
    requires IsEnumeration(drained, h.Keys)
    requires IsEnumeration(visited, Collect(h, drained).Keys)
    requires k in h && AsciiLower(k) != C.CONTENT_LENGTH
    ensures var collected := Collect(h, drained);
      var fields := Fields(collected, visited, body, caps);
      var key := AsciiLower(k);
      Count(fields, key) == 1 &&
      exists i :: LastLowering(drained, i, key) && (key, h[drained[i]]) in fields
  {
    var collected := Collect(h, drained);
    var key := AsciiLower(k);
    var i := LastLoweringExists(drained, k);
    CollectValues(h, drained, i, key);
    FieldsCount(collected, visited, body, caps, key);
    UserFieldsCount(collected, visited, key);
    FieldsMembers(collected, visited, body, caps);
    UserFieldPresent(collected, visited, key);
  }

  lemma CountFour(a: seq<(string, string)>, b: seq<(string, string)>, c: seq<(string, string)>,
                  d: seq<(string, string)>, key: string)
    ensures Count(a + b + c + d, key) == Count(a, key) + Count(b, key) + Count(c, key) + Count(d, key)
  {
    CountAppend(a, b, key);
    CountAppend(a + b, c, key);
    CountAppend(a + b + c, d, key);
  }

  lemma CountOfAtMostOne(fields: seq<(string, string)>, key: string)
    requires |fields| <= 1
    ensures Count(fields, key) == (if fields != [] && fields[0].0 == key then 1 else 0)
  {
    if fields != [] {
      assert fields[..0] == [];
    }
  }

  // ---------------------------------------------------------------------------
  // Lemmas: the body and the message as a whole

  /** The body is encoded only with a known scheme named by `content-encoding`,
      and never for an event stream. */
  lemma FinalBodyCases(collected: map<string, string>, body: seq<byte>, caps: Capabilities)
    ensures IsEventStream(collected) ==> FinalBody(collected, body, caps) == body
    ensures C.CONTENT_ENCODING !in collected ==> FinalBody(collected, body, caps) == body
    ensures C.CONTENT_ENCODING in collected && caps.parseCompress(collected[C.CONTENT_ENCODING]).IsUnknown()
      ==> FinalBody(collected, body, caps) == body
    ensures !IsEventStream(collected) && C.CONTENT_ENCODING in collected
      && !caps.parseCompress(collected[C.CONTENT_ENCODING]).IsUnknown()
      ==> FinalBody(collected, body, caps)
          == caps.encode(caps.parseCompress(collected[C.CONTENT_ENCODING]).tag, body)
  {
  }

  /** The message is the status line, the field lines and an empty line, all
      as UTF-8, followed by the final body. */
  lemma WireLayout(version: HttpVersions.HttpVersion, code: nat, reason: string, collected: map<string, string>,
                   order: seq<string>, body: seq<byte>, caps: Capabilities)
    requires forall k :: k in order ==> k in collected
    ensures Wire(version, code, reason, collected, order, body, caps)
      == Utf8.Encode(StatusLine(version, code, reason)) + Utf8.Encode(Lines(Fields(collected, order, body, caps)))
         + Utf8.Encode(C.HTTP_BR) + FinalBody(collected, body, caps)
  {
    var status := StatusLine(version, code, reason);
    var lines := Lines(Fields(collected, order, body, caps));
    Utf8.EncodeConcat(status + lines, C.HTTP_BR);
    Utf8.EncodeConcat(status, lines);
  }
}
