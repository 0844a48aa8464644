/** UTF-8, the encoding of Rust's `String`: `String::into_bytes` on the
    response side and the validation `BufRead::read_line` performs on the
    request side. */
module Utf8 {
  import opened Wrappers
  import opened Bytes

  predicate IsScalar(n: int) {
    (0 <= n < 0xD800) || (0xE000 <= n < 0x11_0000)
  }

  /** The one to four bytes that encode `c`. */
  function EncodeChar(c: char): (r: seq<byte>)
    ensures 1 <= |r| <= 4
  {
    var n := c as int;
    if n < 0x80 then [n as byte]
    else if n < 0x800 then [(0xC0 + n / 0x40) as byte, (0x80 + n % 0x40) as byte]
    else if n < 0x1_0000 then
      [(0xE0 + n / 0x1000) as byte, (0x80 + n / 0x40 % 0x40) as byte, (0x80 + n % 0x40) as byte]
    else
      [(0xF0 + n / 0x4_0000) as byte, (0x80 + n / 0x1000 % 0x40) as byte,
       (0x80 + n / 0x40 % 0x40) as byte, (0x80 + n % 0x40) as byte]
  }

  /** `String::into_bytes` / `str::as_bytes` */
  function Encode(s: string): (r: seq<byte>)
    ensures |r| >= |s|
  {
    if s == [] then [] else EncodeChar(s[0]) + Encode(s[1..])
  }

  /** The length of the sequence a lead byte announces; 0 for a byte that
      cannot start one. */
  function SequenceLength(b0: byte): nat {
    if b0 < 0x80 then 1
    else if 0xC0 <= b0 < 0xE0 then 2
    else if 0xE0 <= b0 < 0xF0 then 3
    else if 0xF0 <= b0 < 0xF8 then 4
    else 0
  }

  /** The code point the payload bits of `b` spell, before any validity check. */
  function PayloadOf(b: seq<byte>): int
    requires 1 <= |b| <= 4
  {
    if |b| == 1 then b[0] as int
    else if |b| == 2 then (b[0] as int - 0xC0) * 0x40 + b[1] as int % 0x40
    else if |b| == 3 then
      (b[0] as int - 0xE0) * 0x1000 + b[1] as int % 0x40 * 0x40 + b[2] as int % 0x40
    else
      (b[0] as int - 0xF0) * 0x4_0000 + b[1] as int % 0x40 * 0x1000
        + b[2] as int % 0x40 * 0x40 + b[3] as int % 0x40
  }

  /** Decodes the bytes of exactly one character. A sequence is accepted only
      when it is the encoding of the character it spells, which rules out
      overlong forms, surrogates, bad continuation bytes and values past U+10FFFF. */
  function DecodeChar(b: seq<byte>): (r: Option<char>)
    requires 1 <= |b| <= 4
    ensures r.Some? ==> EncodeChar(r.value) == b
  {
    var n := PayloadOf(b);
    if IsScalar(n) && EncodeChar(n as char) == b then Some(n as char) else None
  }

  /** UTF-8 validation and decoding (`str::from_utf8`); `None` for invalid input. */
  function Decode(b: seq<byte>): (r: Option<string>)
    ensures r.Some? ==> Encode(r.value) == b
    decreases |b|
  {
    if b == [] then Some([])
    else
      var k := SequenceLength(b[0]);
      if k == 0 || k > |b| then None
      else
        match (DecodeChar(b[..k]), Decode(b[k..]))
        case (Some(c), Some(rest)) =>
          assert b == b[..k] + b[k..];
          Some([c] + rest)
        case _ => None
  }

  lemma {:induction false} EncodeConcat(a: string, b: string)
    ensures Encode(a + b) == Encode(a) + Encode(b)
  {
    if a != [] {
      assert (a + b)[0] == a[0] && (a + b)[1..] == a[1..] + b;
      EncodeConcat(a[1..], b);
      assert Encode(a + b) == EncodeChar(a[0]) + (Encode(a[1..]) + Encode(b));
    } else {
      assert a + b == b;
    }
  }

  lemma LeadByteAnnouncesLength(c: char)
    ensures SequenceLength(EncodeChar(c)[0]) == |EncodeChar(c)|
  {
  }

  lemma PayloadOfEncodeChar(c: char)
    ensures PayloadOf(EncodeChar(c)) == c as int
  {
    var n := c as int;
    if n < 0x80 {
    } else if n < 0x800 {
      PayloadOfTwo(n);
    } else if n < 0x1_0000 {
      PayloadOfThree(n);
    } else {
      PayloadOfFour(n);
    }
  }

  lemma PayloadOfTwo(n: int)
    requires 0x80 <= n < 0x800
    ensures PayloadOf([(0xC0 + n / 0x40) as byte, (0x80 + n % 0x40) as byte]) == n
  {
    var lo := n % 0x40;
    assert (0x80 + lo) % 0x40 == lo;
  }

  lemma PayloadOfThree(n: int)
    requires 0x800 <= n < 0x1_0000
    ensures PayloadOf([(0xE0 + n / 0x1000) as byte, (0x80 + n / 0x40 % 0x40) as byte, (0x80 + n % 0x40) as byte]) == n
  {
    var hi := n / 0x1000;
    var mid := n / 0x40 % 0x40;
    var lo := n % 0x40;
    assert n / 0x40 == hi * 0x40 + mid;
    assert n == n / 0x40 * 0x40 + lo;
    assert (0x80 + mid) % 0x40 == mid;
    assert (0x80 + lo) % 0x40 == lo;
  }

  lemma PayloadOfFour(n: int)
    requires 0x1_0000 <= n < 0x11_0000
    ensures PayloadOf([(0xF0 + n / 0x4_0000) as byte, (0x80 + n / 0x1000 % 0x40) as byte,
                       (0x80 + n / 0x40 % 0x40) as byte, (0x80 + n % 0x40) as byte]) == n
  {
    var top := n / 0x4_0000;
    var hi := n / 0x1000 % 0x40;
    var mid := n / 0x40 % 0x40;
    var lo := n % 0x40;
    assert n / 0x1000 == top * 0x40 + hi;
    assert n / 0x40 == n / 0x1000 * 0x40 + mid;
    assert n == n / 0x40 * 0x40 + lo;
    assert (0x80 + hi) % 0x40 == hi;
    assert (0x80 + mid) % 0x40 == mid;
    assert (0x80 + lo) % 0x40 == lo;
  }

  lemma DecodeEncodeChar(c: char)
    ensures DecodeChar(EncodeChar(c)) == Some(c)
  {
    PayloadOfEncodeChar(c);
  }

  /** Every string survives encoding: decoding its bytes gives it back, so the
      encoding is injective and `Decode` accepts exactly the encodings. */
  lemma {:induction false} DecodeEncode(s: string)
    ensures Decode(Encode(s)) == Some(s)
  {
    if s != [] {
      var e := Encode(s);
      var head := EncodeChar(s[0]);
      LeadByteAnnouncesLength(s[0]);
      DecodeEncodeChar(s[0]);
      assert e[..|head|] == head && e[|head|..] == Encode(s[1..]);
      DecodeEncode(s[1..]);
      assert [s[0]] + s[1..] == s;
    }
  }

  /** The byte 10 (line feed) appears in the encoding exactly where the
      character `\n` appears: every byte of a multi-byte sequence is at least
      0x80. A line reader that stops at byte 10 therefore stops at `\n`. */
  lemma {:induction false} LineFeedInEncode(s: string)
    ensures LF in Encode(s) <==> '\n' in s
  {
    if s != [] {
      LineFeedInEncode(s[1..]);
      var head := EncodeChar(s[0]);
      assert LF in head <==> s[0] == '\n';
      assert Encode(s) == head + Encode(s[1..]);
      assert '\n' in s <==> s[0] == '\n' || '\n' in s[1..];
    }
  }
}
