/** Lower-case hexadecimal text of a byte sequence (`hex::encode`), with the
    decoder that inverts it. */
module Hex {
  import opened Wrappers
  import opened Bytes

  const HEX_DIGITS: string := "0123456789abcdef"

  function NibbleValue(c: char): Option<nat> {
    if '0' <= c <= '9' then Some(c as int - '0' as int)
    else if 'a' <= c <= 'f' then Some(c as int - 'a' as int + 10)
    else None
  }

  /** `hex::encode`: two lower-case hex digits per byte, high nibble first. */
  function Encode(b: seq<byte>): (r: string)
    ensures |r| == 2 * |b|
  {
    if b == [] then []
    else [HEX_DIGITS[b[0] as int / 16], HEX_DIGITS[b[0] as int % 16]] + Encode(b[1..])
  }

  /** The inverse of `Encode`: fails on odd length or a character outside `HEX_DIGITS`. */
  function Decode(s: string): (r: Option<seq<byte>>)
    ensures r.Some? ==> 2 * |r.value| == |s|
    decreases |s|
  {
    if s == [] then Some([])
    else if |s| == 1 then None
    else
      match (NibbleValue(s[0]), NibbleValue(s[1]), Decode(s[2..]))
      case (Some(hi), Some(lo), Some(rest)) => Some([(hi * 16 + lo) as byte] + rest)
      case _ => None
  }

  lemma NibbleOfDigit(d: nat)
    requires d < 16
    ensures NibbleValue(HEX_DIGITS[d]) == Some(d)
  {
    if d < 10 {
      assert HEX_DIGITS[d] == ('0' as int + d) as char;
    } else {
      assert HEX_DIGITS[d] == ('a' as int + d - 10) as char;
    }
  }

  /** Hex-encoding loses nothing: decoding gives the bytes back. */
  lemma {:induction false} DecodeEncode(b: seq<byte>)
    ensures Decode(Encode(b)) == Some(b)
  {
    if b != [] {
      var x := b[0] as int;
      var hi, lo := x / 16, x % 16;
      NibbleOfDigit(hi);
      NibbleOfDigit(lo);
      DecodeEncode(b[1..]);
      DecodePair(HEX_DIGITS[hi], HEX_DIGITS[lo], Encode(b[1..]), hi, lo, b[1..]);
      assert [b[0]] + b[1..] == b;
    }
  }

  lemma DecodePair(d1: char, d2: char, t: string, hi: nat, lo: nat, rest: seq<byte>)
    requires NibbleValue(d1) == Some(hi) && NibbleValue(d2) == Some(lo) && hi < 16 && lo < 16
    requires Decode(t) == Some(rest)
    ensures Decode([d1, d2] + t) == Some([(hi * 16 + lo) as byte] + rest)
  {
    var s := [d1, d2] + t;
    assert s[0] == d1 && s[1] == d2 && s[2..] == t;
  }
}
