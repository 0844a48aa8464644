/** The string primitives of Rust's `str` that the core relies on: Unicode
    whitespace (`char::is_whitespace`, `trim`, `split_whitespace`), searching
    (`find`, `splitn(2, pat)`) and ASCII case handling (`to_ascii_lowercase`,
    `eq_ignore_ascii_case`). */
module Text {
  import opened Wrappers

  /** `char::is_whitespace`: the code points with the Unicode White_Space property. */
  predicate IsWhitespace(c: char) {
    || ('\t' <= c <= '\r')
    || c == ' '
    || c == '\U{85}'
    || c == '\U{A0}'
    || c == '\U{1680}'
    || ('\U{2000}' <= c <= '\U{200A}')
    || c == '\U{2028}'
    || c == '\U{2029}'
    || c == '\U{202F}'
    || c == '\U{205F}'
    || c == '\U{3000}'
  }

  predicate AllWhitespace(s: string) {
    forall i :: 0 <= i < |s| ==> IsWhitespace(s[i])
  }

  /** A non-empty run of characters none of which is whitespace. */
  predicate IsToken(s: string) {
    s != [] && forall i :: 0 <= i < |s| ==> !IsWhitespace(s[i])
  }

  lemma AllWhitespaceConcat(a: string, b: string)
    requires AllWhitespace(a) && AllWhitespace(b)
    ensures AllWhitespace(a + b)
  {
  }

  /** `str::trim_start`: drops the leading whitespace and nothing else. */
  function TrimStart(s: string): (r: string)
    ensures |r| <= |s| && r == s[|s| - |r|..]
    ensures AllWhitespace(s[..|s| - |r|])
    ensures r == [] || !IsWhitespace(r[0])
    decreases |s|
  {
    if s != [] && IsWhitespace(s[0]) then
      var r := TrimStart(s[1..]);
      assert s[1..][|s| - 1 - |r|..] == s[|s| - |r|..];
      assert s[..|s| - |r|] == [s[0]] + s[1..][..|s| - 1 - |r|];
      AllWhitespaceConcat([s[0]], s[1..][..|s| - 1 - |r|]);
      r
    else s
  }

  /** `str::trim_end`: drops the trailing whitespace and nothing else. */
  function TrimEnd(s: string): (r: string)
    ensures |r| <= |s| && r == s[..|r|]
    ensures AllWhitespace(s[|r|..])
    ensures r == [] || !IsWhitespace(r[|r| - 1])
    decreases |s|
  {
    if s != [] && IsWhitespace(s[|s| - 1]) then
      var init := s[..|s| - 1];
      var r := TrimEnd(init);
      assert init[..|r|] == s[..|r|];
      assert s[|r|..] == init[|r|..] + [s[|s| - 1]];
      AllWhitespaceConcat(init[|r|..], [s[|s| - 1]]);
      r
    else s
  }

  /** The number of whitespace characters `trim_start` drops from `s`. */
  function LeadingWhitespace(s: string): (n: nat)
    ensures n <= |s| && AllWhitespace(s[..n])
    ensures n == |s| || !IsWhitespace(s[n])
  {
    |s| - |TrimStart(s)|
  }

  /** `str::trim`: the slice of `s` that starts after its leading whitespace
      and leaves only whitespace after it; it is empty only when `s` is all
      whitespace. */
  function Trim(s: string): (r: string)
    ensures |r| <= |s|
    ensures r == [] || (!IsWhitespace(r[0]) && !IsWhitespace(r[|r| - 1]))
    ensures r == [] ==> AllWhitespace(s)
    ensures LeadingWhitespace(s) + |r| <= |s|
    ensures r == s[LeadingWhitespace(s)..LeadingWhitespace(s) + |r|]
    ensures AllWhitespace(s[LeadingWhitespace(s) + |r|..])
  {
    var t := TrimStart(s);
    var r := TrimEnd(t);
    TrimSlice(s, t, r);
    r
  }

  /** Trimming the start and then the end keeps a middle slice of `s`. */
  lemma TrimSlice(s: string, t: string, r: string)
    requires |t| <= |s| && t == s[|s| - |t|..] && AllWhitespace(s[..|s| - |t|])
    requires |r| <= |t| && r == t[..|r|] && AllWhitespace(t[|r|..])
    ensures r == [] ==> AllWhitespace(s)
    ensures r == s[|s| - |t|..|s| - |t| + |r|]
    ensures AllWhitespace(s[|s| - |t| + |r|..])
  {
    var i := |s| - |t|;
    assert s[i + |r|..] == t[|r|..];
    if r == [] {
      assert t[|r|..] == t;
      assert s == s[..i] + t;
      AllWhitespaceConcat(s[..i], t);
    }
  }

  /** Whitespace after a trimmed string is dropped by `trim`. */
  lemma TrimTrailingWhitespace(s: string, w: string)
    requires s != [] && !IsWhitespace(s[0]) && !IsWhitespace(s[|s| - 1])
    requires AllWhitespace(w)
    ensures Trim(s + w) == s
  {
    var x := s + w;
    var r := Trim(x);
    var n := LeadingWhitespace(x);
    assert x[0] == s[0];
    assert n == 0;
    assert r == x[..|r|];
    TrimmedLength(x, s, w, r);
  }

  lemma TrimmedLength(x: string, s: string, w: string, r: string)
    requires x == s + w && s != [] && !IsWhitespace(s[|s| - 1]) && AllWhitespace(w)
    requires |r| <= |x| && r == x[..|r|] && AllWhitespace(x[|r|..])
    requires r == [] || !IsWhitespace(r[|r| - 1])
    ensures |r| == |s|
  {
    forall k | |r| <= k < |x| ensures IsWhitespace(x[k]) {
      assert x[k] == x[|r|..][k - |r|];
    }
    forall k | |s| <= k < |x| ensures IsWhitespace(x[k]) {
      assert x[k] == w[k - |s|];
    }
    assert x[|s| - 1] == s[|s| - 1];
    assert r != [] ==> x[|r| - 1] == r[|r| - 1];
  }

  /** A whitespace-only string trims to nothing. */
  lemma TrimAllWhitespace(s: string)
    requires AllWhitespace(s)
    ensures Trim(s) == []
  {
  }

  /** Trimming leaves a string whose ends are not whitespace untouched. */
  lemma TrimOfTrimmed(s: string)
    requires s == [] || (!IsWhitespace(s[0]) && !IsWhitespace(s[|s| - 1]))
    ensures Trim(s) == s
  {
  }

  /** `str::trim` is idempotent. */
  lemma TrimIdempotent(s: string)
    ensures Trim(Trim(s)) == Trim(s)
  {
    TrimOfTrimmed(Trim(s));
  }

  /** The length of the longest whitespace-free prefix of `s`. */
  function TokenLength(s: string): (n: nat)
    ensures n <= |s|
    ensures forall i :: 0 <= i < n ==> !IsWhitespace(s[i])
    ensures n < |s| ==> IsWhitespace(s[n])
    decreases |s|
  {
    if s == [] || IsWhitespace(s[0]) then 0 else 1 + TokenLength(s[1..])
  }

  /** `str::split_whitespace`: the maximal whitespace-free runs of `s`, in order. */
  function SplitWhitespace(s: string): (tokens: seq<string>)
    ensures forall tok :: tok in tokens ==> IsToken(tok)
    decreases |s|
  {
    var t := TrimStart(s);
    if t == [] then []
    else
      var n := TokenLength(t);
      assert n > 0;
      assert IsToken(t[..n]);
      var rest := SplitWhitespace(t[n..]);
      [t[..n]] + rest
  }

  /** A whitespace-only string has no tokens. */
  lemma SplitAllWhitespace(s: string)
    requires AllWhitespace(s)
    ensures SplitWhitespace(s) == []
  {
    var t := TrimStart(s);
    if t != [] {
      assert t[0] == s[|s| - |t|];
    }
  }

  /** Leading whitespace does not change the tokens. */
  lemma {:induction false} SplitSkipsWhitespace(w: string, s: string)
    requires AllWhitespace(w)
    ensures SplitWhitespace(w + s) == SplitWhitespace(s)
    decreases |w|
  {
    if w == [] {
      assert w + s == s;
    } else {
      assert (w + s)[1..] == w[1..] + s;
      SplitSkipsWhitespace(w[1..], s);
      assert TrimStart(w + s) == TrimStart(w[1..] + s);
    }
  }

  /** A token followed by one whitespace character is split off as the first token. */
  lemma SplitTokenThenSeparator(tok: string, c: char, rest: string)
    requires IsToken(tok) && IsWhitespace(c)
    ensures SplitWhitespace(tok + [c] + rest) == [tok] + SplitWhitespace([c] + rest)
  {
    var tail := [c] + rest;
    var s := tok + tail;
    assert tok + [c] + rest == s;
    assert s[0] == tok[0];
    assert TrimStart(s) == s;
    TokenLengthOf(tok, tail);
    assert s[|tok|..] == tail;
    assert s[..|tok|] == tok;
  }

  /** A token followed by one whitespace character: the token, then the
      tokens of what follows the separator. */
  lemma SplitTokenThenSpace(tok: string, c: char, rest: string)
    requires IsToken(tok) && IsWhitespace(c)
    ensures SplitWhitespace(tok + [c] + rest) == [tok] + SplitWhitespace(rest)
  {
    SplitTokenThenSeparator(tok, c, rest);
    assert AllWhitespace([c]);
    SplitSkipsWhitespace([c], rest);
  }

  /** A token followed only by whitespace is the one token. */
  lemma SplitTokenThenWhitespace(tok: string, w: string)
    requires IsToken(tok) && w != [] && AllWhitespace(w)
    ensures SplitWhitespace(tok + w) == [tok]
  {
    var c, rest := w[0], w[1..];
    assert [c] + rest == w;
    assert tok + [c] + rest == tok + w;
    SplitTokenThenSeparator(tok, c, rest);
    SplitAllWhitespace(w);
    assert [tok] + SplitWhitespace(w) == [tok];
  }

  /** A token at the very end is the last token. */
  lemma SplitLastToken(tok: string)
    requires IsToken(tok)
    ensures SplitWhitespace(tok) == [tok]
  {
    assert TrimStart(tok) == tok;
    TokenLengthOf(tok, []);
    assert tok + [] == tok;
    assert tok[|tok|..] == [];
  }

  lemma {:induction false} TokenLengthOf(tok: string, rest: string)
    requires IsToken(tok) && (rest == [] || IsWhitespace(rest[0]))
    ensures TokenLength(tok + rest) == |tok|
    decreases |tok|
  {
    if |tok| > 1 {
      assert (tok + rest)[1..] == tok[1..] + rest;
      TokenLengthOf(tok[1..], rest);
    } else {
      assert (tok + rest)[1..] == rest;
    }
  }

  /** `str::find` for a single character: the index of the first occurrence. */
  function IndexOf(s: string, c: char): (r: Option<nat>)
    ensures r.None? <==> c !in s
    ensures r.Some? ==> r.value < |s| && s[r.value] == c && c !in s[..r.value]
    decreases |s|
  {
    if s == [] then None
    else if s[0] == c then Some(0)
    else
      match IndexOf(s[1..], c)
      case None => None
      case Some(i) =>
        assert s[..i + 1] == [s[0]] + s[1..][..i];
        Some(i + 1)
  }

  predicate OccursAt(s: string, pat: string, i: nat) {
    i + |pat| <= |s| && s[i..i + |pat|] == pat
  }

  /** `str::find` for a pattern string: the first index at or after `from`
      where `pat` occurs. */
  function Find(s: string, pat: string, from: nat): (r: Option<nat>)
    requires from <= |s|
    ensures r.Some? ==> from <= r.value && OccursAt(s, pat, r.value)
    ensures r.Some? ==> forall j :: from <= j < r.value ==> !OccursAt(s, pat, j)
    ensures r.None? ==> forall j :: from <= j <= |s| ==> !OccursAt(s, pat, j)
    decreases |s| - from
  {
    if OccursAt(s, pat, from) then Some(from)
    else if from == |s| then None
    else Find(s, pat, from + 1)
  }

  /** `str::splitn(2, pat)` when it yields two parts: the text before the first
      occurrence of `pat` and the text after it. `None` when `pat` does not occur. */
  function SplitOnce(s: string, pat: string): (r: Option<(string, string)>)
    ensures r.None? <==> forall j :: 0 <= j <= |s| ==> !OccursAt(s, pat, j)
    ensures r.Some? ==> s == r.value.0 + pat + r.value.1
    ensures r.Some? ==> forall j :: 0 <= j < |r.value.0| ==> !OccursAt(s, pat, j)
  {
    match Find(s, pat, 0)
    case None => None
    case Some(i) =>
      assert s == s[..i] + s[i..i + |pat|] + s[i + |pat|..];
      Some((s[..i], s[i + |pat|..]))
  }

  /** `char::to_ascii_lowercase` */
  function AsciiLowerChar(c: char): char {
    if 'A' <= c <= 'Z' then (c as int + 32) as char else c
  }

  predicate IsAsciiLower(s: string) {
    forall i :: 0 <= i < |s| ==> AsciiLowerChar(s[i]) == s[i]
  }

  /** `str::to_ascii_lowercase`: maps `A`..`Z` to `a`..`z`, keeps every other character. */
  function AsciiLower(s: string): (r: string)
    ensures |r| == |s|
    ensures forall i :: 0 <= i < |s| ==> r[i] == AsciiLowerChar(s[i])
    ensures IsAsciiLower(r)
  {
    seq(|s|, i requires 0 <= i < |s| => AsciiLowerChar(s[i]))
  }

  /** `str::eq_ignore_ascii_case`: same length, and the characters agree
      pairwise once ASCII letters are lowercased. */
  predicate EqIgnoreAsciiCase(a: string, b: string)
    decreases |a|
  {
    |a| == |b| && (a == [] || (AsciiLowerChar(a[0]) == AsciiLowerChar(b[0]) && EqIgnoreAsciiCase(a[1..], b[1..])))
  }

  /** Comparing without ASCII case is comparing the ASCII-lowercased strings. */
  lemma {:induction false} EqIgnoreAsciiCaseIsLowerEq(a: string, b: string)
    ensures EqIgnoreAsciiCase(a, b) <==> AsciiLower(a) == AsciiLower(b)
    decreases |a|
  {
    if |a| == |b| && a != [] {
      EqIgnoreAsciiCaseIsLowerEq(a[1..], b[1..]);
      assert AsciiLower(a) == [AsciiLowerChar(a[0])] + AsciiLower(a[1..]);
      assert AsciiLower(b) == [AsciiLowerChar(b[0])] + AsciiLower(b[1..]);
    }
  }

  /** Lowercasing an already lower-case string changes nothing. */
  lemma AsciiLowerOfLower(s: string)
    requires IsAsciiLower(s)
    ensures AsciiLower(s) == s
  {
  }

  /** The parts of `a + p + b` around a non-empty `p`. */
  lemma ConcatAround(a: string, p: string, b: string)
    requires |p| > 0
    ensures (a + p + b)[..|a|] == a && (a + p + b)[|a|] == p[0]
    ensures (a + p + b)[|a| + |p|..] == b
    ensures (a + p + b)[|a|..|a| + |p|] == p
  {
  }

  lemma ConcatAssoc<T>(a: seq<T>, b: seq<T>, c: seq<T>)
    ensures a + b + c == a + (b + c)
  {
  }
}
