/**
 * Python's `str.strip()` with no argument, as applied to the confirmation
 * answer: it removes every leading and trailing character for which
 * `str.isspace()` holds.
 */
module Text {

  /** The characters Python 3's `str.isspace()` accepts. */
  predicate IsSpace(c: char)
  {
    || ('\t' <= c <= '\r')            // tab, line feed, vertical tab, form feed, carriage return
    || ('\U{1c}' <= c <= '\U{1f}')    // file, group, record and unit separators
    || c == ' '
    || c == '\U{85}' || c == '\U{a0}' || c == '\U{1680}'
    || ('\U{2000}' <= c <= '\U{200a}')
    || c == '\U{2028}' || c == '\U{2029}' || c == '\U{202f}' || c == '\U{205f}' || c == '\U{3000}'
  }

  predicate AllSpace(s: string)
  {
    forall i :: 0 <= i < |s| ==> IsSpace(s[i])
  }

  /** Drops leading whitespace: the result is the suffix of `s` after its leading whitespace. */
  function TrimStart(s: string): (r: string)
    ensures |r| <= |s| && r == s[|s| - |r|..]
    ensures AllSpace(s[..|s| - |r|])
    ensures r == [] || !IsSpace(r[0])
  {
    if s != [] && IsSpace(s[0]) then
      var r := TrimStart(s[1..]);
      assert s[..|s| - |r|] == [s[0]] + s[1..][..|s| - 1 - |r|];
      r
    else s
  }

  /** Drops trailing whitespace: the result is the prefix of `s` before its trailing whitespace. */
  function TrimEnd(s: string): (r: string)
    ensures |r| <= |s| && r == s[..|r|]
    ensures AllSpace(s[|r|..])
    ensures r == [] || !IsSpace(r[|r| - 1])
  {
    if s != [] && IsSpace(s[|s| - 1]) then
      var r := TrimEnd(s[..|s| - 1]);
      assert s[|r|..] == s[..|s| - 1][|r|..] + [s[|s| - 1]];
      r
    else s
  }

  function Strip(s: string): (r: string)
  {
    TrimEnd(TrimStart(s))
  }

  /**
   * `Strip(s)` is a slice of `s` with only whitespace cut off on either side,
   * and it neither starts nor ends with whitespace.
   */
  lemma StripSlice(s: string) returns (lo: nat, hi: nat)
    ensures lo <= hi <= |s| && Strip(s) == s[lo..hi]
    ensures AllSpace(s[..lo]) && AllSpace(s[hi..])
    ensures Strip(s) == [] || (!IsSpace(Strip(s)[0]) && !IsSpace(Strip(s)[|Strip(s)| - 1]))
  {
    var t := TrimStart(s);
    var r := TrimEnd(t);
    assert Strip(s) == r;
    lo := |s| - |t|;
    hi := lo + |r|;
    assert t == s[lo..];
    assert r == t[..|r|];
    assert s[lo..hi] == t[..|r|];
    assert s[hi..] == t[|r|..];
    assert r != [] ==> r[0] == t[0];
  }

  /** Surrounding a word that has no whitespace at its ends with whitespace does not change what `Strip` yields. */
  lemma {:induction false} StripPadded(w1: string, word: string, w2: string)
    requires AllSpace(w1) && AllSpace(w2)
    requires word != [] && !IsSpace(word[0]) && !IsSpace(word[|word| - 1])
    ensures Strip(w1 + word + w2) == word
  {
    TrimStartPadded(w1, word + w2);
    assert w1 + word + w2 == w1 + (word + w2);
    TrimEndPadded(word, w2);
  }

  lemma {:induction false} TrimStartPadded(w: string, rest: string)
    requires AllSpace(w)
    requires rest != [] && !IsSpace(rest[0])
    ensures TrimStart(w + rest) == rest
    decreases |w|
  {
    if w == [] {
      assert w + rest == rest;
    } else {
      var s := w + rest;
      assert s[0] == w[0] && IsSpace(s[0]);
      assert s[1..] == w[1..] + rest;
      TrimStartPadded(w[1..], rest);
    }
  }

  lemma {:induction false} TrimEndPadded(rest: string, w: string)
    requires AllSpace(w)
    requires rest != [] && !IsSpace(rest[|rest| - 1])
    ensures TrimEnd(rest + w) == rest
    decreases |w|
  {
    if w == [] {
      assert rest + w == rest;
    } else {
      assert (rest + w)[..|rest + w| - 1] == rest + w[..|w| - 1];
      TrimEndPadded(rest, w[..|w| - 1]);
    }
  }
}
