/** Character classes and string helpers shared by the page script:
    ASCII digits (`\D` in a regular expression), ECMAScript white space
    (`\s` and `String.prototype.trim`), ASCII lower-casing and trimming. */
module Chars {

  /** The characters `\d` matches; `\D` is everything else. */
  predicate IsAsciiDigit(c: char) {
    '0' <= c <= '9'
  }

  /** The WhiteSpace and LineTerminator code points of ECMAScript
      (sections 12.2 and 12.3 of ECMA-262), the set that both the
      regular-expression class `\s` and `String.prototype.trim` use. */
  predicate IsWhitespace(c: char) {
    c == '\t' || c == '\n' || c == '\U{000B}' || c == '\U{000C}' || c == '\r' || c == ' '
    || c == '\U{00A0}' || c == '\U{1680}' || ('\U{2000}' <= c <= '\U{200A}')
    || c == '\U{2028}' || c == '\U{2029}' || c == '\U{202F}' || c == '\U{205F}'
    || c == '\U{3000}' || c == '\U{FEFF}'
  }

  predicate NoWhitespace(s: string) {
    forall k :: 0 <= k < |s| ==> !IsWhitespace(s[k])
  }

  predicate AllWhitespace(s: string) {
    forall k :: 0 <= k < |s| ==> IsWhitespace(s[k])
  }

  /** The characters of `s[..n]` that satisfy `keep`, in their original order.
      It counts up to `n` rather than slicing `s`, so that on a string literal
      the solver only ever indexes the literal. */
  function Kept(s: string, n: nat, keep: char -> bool): (r: string)
    requires n <= |s|
    ensures |r| <= n
    ensures forall k :: 0 <= k < |r| ==> keep(r[k])
  {
    if n == 0 then []
    else Kept(s, n - 1, keep) + (if keep(s[n - 1]) then [s[n - 1]] else [])
  }

  /** The characters of `s` that satisfy `keep`, in their original order. */
  function Filter(s: string, keep: char -> bool): (r: string)
    ensures |r| <= |s|
    ensures forall k :: 0 <= k < |r| ==> keep(r[k])
  {
    Kept(s, |s|, keep)
  }

  lemma {:induction false} KeptSamePrefix(s: string, t: string, n: nat, keep: char -> bool)
    requires n <= |s| && n <= |t| && s[..n] == t[..n]
    ensures Kept(s, n, keep) == Kept(t, n, keep)
  {
    if n > 0 {
      assert s[n - 1] == s[..n][n - 1] == t[..n][n - 1] == t[n - 1];
      assert s[..n - 1] == s[..n][..n - 1];
      assert t[..n - 1] == t[..n][..n - 1];
      KeptSamePrefix(s, t, n - 1, keep);
    }
  }

  lemma {:induction false} KeptAppend(a: string, b: string, k: nat, keep: char -> bool)
    requires k <= |b|
    ensures Kept(a + b, |a| + k, keep) == Filter(a, keep) + Kept(b, k, keep)
  {
    if k == 0 {
      assert (a + b)[..|a|] == a[..|a|];
      KeptSamePrefix(a + b, a, |a|, keep);
    } else {
      assert (a + b)[|a| + k - 1] == b[k - 1];
      KeptAppend(a, b, k - 1, keep);
    }
  }

  lemma FilterAppend(a: string, b: string, keep: char -> bool)
    ensures Filter(a + b, keep) == Filter(a, keep) + Filter(b, keep)
  {
    KeptAppend(a, b, |b|, keep);
  }

  lemma {:induction false} KeptKeepsAll(s: string, n: nat, keep: char -> bool)
    requires n <= |s|
    requires forall k :: 0 <= k < n ==> keep(s[k])
    ensures Kept(s, n, keep) == s[..n]
  {
    if n > 0 {
      KeptKeepsAll(s, n - 1, keep);
      assert s[..n] == s[..n - 1] + [s[n - 1]];
    }
  }

  lemma {:induction false} KeptDropsAll(s: string, n: nat, keep: char -> bool)
    requires n <= |s|
    requires forall k :: 0 <= k < n ==> !keep(s[k])
    ensures Kept(s, n, keep) == []
  {
    if n > 0 {
      KeptDropsAll(s, n - 1, keep);
    }
  }

  lemma FilterKeepsAll(s: string, keep: char -> bool)
    requires forall k :: 0 <= k < |s| ==> keep(s[k])
    ensures Filter(s, keep) == s
  {
    KeptKeepsAll(s, |s|, keep);
  }

  lemma FilterDropsAll(s: string, keep: char -> bool)
    requires forall k :: 0 <= k < |s| ==> !keep(s[k])
    ensures Filter(s, keep) == []
  {
    KeptDropsAll(s, |s|, keep);
  }

  lemma {:induction false} KeptNoneKept(s: string, n: nat, keep: char -> bool)
    requires n <= |s| && Kept(s, n, keep) == []
    ensures forall k :: 0 <= k < n ==> !keep(s[k])
  {
    if n > 0 {
      KeptNoneKept(s, n - 1, keep);
    }
  }

  /** Nothing is left exactly when no character satisfies `keep`. */
  lemma FilterEmpty(s: string, keep: char -> bool)
    ensures Filter(s, keep) == [] <==> forall k :: 0 <= k < |s| ==> !keep(s[k])
  {
    if Filter(s, keep) == [] {
      KeptNoneKept(s, |s|, keep);
    } else if forall k :: 0 <= k < |s| ==> !keep(s[k]) {
      FilterDropsAll(s, keep);
    }
  }

  /** How many times `c` occurs in `s`. */
  function Count(s: string, c: char): nat {
    |Filter(s, x => x == c)|
  }

  /** ASCII case folding: `A`..`Z` become `a`..`z`, every other character is kept. */
  function LowerChar(c: char): (d: char)
    ensures 'A' <= c <= 'Z' ==> 'a' <= d <= 'z' && d as int - c as int == 32
    ensures !('A' <= c <= 'Z') ==> d == c
  {
    if 'A' <= c <= 'Z' then (c as int + 32) as char else c
  }

  function Lower(s: string): (t: string)
    ensures |t| == |s|
    ensures forall k :: 0 <= k < |s| ==> t[k] == LowerChar(s[k])
  {
    seq(|s|, k requires 0 <= k < |s| => LowerChar(s[k]))
  }

  /** Drops the leading white space. */
  function TrimStart(s: string): (r: string)
    ensures |r| <= |s| && r == s[|s| - |r|..]
    ensures AllWhitespace(s[..|s| - |r|])
    ensures r != [] ==> !IsWhitespace(r[0])
  {
    if s != [] && IsWhitespace(s[0]) then
      var r := TrimStart(s[1..]);
      assert s[..|s| - |r|] == [s[0]] + s[1..][..|s| - 1 - |r|];
      r
    else s
  }

  /** Drops the trailing white space. */
  function TrimEnd(s: string): (r: string)
    ensures |r| <= |s| && r == s[..|r|]
    ensures AllWhitespace(s[|r|..])
    ensures r != [] ==> !IsWhitespace(r[|r| - 1])
  {
    if s != [] && IsWhitespace(s[|s| - 1]) then TrimEnd(s[..|s| - 1]) else s
  }

  /** `s` is `r` with white space only before and after it, `r` starting at index `i`. */
  predicate PaddedAt(s: string, r: string, i: int) {
    0 <= i <= |s| - |r| && r == s[i..i + |r|]
    && AllWhitespace(s[..i]) && AllWhitespace(s[i + |r|..])
  }

  /** `String.prototype.trim`: the infix of `s` left once the white space at
      both ends is dropped; it neither starts nor ends with white space. */
  function Trim(s: string): (r: string)
    ensures exists i :: PaddedAt(s, r, i)
    ensures r != [] ==> !IsWhitespace(r[0]) && !IsWhitespace(r[|r| - 1])
    ensures r == [] <==> AllWhitespace(s)
  {
    var t := TrimStart(s);
    var r := TrimEnd(t);
    TrimInfix(s, t, r);
    assert PaddedAt(s, r, |s| - |t|);
    r
  }

  lemma TrimInfix(s: string, t: string, r: string)
    requires |t| <= |s| && t == s[|s| - |t|..] && AllWhitespace(s[..|s| - |t|])
    requires |r| <= |t| && r == t[..|r|] && AllWhitespace(t[|r|..])
    requires t != [] ==> !IsWhitespace(t[0])
    ensures PaddedAt(s, r, |s| - |t|)
    ensures r == [] <==> AllWhitespace(s)
  {
    var i := |s| - |t|;
    assert s[i..] == t;
    assert s[i + |r|..] == t[|r|..];
    if t != [] {
      assert s[i] == t[0];
    } else {
      assert s[..i] == s;
    }
  }

  /** Non-empty, with no white space at either end. */
  predicate Unpadded(s: string) {
    s != [] && !IsWhitespace(s[0]) && !IsWhitespace(s[|s| - 1])
  }

  /** Trimming leaves something unpadded exactly when there was more than white space. */
  lemma TrimUnpadded(s: string)
    ensures Unpadded(Trim(s)) <==> !AllWhitespace(s)
  {
  }

  lemma {:induction false} TrimIdempotent(s: string)
    ensures Trim(Trim(s)) == Trim(s)
  {
    var r := Trim(s);
    if r != [] {
      assert TrimStart(r) == r;
      assert TrimEnd(r) == r;
    }
  }

  lemma {:induction false} TrimKeepsUnpadded(s: string)
    requires NoWhitespace(s)
    ensures Trim(s) == s
  {
    if s != [] {
      assert !IsWhitespace(s[0]) && !IsWhitespace(s[|s| - 1]);
      assert TrimStart(s) == s;
      assert TrimEnd(s) == s;
    }
  }
}
