/** `validateEmail`: the test of the lower-cased address against
    `/^[^\s@]+@[^\s@]+\.[^\s@]+$/`, modelled by what the pattern means. */
module Email {
  import opened Chars

  /** A character the class `[^\s@]` matches. */
  predicate Plain(c: char) {
    !IsWhitespace(c) && c != '@'
  }

  predicate AllPlain(s: string) {
    forall k :: 0 <= k < |s| ==> Plain(s[k])
  }

  /** `s` is `local@host.tld` with each of the three parts a non-empty run of plain characters. */
  predicate SplitsAs(s: string, local: string, host: string, tld: string) {
    && s == local + "@" + host + "." + tld
    && local != [] && host != [] && tld != []
    && AllPlain(local) && AllPlain(host) && AllPlain(tld)
  }

  /** The strings the regular expression matches, by its structure: `^` and `$`
      anchor the whole string, and `[^\s@]+@[^\s@]+\.[^\s@]+` is three
      non-empty plain runs separated by `@` and then by a literal `.`. */
  ghost predicate MatchesPattern(s: string) {
    exists local, host, tld :: SplitsAs(s, local, host, tld)
  }

  /** The first index of `c` in `s` at or after `from`, or `|s|` if there is none. */
  function Find(s: string, c: char, from: nat): (i: nat)
    requires from <= |s|
    ensures from <= i <= |s|
    ensures i < |s| ==> s[i] == c
    ensures forall k :: from <= k < i ==> s[k] != c
    decreases |s| - from
  {
    if from == |s| then |s| else if s[from] == c then from else Find(s, c, from + 1)
  }

  /** `d` has a `.` that is neither its first nor its last character. */
  predicate HasInnerDot(d: string) {
    exists j :: 0 < j < |d| - 1 && d[j] == '.'
  }

  /** The pattern test without the lower-casing: the first `@` is not at the
      start, nothing but plain characters surround it, and the part after it
      has a `.` strictly inside. */
  predicate Accepts(s: string) {
    var i := Find(s, '@', 0);
    && 0 < i < |s|
    && AllPlain(s[..i]) && AllPlain(s[i + 1..])
    && HasInnerDot(s[i + 1..])
  }

  /** `validateEmail`. */
  function ValidateEmail(email: string): bool {
    Accepts(Lower(email))
  }

  /** `Accepts` decides exactly the language of the regular expression. */
  lemma AcceptsIffMatches(s: string)
    ensures Accepts(s) <==> MatchesPattern(s)
  {
    if Accepts(s) {
      var i := Find(s, '@', 0);
      var d := s[i + 1..];
      var j :| 0 < j < |d| - 1 && d[j] == '.';
      var local, host, tld := s[..i], d[..j], d[j + 1..];
      assert d == host + "." + tld;
      assert s == local + "@" + d;
      assert AllPlain(host) && AllPlain(tld) by {
        forall k | 0 <= k < |host| ensures Plain(host[k]) { assert host[k] == d[k]; }
        forall k | 0 <= k < |tld| ensures Plain(tld[k]) { assert tld[k] == d[j + 1 + k]; }
      }
      assert SplitsAs(s, local, host, tld);
    }
    if MatchesPattern(s) {
      var local, host, tld :| SplitsAs(s, local, host, tld);
      SplitAccepted(s, local, host, tld);
    }
  }

  lemma SplitAccepted(s: string, local: string, host: string, tld: string)
    requires SplitsAs(s, local, host, tld)
    ensures Accepts(s)
  {
    var i := |local|;
    var d := host + "." + tld;
    assert s == local + "@" + d;
    assert s[..i] == local;
    assert s[i] == '@';
    assert s[i + 1..] == d;
    forall k | 0 <= k < i ensures s[k] != '@' { assert s[k] == local[k]; }
    FindFirst(s, '@', 0, i);
    forall k | 0 <= k < |d| ensures Plain(d[k]) {
      if k < |host| { assert d[k] == host[k]; }
      else if k > |host| { assert d[k] == tld[k - |host| - 1]; }
    }
    assert d[|host|] == '.';
  }

  /** Every address of the form `local@host.tld` passes `validateEmail`. */
  lemma SplitValid(s: string, local: string, host: string, tld: string)
    requires SplitsAs(s, local, host, tld)
    ensures ValidateEmail(s)
  {
    SplitAccepted(s, local, host, tld);
    CaseInsensitive(s);
  }

  /** `Find` stops at the first occurrence. */
  lemma {:induction false} FindFirst(s: string, c: char, from: nat, i: nat)
    requires from <= i < |s| && s[i] == c
    requires forall k :: from <= k < i ==> s[k] != c
    ensures Find(s, c, from) == i
    decreases i - from
  {
    if from < i {
      FindFirst(s, c, from + 1, i);
    }
  }

  /** ASCII lower-casing leaves white space, `@` and `.` where they were. */
  lemma LowerKeepsClasses(c: char)
    ensures Plain(LowerChar(c)) == Plain(c)
    ensures (LowerChar(c) == '@') == (c == '@')
    ensures (LowerChar(c) == '.') == (c == '.')
  {
  }

  lemma {:induction false} FindLower(s: string, from: nat)
    requires from <= |s|
    ensures Find(Lower(s), '@', from) == Find(s, '@', from)
    decreases |s| - from
  {
    if from < |s| {
      LowerKeepsClasses(s[from]);
      FindLower(s, from + 1);
    }
  }

  /** Lower-casing never changes the verdict, so `validateEmail` is the
      pattern test itself, whatever the case of the letters. */
  lemma CaseInsensitive(s: string)
    ensures ValidateEmail(s) == Accepts(s)
    ensures ValidateEmail(s) <==> MatchesPattern(s)
    ensures ValidateEmail(Lower(s)) == ValidateEmail(s)
  {
    AcceptsLower(s);
    AcceptsLower(Lower(s));
    AcceptsIffMatches(s);
  }

  lemma AcceptsLower(s: string)
    ensures Accepts(Lower(s)) == Accepts(s)
  {
    var t := Lower(s);
    FindLower(s, 0);
    var i := Find(s, '@', 0);
    forall k | 0 <= k < |s| ensures Plain(t[k]) == Plain(s[k]) && (t[k] == '.') == (s[k] == '.') {
      LowerKeepsClasses(s[k]);
    }
    if 0 < i < |s| {
      var d, e := s[i + 1..], t[i + 1..];
      assert AllPlain(t[..i]) == AllPlain(s[..i]) by {
        forall k | 0 <= k < i ensures t[..i][k] == t[k] && s[..i][k] == s[k] { }
      }
      assert AllPlain(e) == AllPlain(d) by {
        forall k | 0 <= k < |d| ensures e[k] == t[i + 1 + k] && d[k] == s[i + 1 + k] { }
      }
      assert HasInnerDot(e) == HasInnerDot(d) by {
        forall k | 0 <= k < |d| ensures e[k] == t[i + 1 + k] && d[k] == s[i + 1 + k] { }
      }
    }
  }
  /** The test in plain words: no white space, exactly one `@`,
      something before it, and after it a `.` that is neither the first nor
      the last character. */
  predicate Described(s: string) {
    && NoWhitespace(s)
    && Count(s, '@') == 1
    && exists i :: 0 < i < |s| && s[i] == '@' && HasInnerDot(s[i + 1..])
  }

  /** `Accepts` and the description agree on every string. */
  lemma AcceptsIffDescribed(s: string)
    ensures Accepts(s) <==> Described(s)
    ensures ValidateEmail(s) <==> Described(s)
  {
    CaseInsensitive(s);
    if Accepts(s) {
      AcceptedIsDescribed(s);
    }
    if Described(s) {
      DescribedIsAccepted(s);
    }
  }

  lemma AcceptedIsDescribed(s: string)
    requires Accepts(s)
    ensures Described(s)
  {
    var i := Find(s, '@', 0);
    AtSplit(s, i);
    forall k | 0 <= k < |s| ensures !IsWhitespace(s[k]) {
      if k < i { assert s[k] == s[..i][k]; }
      else if k > i { assert s[k] == s[i + 1..][k - i - 1]; }
    }
    FilterDropsAll(s[..i], x => x == '@');
    FilterDropsAll(s[i + 1..], x => x == '@');
  }

  lemma DescribedIsAccepted(s: string)
    requires Described(s)
    ensures Accepts(s)
  {
    var i :| 0 < i < |s| && s[i] == '@' && HasInnerDot(s[i + 1..]);
    AtSplit(s, i);
    FilterEmpty(s[..i], x => x == '@');
    FilterEmpty(s[i + 1..], x => x == '@');
    forall k | 0 <= k < i ensures s[k] != '@' { assert s[k] == s[..i][k]; }
    FindFirst(s, '@', 0, i);
    var d := s[i + 1..];
    assert AllPlain(s[..i]) by {
      forall k | 0 <= k < i ensures Plain(s[..i][k]) { assert s[..i][k] == s[k]; }
    }
    assert AllPlain(d) by {
      forall k | 0 <= k < |d| ensures Plain(d[k]) { assert d[k] == s[i + 1 + k]; }
    }
  }

  /** Counting `@` around the one at index `i`. */
  lemma AtSplit(s: string, i: nat)
    requires i < |s| && s[i] == '@'
    ensures Count(s, '@') == Count(s[..i], '@') + 1 + Count(s[i + 1..], '@')
  {
    var isAt := (x: char) => x == '@';
    assert s == s[..i] + ([s[i]] + s[i + 1..]);
    FilterAppend(s[..i], [s[i]] + s[i + 1..], isAt);
    FilterAppend([s[i]], s[i + 1..], isAt);
    FilterKeepsAll([s[i]], isAt);
  }

  /** An address with two `@` is refused. */
  lemma TwoAtsRefused(s: string, i: nat, j: nat)
    requires i < j < |s| && s[i] == '@' && s[j] == '@'
    ensures !ValidateEmail(s)
  {
    CaseInsensitive(s);
    var f := Find(s, '@', 0);
    assert f <= i;
    assert s[f + 1..][j - f - 1] == '@';
  }

  /** An address without a `.` is refused. */
  lemma NoDotRefused(s: string)
    requires '.' !in s
    ensures !ValidateEmail(s)
  {
    CaseInsensitive(s);
    var f := Find(s, '@', 0);
    if 0 < f < |s| {
      var d := s[f + 1..];
      forall j | 0 < j < |d| - 1 ensures d[j] != '.' { assert d[j] == s[f + 1 + j]; }
    }
  }

  /** An address with no `@` at all is refused. */
  lemma NoAtRefused(s: string)
    requires '@' !in s
    ensures !ValidateEmail(s)
  {
    CaseInsensitive(s);
    assert Find(s, '@', 0) == |s|;
  }
}
