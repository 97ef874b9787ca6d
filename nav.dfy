/** Active navigation highlighting: the current page's name taken from the
    location's path, and the loop that marks the matching `.nav-link`. */
module Nav {
  import opened Optional

  /** `s.split(sep)` for a one-character separator: the pieces between
      separators, empty ones included, so there is always one more piece than
      there are separators. */
  function Split(s: string, sep: char): (parts: seq<string>)
    ensures |parts| >= 1
    decreases |s|
  {
    if s == [] then [[]]
    else
      var rest := Split(s[1..], sep);
      if s[0] == sep then [[]] + rest else [[s[0]] + rest[0]] + rest[1..]
  }

  /** `parts.join(sep)`. */
  function Join(parts: seq<string>, sep: char): string
    requires |parts| >= 1
  {
    if |parts| == 1 then parts[0] else parts[0] + [sep] + Join(parts[1..], sep)
  }

  /** No piece contains the separator. */
  lemma {:induction false} SplitPiecesClean(s: string, sep: char)
    ensures forall i :: 0 <= i < |Split(s, sep)| ==> sep !in Split(s, sep)[i]
    decreases |s|
  {
    if s != [] {
      SplitPiecesClean(s[1..], sep);
    }
  }

  /** Joining the pieces gives the string back. */
  lemma {:induction false} JoinSplit(s: string, sep: char)
    ensures Join(Split(s, sep), sep) == s
    decreases |s|
  {
    if s != [] {
      var rest := Split(s[1..], sep);
      JoinSplit(s[1..], sep);
      if s[0] == sep {
        assert ([[]] + rest)[1..] == rest;
      } else {
        var parts := [[s[0]] + rest[0]] + rest[1..];
        if |rest| == 1 {
          assert s == [s[0]] + s[1..];
        } else {
          assert parts[1..] == rest[1..];
          assert Join(rest, sep) == rest[0] + [sep] + Join(rest[1..], sep);
          assert s == [s[0]] + s[1..];
        }
      }
    }
  }

  /** Splitting a join of separator-free pieces gives the pieces back. */
  lemma {:induction false} SplitJoin(parts: seq<string>, sep: char)
    requires |parts| >= 1
    requires forall i :: 0 <= i < |parts| ==> sep !in parts[i]
    ensures Split(Join(parts, sep), sep) == parts
    decreases |parts|, |parts[0]|
  {
    var head := parts[0];
    if |parts| == 1 {
      SplitClean(head, sep);
    } else if head == [] {
      var tail := Join(parts[1..], sep);
      SplitJoin(parts[1..], sep);
      assert Join(parts, sep) == [sep] + tail;
      assert ([sep] + tail)[1..] == tail;
      assert [[]] + parts[1..] == parts;
    } else {
      var shorter := [head[1..]] + parts[1..];
      assert shorter[1..] == parts[1..];
      assert Join(parts, sep) == [head[0]] + Join(shorter, sep);
      assert head[0] != sep by { assert head[0] == parts[0][0]; }
      forall i | 0 <= i < |shorter| ensures sep !in shorter[i] {
        if i == 0 { assert forall c :: c in head[1..] ==> c in head; } else { assert shorter[i] == parts[i]; }
      }
      SplitJoin(shorter, sep);
      assert ([head[0]] + Join(shorter, sep))[1..] == Join(shorter, sep);
      assert [head[0]] + head[1..] == head;
      assert [[head[0]] + shorter[0]] + shorter[1..] == parts;
    }
  }

  /** A string without the separator splits into itself alone. */
  lemma {:induction false} SplitClean(s: string, sep: char)
    requires sep !in s
    ensures Split(s, sep) == [s]
    decreases |s|
  {
    if s != [] {
      assert s[0] in s;
      assert forall c :: c in s[1..] ==> c in s;
      SplitClean(s[1..], sep);
      assert [s[0]] + s[1..] == s;
    }
  }

  /** `window.location.pathname.split('/').pop()`: the last piece. */
  function LastSegment(path: string): string {
    var parts := Split(path, '/');
    parts[|parts| - 1]
  }

  /** `... || 'home'`: the last piece, or `home` when it is empty. */
  function CurrentPage(path: string): string {
    var last := LastSegment(path);
    if last == [] then "home" else last
  }

  /** The last piece is what follows the final `/` (all of the path when there
      is none), so it is empty exactly when the path is empty or ends in `/`. */
  lemma {:induction false} LastSegmentIsTail(path: string)
    ensures '/' !in LastSegment(path)
    ensures |LastSegment(path)| <= |path|
    ensures LastSegment(path) == path[|path| - |LastSegment(path)|..]
    ensures |LastSegment(path)| < |path| ==> path[|path| - |LastSegment(path)| - 1] == '/'
    decreases |path|
  {
    SplitPiecesClean(path, '/');
    if path != [] {
      var rest := Split(path[1..], '/');
      var tail := path[1..];
      LastSegmentIsTail(tail);
      if path[0] != '/' && |rest| == 1 {
        JoinSplit(tail, '/');
        assert rest[0] == tail;
        assert LastSegment(path) == [path[0]] + tail;
        assert path == [path[0]] + tail;
      } else {
        assert LastSegment(path) == LastSegment(tail);
        var last := LastSegment(tail);
        assert path[|path| - |last|..] == tail[|tail| - |last|..];
        if |last| < |tail| {
          assert path[|path| - |last| - 1] == tail[|tail| - |last| - 1];
        } else if path[0] != '/' {
          assert last == tail;
          SplitClean(tail, '/');
        }
      }
    }
  }

  lemma LastSegmentEmpty(path: string)
    ensures LastSegment(path) == [] <==> path == [] || path[|path| - 1] == '/'
  {
    LastSegmentIsTail(path);
  }

  /** The page name is never empty and never holds a `/`; it is `home` for an
      empty path or one ending in `/`, and the final piece (what follows the
      last `/`, by LastSegmentIsTail) otherwise. */
  lemma CurrentPageShape(path: string)
    ensures CurrentPage(path) != [] && '/' !in CurrentPage(path)
    ensures path == [] || path[|path| - 1] == '/' ==> CurrentPage(path) == "home"
    ensures path != [] && path[|path| - 1] != '/' ==> CurrentPage(path) == LastSegment(path)
  {
    LastSegmentIsTail(path);
    LastSegmentEmpty(path);
    assert '/' !in "home";
  }

  /** A `.nav-link` element: its `href` attribute (`null` when absent) and whether it carries `active`. */
  datatype NavLink = NavLink(href: Option<string>, active: bool)

  /** The test in the loop, with all three of its clauses. */
  predicate IsCurrent(linkPage: Option<string>, currentPage: string) {
    || linkPage == Some(currentPage)
    || (currentPage == "" && linkPage == Some("home"))
    || (currentPage == "/" && linkPage == Some("home"))
  }

  /** The links once every `active` flag is recomputed against `currentPage`. */
  function Highlighted(links: seq<NavLink>, currentPage: string): (r: seq<NavLink>)
    ensures |r| == |links|
  {
    seq(|links|, i requires 0 <= i < |links| =>
      NavLink(links[i].href, IsCurrent(links[i].href, currentPage)))
  }

  /** Since the page name is never `''` or `'/'`, the two `home` clauses can
      never fire: a link matches exactly when its `href` is the page name. */
  lemma HomeClausesDead(path: string, linkPage: Option<string>)
    ensures IsCurrent(linkPage, CurrentPage(path)) <==> linkPage == Some(CurrentPage(path))
  {
    CurrentPageShape(path);
    assert '/' in "/";
  }

  /** After the loop on a page, a link is active exactly when its `href` is the
      page name, every `href` is as it was, and whatever was active before
      does not matter. */
  lemma HighlightedOnPage(links: seq<NavLink>, path: string, i: int)
    requires 0 <= i < |links|
    ensures Highlighted(links, CurrentPage(path))[i].href == links[i].href
    ensures Highlighted(links, CurrentPage(path))[i].active <==> links[i].href == Some(CurrentPage(path))
  {
    HomeClausesDead(path, links[i].href);
  }

  /** Running the loop again changes nothing. */
  lemma HighlightIdempotent(links: seq<NavLink>, currentPage: string)
    ensures Highlighted(Highlighted(links, currentPage), currentPage) == Highlighted(links, currentPage)
  {
  }

  /** The `forEach` over the links: clear `active`, then set it where the test holds. */
  method HighlightLinks(links: array<NavLink>, currentPage: string)
    modifies links
    ensures links[..] == Highlighted(old(links[..]), currentPage)
  {
    for i := 0 to links.Length
      invariant forall k :: 0 <= k < i ==> links[k] == Highlighted(old(links[..]), currentPage)[k]
      invariant forall k :: i <= k < links.Length ==> links[k] == old(links[k])
    {
      var linkPage := links[i].href;
      links[i] := links[i].(active := false);
      if IsCurrent(linkPage, currentPage) {
        links[i] := links[i].(active := true);
      }
    }
  }
}
