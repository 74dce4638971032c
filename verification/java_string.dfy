/** The few `java.lang.String` operations the catalog's schema parser uses,
    with Java's edge cases: `indexOf` answers -1 when absent, `substring`
    fails outside the string, `trim` drops every character up to and
    including the space from both ends, and `split` on a one-character
    separator drops trailing empty pieces but returns the whole string when
    the separator does not occur. The functions carry only the facts about
    lengths; what they mean is stated by the lemmas after each. */
module JavaString {
  import opened Common

  /** `s.indexOf(c)`: the first position of c, or -1. */
  function IndexOf(s: string, c: char): (r: int)
    ensures -1 <= r < |s|
  {
    if |s| == 0 then -1
    else if s[0] == c then 0
    else
      var k := IndexOf(s[1..], c);
      if k == -1 then -1 else k + 1
  }

  /** `indexOf` finds c exactly when c occurs, and then at its first
      occurrence. */
  lemma {:induction false} IndexOfFirst(s: string, c: char)
    ensures IndexOf(s, c) == -1 <==> c !in s
    ensures IndexOf(s, c) >= 0 ==> s[IndexOf(s, c)] == c && c !in s[..IndexOf(s, c)]
    decreases |s|
  {
    if |s| > 0 && s[0] != c {
      IndexOfFirst(s[1..], c);
      var k := IndexOf(s[1..], c);
      assert s == [s[0]] + s[1..];
      if k != -1 {
        assert s[..k + 1] == [s[0]] + s[1..][..k];
      }
    }
  }

  /** The separator right after a piece free of it is the first one. */
  lemma {:induction false} FirstSeparator(a: string, c: char, b: string)
    requires c !in a
    ensures IndexOf(a + [c] + b, c) == |a|
    decreases |a|
  {
    if a != [] {
      assert (a + [c] + b)[1..] == a[1..] + [c] + b;
      FirstSeparator(a[1..], c, b);
    }
  }

  /** `s.substring(begin, end)`: fails unless 0 <= begin <= end <= length. */
  function Substring(s: string, begin: int, end: int): (r: Result<string>)
    ensures r.Ok? <==> 0 <= begin <= end <= |s|
    ensures r.Err? ==> r.error == IndexOutOfBounds
  {
    if 0 <= begin <= end <= |s| then Ok(s[begin..end]) else Err(IndexOutOfBounds)
  }

  /** Java's `trim` treats every character up to U+0020 as white space. */
  predicate IsTrimmed(c: char)
  {
    c <= ' '
  }

  /** Every character of s is white space in the sense of `trim`. */
  predicate AllTrimmed(s: string)
  {
    forall i :: 0 <= i < |s| ==> IsTrimmed(s[i])
  }

  /** No white space at either end. */
  predicate Clean(s: string)
  {
    s != [] ==> !IsTrimmed(s[0]) && !IsTrimmed(s[|s| - 1])
  }

  function TrimStart(s: string): (r: string)
    ensures |r| <= |s|
  {
    if s != [] && IsTrimmed(s[0]) then TrimStart(s[1..]) else s
  }

  function TrimEnd(s: string): (r: string)
    ensures |r| <= |s|
  {
    if s != [] && IsTrimmed(s[|s| - 1]) then TrimEnd(s[..|s| - 1]) else s
  }

  /** `s.trim()`. */
  function Trim(s: string): (r: string)
    ensures |r| <= |s|
  {
    TrimEnd(TrimStart(s))
  }

  /** TrimStart drops white space from the front and keeps the rest. */
  lemma {:induction false} TrimStartShape(s: string)
    ensures TrimStart(s) == s[|s| - |TrimStart(s)|..]
    ensures AllTrimmed(s[..|s| - |TrimStart(s)|])
    ensures TrimStart(s) != [] ==> !IsTrimmed(TrimStart(s)[0])
    decreases |s|
  {
    if s != [] && IsTrimmed(s[0]) {
      TrimStartShape(s[1..]);
      var n := |s| - |TrimStart(s)|;
      assert s[..n] == [s[0]] + s[1..][..n - 1];
    }
  }

  /** TrimEnd drops white space from the back and keeps the rest. */
  lemma {:induction false} TrimEndShape(s: string)
    ensures TrimEnd(s) == s[..|TrimEnd(s)|]
    ensures AllTrimmed(s[|TrimEnd(s)|..])
    ensures TrimEnd(s) != [] ==> !IsTrimmed(TrimEnd(s)[|TrimEnd(s)| - 1])
    decreases |s|
  {
    if s != [] && IsTrimmed(s[|s| - 1]) {
      var t := s[..|s| - 1];
      TrimEndShape(t);
      var n := |TrimEnd(s)|;
      assert s[n..] == t[n..] + [s[|s| - 1]];
      assert t[..n] == s[..n];
    }
  }

  /** How many characters `trim` removes from the front. */
  function TrimmedFront(s: string): nat
    requires |TrimStart(s)| <= |s|
  {
    |s| - |TrimStart(s)|
  }

  /** The trimmed string is the piece of the original that starts after the
      white space at the front, it has no white space at either end, and only
      white space lies around it. */
  lemma TrimShape(s: string)
    ensures TrimmedFront(s) + |Trim(s)| <= |s|
    ensures Trim(s) == s[TrimmedFront(s) .. TrimmedFront(s) + |Trim(s)|]
    ensures Clean(Trim(s))
    ensures AllTrimmed(s[..TrimmedFront(s)]) && AllTrimmed(s[TrimmedFront(s) + |Trim(s)|..])
  {
    var a := TrimStart(s);
    TrimStartShape(s);
    TrimEndShape(a);
    var lo := TrimmedFront(s);
    assert s[lo..][|Trim(s)|..] == s[lo + |Trim(s)|..];
  }

  /** A string with no white space at either end trims to itself; white
      space around it is removed. */
  lemma TrimSurrounded(pre: string, s: string, post: string)
    requires AllTrimmed(pre) && AllTrimmed(post) && Clean(s)
    ensures Trim(pre + s + post) == s
  {
    TrimStartPrefix(pre, s + post);
    assert pre + s + post == pre + (s + post);
    if s == [] {
      assert s + post == post;
      TrimStartAll(post);
    } else {
      assert TrimStart(s + post) == s + post;
      TrimEndSuffix(s, post);
    }
  }

  /** A string with no white space at either end trims to itself. */
  lemma TrimClean(s: string)
    requires Clean(s)
    ensures Trim(s) == s
  {
    TrimSurrounded([], s, []);
    assert [] + s + [] == s;
  }

  lemma {:induction false} TrimStartPrefix(pre: string, s: string)
    requires AllTrimmed(pre)
    ensures TrimStart(pre + s) == TrimStart(s)
    decreases |pre|
  {
    if pre != [] {
      assert (pre + s)[1..] == pre[1..] + s;
      TrimStartPrefix(pre[1..], s);
    } else {
      assert pre + s == s;
    }
  }

  lemma {:induction false} TrimStartAll(s: string)
    requires AllTrimmed(s)
    ensures TrimStart(s) == []
    decreases |s|
  {
    if s != [] {
      TrimStartAll(s[1..]);
    }
  }

  lemma {:induction false} TrimEndSuffix(s: string, post: string)
    requires s != [] && !IsTrimmed(s[|s| - 1])
    requires AllTrimmed(post)
    ensures TrimEnd(s + post) == s
    decreases |post|
  {
    if post == [] {
      assert s + post == s;
    } else {
      assert (s + post)[..|s + post| - 1] == s + post[..|post| - 1];
      TrimEndSuffix(s, post[..|post| - 1]);
    }
  }

  /** The pieces of s between occurrences of c, empty ones included. */
  function Pieces(s: string, c: char): (r: seq<string>)
    ensures |r| >= 1
    decreases |s|
  {
    var k := IndexOf(s, c);
    if k == -1 then [s] else [s[..k]] + Pieces(s[k + 1..], c)
  }

  /** The pieces joined back with the separator. */
  function Join(ps: seq<string>, c: char): string
    requires |ps| >= 1
  {
    if |ps| == 1 then ps[0] else ps[0] + [c] + Join(ps[1..], c)
  }

  /** Cutting a string at every separator and joining the pieces back
      gives the string again. */
  lemma {:induction false} JoinPieces(s: string, c: char)
    ensures Join(Pieces(s, c), c) == s
    decreases |s|
  {
    var k := IndexOf(s, c);
    if k != -1 {
      IndexOfFirst(s, c);
      JoinPieces(s[k + 1..], c);
      assert s == s[..k] + [c] + s[k + 1..];
    }
  }

  /** No piece holds the separator. */
  lemma {:induction false} PiecesFree(s: string, c: char)
    ensures forall i :: 0 <= i < |Pieces(s, c)| ==> c !in Pieces(s, c)[i]
    decreases |s|
  {
    IndexOfFirst(s, c);
    var k := IndexOf(s, c);
    if k != -1 {
      PiecesFree(s[k + 1..], c);
    }
  }

  /** Joining pieces free of the separator and cutting again gives the
      pieces back. */
  lemma {:induction false} PiecesJoin(ps: seq<string>, c: char)
    requires |ps| >= 1 && forall i :: 0 <= i < |ps| ==> c !in ps[i]
    ensures Pieces(Join(ps, c), c) == ps
    decreases |ps|
  {
    var s := Join(ps, c);
    if |ps| == 1 {
      IndexOfFirst(s, c);
    } else {
      var rest := Join(ps[1..], c);
      assert s == ps[0] + [c] + rest;
      FirstSeparator(ps[0], c, rest);
      assert s[..|ps[0]|] == ps[0];
      assert s[|ps[0]| + 1..] == rest;
      PiecesJoin(ps[1..], c);
      assert [ps[0]] + ps[1..] == ps;
    }
  }

  /** A character in no piece and other than the separator is not in the
      joined string. */
  lemma {:induction false} NotInJoin(ps: seq<string>, c: char, x: char)
    requires |ps| >= 1 && x != c
    requires forall i :: 0 <= i < |ps| ==> x !in ps[i]
    ensures x !in Join(ps, c)
    decreases |ps|
  {
    if |ps| > 1 {
      NotInJoin(ps[1..], c, x);
    }
  }

  /** The joined string starts with the first piece. */
  lemma JoinFirst(ps: seq<string>, c: char)
    requires |ps| >= 1 && ps[0] != []
    ensures Join(ps, c) != [] && Join(ps, c)[0] == ps[0][0]
  {
  }

  /** The joined string ends with the last piece. */
  lemma {:induction false} JoinLast(ps: seq<string>, c: char)
    requires |ps| >= 1 && ps[|ps| - 1] != []
    ensures Join(ps, c) != []
    ensures Join(ps, c)[|Join(ps, c)| - 1] == ps[|ps| - 1][|ps[|ps| - 1]| - 1]
    decreases |ps|
  {
    if |ps| > 1 {
      JoinLast(ps[1..], c);
    }
  }

  /** The pieces without the empty ones at the end. */
  function DropTrailingEmpty(ps: seq<string>): (r: seq<string>)
    ensures |r| <= |ps|
  {
    if ps != [] && ps[|ps| - 1] == [] then DropTrailingEmpty(ps[..|ps| - 1]) else ps
  }

  /** Dropping keeps a prefix, ends on a non-empty piece, and drops only
      empty ones. */
  lemma {:induction false} DropTrailingEmptyShape(ps: seq<string>)
    ensures DropTrailingEmpty(ps) == ps[..|DropTrailingEmpty(ps)|]
    ensures DropTrailingEmpty(ps) != [] ==> DropTrailingEmpty(ps)[|DropTrailingEmpty(ps)| - 1] != []
    ensures forall i :: |DropTrailingEmpty(ps)| <= i < |ps| ==> ps[i] == []
    decreases |ps|
  {
    if ps != [] && ps[|ps| - 1] == [] {
      var front := ps[..|ps| - 1];
      DropTrailingEmptyShape(front);
      assert front[..|DropTrailingEmpty(ps)|] == ps[..|DropTrailingEmpty(ps)|];
    }
  }

  /** `s.split(c)` for a one-character, non-special separator. */
  function Split(s: string, c: char): seq<string>
  {
    if c !in s then [s] else DropTrailingEmpty(Pieces(s, c))
  }

  /** No piece of a split holds the separator, the pieces are those between
      the separators with the empty ones at the end dropped, and a string
      without the separator splits into itself. */
  lemma SplitShape(s: string, c: char)
    ensures forall i :: 0 <= i < |Split(s, c)| ==> c !in Split(s, c)[i]
    ensures c in s ==> Split(s, c) == Pieces(s, c)[..|Split(s, c)|]
    ensures c !in s ==> Split(s, c) == [s]
  {
    if c in s {
      PiecesFree(s, c);
      DropTrailingEmptyShape(Pieces(s, c));
    }
  }

  /** Splitting the join of separator-free pieces whose last piece is not
      empty gives the pieces back. */
  lemma SplitJoin(ps: seq<string>, c: char)
    requires |ps| >= 1 && forall i :: 0 <= i < |ps| ==> c !in ps[i]
    requires |ps| > 1 ==> ps[|ps| - 1] != []
    ensures Split(Join(ps, c), c) == ps
  {
    PiecesJoin(ps, c);
    if |ps| > 1 {
      assert Join(ps, c)[|ps[0]|] == c;
    } else {
      assert Join(ps, c) == ps[0];
    }
  }

  /** ASCII letters lower-cased, every other character kept. */
  function ToLowerAscii(s: string): (r: string)
    ensures |r| == |s|
  {
    seq(|s|, i requires 0 <= i < |s| => if 'A' <= s[i] <= 'Z' then (s[i] as int + 32) as char else s[i])
  }
}
