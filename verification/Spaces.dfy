/** Whitespace at the ends of a path, which the storage library trims. */
module Spaces {
  import opened Bytes

  /** A character that is trimmed: Unicode's White_Space, in UTF-8. */
  predicate IsSpace(c: Str)
  {
    || (|c| == 1 && (c[0] == 32 || 9 <= c[0] <= 13))
    || (|c| == 2 && c[0] == 0xC2 && (c[1] == 0x85 || c[1] == 0xA0))
    || (|c| == 3 && c[0] == 0xE1 && c[1] == 0x9A && c[2] == 0x80)
    || (|c| == 3 && c[0] == 0xE2 && c[1] == 0x80 && (0x80 <= c[2] <= 0x8A || c[2] == 0xA8 || c[2] == 0xA9 || c[2] == 0xAF))
    || (|c| == 3 && c[0] == 0xE2 && c[1] == 0x81 && c[2] == 0x9F)
    || (|c| == 3 && c[0] == 0xE3 && c[1] == 0x80 && c[2] == 0x80)
  }

  lemma SpaceHasNoSlash(c: Str)
    requires IsSpace(c)
    ensures SLASH !in c && 1 <= |c| <= 3
  {
  }

  /** Length of the whitespace character at the front, 0 when there is none. */
  function SpaceInFront(s: Str): (n: nat)
    ensures n <= |s|
    ensures n > 0 ==> IsSpace(s[..n])
    ensures n == 0 ==> forall k :: 0 <= k <= |s| ==> !IsSpace(s[..k])
  {
    if |s| >= 1 && IsSpace(s[..1]) then 1
    else if |s| >= 2 && IsSpace(s[..2]) then 2
    else if |s| >= 3 && IsSpace(s[..3]) then 3
    else 0
  }

  /** Length of the whitespace character at the end. */
  function SpaceAtEnd(s: Str): (n: nat)
    ensures n <= |s|
    ensures n > 0 ==> IsSpace(s[|s| - n..])
    ensures n == 0 ==> forall k :: 0 <= k <= |s| ==> !IsSpace(s[k..])
  {
    if |s| >= 1 && IsSpace(s[|s| - 1..]) then 1
    else if |s| >= 2 && IsSpace(s[|s| - 2..]) then 2
    else if |s| >= 3 && IsSpace(s[|s| - 3..]) then 3
    else 0
  }

  function TrimFront(s: Str): Str
  {
    if SpaceInFront(s) == 0 then s else TrimFront(s[SpaceInFront(s)..])
  }

  function TrimBack(s: Str): Str
  {
    if SpaceAtEnd(s) == 0 then s else TrimBack(s[..|s| - SpaceAtEnd(s)])
  }

  function Trim(s: Str): Str
  {
    TrimBack(TrimFront(s))
  }

  predicate EndsInSlash(s: Str)
  {
    s != [] && s[|s| - 1] == SLASH
  }

  lemma NoSpaceAfterSlash(s: Str)
    requires EndsInSlash(s)
    ensures SpaceAtEnd(s) == 0 && TrimBack(s) == s
  {
    var n := SpaceAtEnd(s);
    if n > 0 {
      assert s[|s| - n..][n - 1] == SLASH;
      SpaceHasNoSlash(s[|s| - n..]);
    }
  }

  /** No whitespace character reaches across a slash. */
  lemma SpaceBeforeSlash(front: Str, tail: Str)
    requires EndsInSlash(front)
    ensures SpaceInFront(front + tail) == SpaceInFront(front) < |front|
  {
    SpaceStaysInFront(front, tail);
    SpaceStaysInFront(front, []);
    assert front + [] == front;
    assert forall k :: 0 <= k <= |front| ==> (front + tail)[..k] == front[..k];
  }

  lemma SpaceStaysInFront(front: Str, tail: Str)
    requires EndsInSlash(front)
    ensures SpaceInFront(front + tail) < |front|
  {
    var s := front + tail;
    var n := SpaceInFront(s);
    if n >= |front| {
      assert s[..n][|front| - 1] == SLASH;
      SpaceHasNoSlash(s[..n]);
    }
  }

  lemma {:induction false} TrimBeforeSlash(front: Str, tail: Str)
    requires EndsInSlash(front)
    ensures TrimFront(front + tail) == TrimFront(front) + tail && EndsInSlash(TrimFront(front))
    decreases |front|
  {
    hide IsSpace;
    SpaceBeforeSlash(front, tail);
    var n := SpaceInFront(front);
    if n > 0 {
      assert (front + tail)[n..] == front[n..] + tail;
      TrimBeforeSlash(front[n..], tail);
    }
  }

  lemma SpaceBehindSlash(front: Str, tail: Str)
    requires (front == [] || EndsInSlash(front)) && tail != [] && SpaceAtEnd(tail) == 0
    ensures SpaceAtEnd(front + tail) == 0
  {
    hide IsSpace, SpaceAtEnd;
    var n := SpaceAtEnd(front + tail);
    LastOfTail(front, tail, n);
    if n > |tail| {
      SlashAmongLast(front, tail, n);
      SpaceHasNoSlash((front + tail)[|front + tail| - n..]);
    }
  }

  lemma LastOfTail(front: Str, tail: Str, n: nat)
    ensures n <= |tail| ==> (front + tail)[|front + tail| - n..] == tail[|tail| - n..]
  {
  }

  lemma SlashAmongLast(front: Str, tail: Str, n: nat)
    requires EndsInSlash(front) && |tail| < n <= |front + tail|
    ensures SLASH in (front + tail)[|front + tail| - n..]
  {
    assert (front + tail)[|front + tail| - n..][n - |tail| - 1] == front[|front| - 1];
  }

  /** A directory in front decides what is trimmed there, and the tail what is trimmed behind. */
  lemma TrimOfJoin(front: Str, tail: Str)
    requires EndsInSlash(front) && (tail == [] || SpaceAtEnd(tail) == 0)
    ensures Trim(front + tail) == TrimFront(front) + tail && EndsInSlash(TrimFront(front))
  {
    hide IsSpace;
    TrimBeforeSlash(front, tail);
    if tail == [] {
      assert TrimFront(front) + tail == TrimFront(front);
      NoSpaceAfterSlash(TrimFront(front));
    } else {
      SpaceBehindSlash(TrimFront(front), tail);
    }
  }

  /** A string that begins with a slash, or with nothing to trim, and ends in one is left alone. */
  lemma NothingToTrim(s: Str)
    requires SpaceInFront(s) == 0 && SpaceAtEnd(s) == 0
    ensures Trim(s) == s
  {
  }

  lemma NoSpaceInPrefix(prefix: Str, s: Str)
    requires prefix <= s && SpaceInFront(s) == 0
    ensures SpaceInFront(prefix) == 0
  {
    hide IsSpace;
    var n := SpaceInFront(prefix);
    assert prefix[..n] == s[..n];
  }

  lemma NoSpaceInSuffix(front: Str, tail: Str)
    requires SpaceAtEnd(front + tail) == 0
    ensures SpaceAtEnd(tail) == 0
  {
    hide IsSpace;
    var n := SpaceAtEnd(tail);
    assert tail[|tail| - n..] == (front + tail)[|front + tail| - n..];
  }

  lemma NoSpaceBeforeSlash(s: Str)
    requires s != [] && s[0] == SLASH
    ensures SpaceInFront(s) == 0
  {
    var n := SpaceInFront(s);
    if n > 0 {
      assert s[..n][0] == SLASH;
      SpaceHasNoSlash(s[..n]);
    }
  }

  lemma TrimFrontShortens(s: Str)
    ensures SpaceInFront(s) == 0 ==> TrimFront(s) == s
    ensures SpaceInFront(s) > 0 ==> |TrimFront(s)| < |s|
  {
    hide IsSpace;
    if SpaceInFront(s) > 0 {
      TrimFrontIsSuffix(s[SpaceInFront(s)..]);
    }
  }

  /** Trimming in front leaves the end of the string. */
  lemma {:induction false} TrimFrontIsSuffix(s: Str)
    ensures exists n :: 0 <= n <= |s| && TrimFront(s) == s[n..]
    decreases |s|
  {
    hide IsSpace;
    var n := SpaceInFront(s);
    if n == 0 {
      assert s == s[0..];
    } else {
      TrimFrontIsSuffix(s[n..]);
      var m :| 0 <= m <= |s[n..]| && TrimFront(s[n..]) == s[n..][m..];
      assert s[n..][m..] == s[n + m..];
    }
  }

  lemma LetterIsNoSpace(s: Str)
    requires s != []
    ensures 97 <= s[0] <= 122 ==> SpaceInFront(s) == 0
    ensures 97 <= s[|s| - 1] <= 122 ==> SpaceAtEnd(s) == 0
  {
    var m, n := SpaceInFront(s), SpaceAtEnd(s);
    assert m > 0 ==> s[..m][0] == s[0];
    assert n > 0 ==> s[|s| - n..][n - 1] == s[|s| - 1];
  }

  function Joined(pieces: seq<Str>): Str
  {
    if pieces == [] then [] else pieces[0] + Joined(pieces[1..])
  }

  ghost predicate AllSpaces(pieces: seq<Str>)
  {
    forall i :: 0 <= i < |pieces| ==> IsSpace(pieces[i])
  }

  lemma {:induction false} JoinedSnoc(pieces: seq<Str>, last: Str)
    ensures Joined(pieces + [last]) == Joined(pieces) + last
  {
    if pieces == [] {
      assert pieces + [last] == [last] && [last][1..] == [];
    } else {
      assert (pieces + [last])[1..] == pieces[1..] + [last];
      JoinedSnoc(pieces[1..], last);
    }
  }

  lemma TrimSteps(s: Str)
    ensures var n := SpaceInFront(s); TrimFront(s) == if n == 0 then s else TrimFront(s[n..])
    ensures var n := SpaceAtEnd(s); TrimBack(s) == if n == 0 then s else TrimBack(s[..|s| - n])
  {
    hide SpaceInFront, SpaceAtEnd;
  }

  lemma {:induction false} FrontIsSpaces(s: Str) returns (pieces: seq<Str>)
    ensures AllSpaces(pieces) && s == Joined(pieces) + TrimFront(s) && SpaceInFront(TrimFront(s)) == 0
    decreases |s|
  {
    hide IsSpace, SpaceInFront, TrimFront, Joined;
    var n := SpaceInFront(s);
    TrimSteps(s);
    JoinedCons([]);
    pieces := [];
    if n > 0 {
      var rest := FrontIsSpaces(s[n..]);
      pieces := [s[..n]] + rest;
      JoinedCons(pieces);
      assert pieces[1..] == rest;
      assert s == s[..n] + (Joined(rest) + TrimFront(s));
    }
  }

  lemma JoinedCons(pieces: seq<Str>)
    ensures Joined(pieces) == if pieces == [] then [] else pieces[0] + Joined(pieces[1..])
  {
  }

  lemma {:induction false} BackIsSpaces(s: Str) returns (pieces: seq<Str>)
    ensures AllSpaces(pieces) && s == TrimBack(s) + Joined(pieces) && SpaceAtEnd(TrimBack(s)) == 0
    decreases |s|
  {
    hide IsSpace, SpaceAtEnd, TrimBack, Joined;
    var n := SpaceAtEnd(s);
    TrimSteps(s);
    JoinedCons([]);
    pieces := [];
    if n > 0 {
      var k := |s| - n;
      var rest := BackIsSpaces(s[..k]);
      pieces := rest + [s[k..]];
      JoinedSnoc(rest, s[k..]);
      assert s == (TrimBack(s) + Joined(rest)) + s[k..];
    }
  }

  /** Trimming takes whitespace off both ends, all of it and nothing else. */
  lemma TrimMeans(s: Str) returns (front: seq<Str>, back: seq<Str>)
    ensures AllSpaces(front) && AllSpaces(back)
    ensures s == Joined(front) + Trim(s) + Joined(back)
    ensures SpaceInFront(Trim(s)) == 0 && SpaceAtEnd(Trim(s)) == 0
  {
    hide *;
    front := FrontIsSpaces(s);
    back := BackIsSpaces(TrimFront(s));
    TrimIs(s);
    assert TrimFront(s) == Trim(s) + Joined(back);
    assert Trim(s) <= TrimFront(s);
    NoSpaceInPrefix(Trim(s), TrimFront(s));
  }

  lemma TrimIs(s: Str)
    ensures Trim(s) == TrimBack(TrimFront(s))
  {
  }
}
