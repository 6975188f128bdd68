/** What patterns mean, byte by byte: the language of `Glob` restated without its tokens. */
module GlobMeaning {
  import opened Bytes
  import opened Glob

  lemma EmptyMeans(v: Str)
    ensures Matches([], v) <==> v == []
  {
    EmptyLanguage(v);
  }

  lemma LiteralMeans(b: Byte, rest: Str, v: Str)
    requires b != STAR && b != QUESTION && b != LBRACKET
    ensures Matches([b] + rest, v) <==> v != [] && v[0] == b && Matches(rest, v[1..])
  {
    hide Matches;
    LiteralCase([b] + rest, v);
    assert ([b] + rest)[1..] == rest;
  }

  lemma QuestionMeans(rest: Str, v: Str)
    ensures Matches([QUESTION] + rest, v) <==> v != [] && v[0] != SLASH && Matches(rest, v[1..])
  {
    hide Matches;
    QuestionCase([QUESTION] + rest, v);
    assert ([QUESTION] + rest)[1..] == rest;
  }

  /** `*` stands for any bytes but a slash. */
  lemma {:induction false} StarMeans(rest: Str, v: Str)
    requires rest == [] || rest[0] != STAR
    ensures Matches([STAR] + rest, v) <==> exists k :: 0 <= k <= |v| && SLASH !in v[..k] && Matches(rest, v[k..])
    decreases |v|
  {
    hide Matches;
    StarCase([STAR] + rest, v);
    assert ([STAR] + rest)[1..] == rest;
    assert v[0..] == v && v[..0] == [];
    if v != [] {
      var tail := v[1..];
      StarMeans(rest, tail);
      assert forall k :: 0 <= k <= |tail| ==> v[k + 1..] == tail[k..] && v[..k + 1] == [v[0]] + tail[..k];
      if k :| 0 < k <= |v| && SLASH !in v[..k] && Matches(rest, v[k..]) {
        assert v[..k][0] == v[0];
        assert tail[k - 1..] == v[k..] && v[..k] == [v[0]] + tail[..k - 1];
      }
      if v[0] != SLASH && Matches([STAR] + rest, tail) {
        var k :| 0 <= k <= |tail| && SLASH !in tail[..k] && Matches(rest, tail[k..]);
        assert SLASH !in v[..k + 1];
      }
    }
  }

  /** `**` stands for any bytes, */
  lemma {:induction false} DoubleStarMeans(rest: Str, v: Str)
    requires rest == [] || rest[0] != SLASH
    ensures Matches([STAR, STAR] + rest, v) <==> exists k :: 0 <= k <= |v| && Matches(rest, v[k..])
    decreases |v|
  {
    hide Matches;
    var p := [STAR, STAR] + rest;
    DoubleStarCase(p, v);
    assert p[2..] == rest;
    assert v[0..] == v;
    if v != [] {
      var tail := v[1..];
      DoubleStarMeans(rest, tail);
      assert forall k :: 0 <= k <= |tail| ==> v[k + 1..] == tail[k..];
      if k :| 0 < k <= |v| && Matches(rest, v[k..]) {
        assert tail[k - 1..] == v[k..];
      }
      if Matches(p, tail) {
        var k :| 0 <= k <= |tail| && Matches(rest, tail[k..]);
        assert Matches(rest, v[k + 1..]);
      }
    }
  }

  /** and so does `**` with a slash. */
  lemma {:induction false} DoubleStarSlashMeans(rest: Str, v: Str)
    ensures Matches([STAR, STAR, SLASH] + rest, v) <==> exists k :: 0 <= k <= |v| && Matches(rest, v[k..])
    decreases |v|
  {
    hide Matches;
    var p := [STAR, STAR, SLASH] + rest;
    DoubleStarCase(p, v);
    assert p[3..] == rest && p[2..] == [SLASH] + rest;
    LiteralMeans(SLASH, rest, v);
    assert v[0..] == v;
    if v != [] {
      var tail := v[1..];
      DoubleStarSlashMeans(rest, tail);
      assert forall k :: 0 <= k <= |tail| ==> v[k + 1..] == tail[k..];
      if k :| 0 < k <= |v| && Matches(rest, v[k..]) {
        assert tail[k - 1..] == v[k..];
      }
      if Matches(p, tail) {
        var k :| 0 <= k <= |tail| && Matches(rest, tail[k..]);
        assert Matches(rest, v[k + 1..]);
      }
    }
  }

  // ---- Classes ----

  /** A class without its end matches nothing. */
  lemma UnclosedMeans(rest: Str, v: Str)
    requires RBRACKET !in rest
    ensures !Matches([LBRACKET] + rest, v)
  {
    hide Matches;
    var p := [LBRACKET] + rest;
    ClassCase(p, v);
    FirstIndexAbsent(p, RBRACKET);
  }

  /** The class with these bytes between its brackets. */
  function ClassOf(items: Str): Str
  {
    [LBRACKET] + items + [RBRACKET]
  }

  lemma ClassIs(items: Str, b: Byte)
    requires RBRACKET !in items
    ensures Matches(ClassOf(items), [b]) <==> Accepts(ClassToken(items), [b])
  {
    hide Matches, Accepts, ClassToken;
    var p := ClassOf(items);
    FirstIndexUnique(p, RBRACKET, |items| + 1);
    assert p[1..|items| + 1] == items && p[|items| + 2..] == [];
    ClassCase(p, [b]);
    assert [b][1..] == [];
    EmptyMeans([]);
  }

  /** A class takes one byte; the pattern behind it goes on with the next. */
  lemma ClassThenRest(items: Str, rest: Str, v: Str)
    requires RBRACKET !in items
    ensures Matches(ClassOf(items) + rest, v) <==> v != [] && Matches(ClassOf(items), [v[0]]) && Matches(rest, v[1..])
  {
    hide Matches, Accepts, ClassToken;
    var p := ClassOf(items) + rest;
    FirstIndexUnique(p, RBRACKET, |items| + 1);
    assert p[1..|items| + 1] == items && p[|items| + 2..] == rest;
    ClassCase(p, v);
    if v != [] {
      ClassIs(items, v[0]);
    }
  }

  /** A class matches a byte other than the slash exactly if its negation does not. */
  lemma NegatedClassMeans(mark: Byte, items: Str, b: Byte)
    requires mark == BANG || mark == CARET
    requires RBRACKET !in items && (items == [] || (items[0] != BANG && items[0] != CARET))
    ensures !Matches(ClassOf(items), [SLASH]) && !Matches(ClassOf([mark] + items), [SLASH])
    ensures b != SLASH ==> (Matches(ClassOf([mark] + items), [b]) <==> !Matches(ClassOf(items), [b]))
  {
    hide Matches;
    var negated := [mark] + items;
    assert negated[1..] == items;
    assert RBRACKET !in negated;
    ClassIs(items, b);
    ClassIs(negated, b);
    ClassIs(items, SLASH);
    ClassIs(negated, SLASH);
  }

  lemma EmptyClassMeans(mark: Byte, b: Byte)
    requires mark == BANG || mark == CARET
    ensures !Matches(ClassOf([]), [b])
    ensures Matches(ClassOf([mark]), [b]) <==> b != SLASH
  {
    hide Matches;
    NegatedClassMeans(mark, [], b);
    assert [mark] + [] == [mark];
    ClassIs([], b);
    NoRanges(b);
  }

  /** Behind a negation mark the items are taken off one by one: a range, where two bytes follow
      the first and a dash comes next, */
  lemma RangeThenItems(mark: Byte, lo: Byte, hi: Byte, items: Str, b: Byte)
    requires mark == BANG || mark == CARET
    requires lo != RBRACKET && hi != RBRACKET && RBRACKET !in items
    ensures Matches(ClassOf([mark, lo, DASH, hi] + items), [b]) <==>
            !(lo <= b <= hi) && Matches(ClassOf([mark] + items), [b])
  {
    hide Matches, InRanges;
    var all, rest := [lo, DASH, hi] + items, [mark] + items;
    assert [mark, lo, DASH, hi] + items == [mark] + all;
    assert ([mark] + all)[1..] == all && rest[1..] == items && all[3..] == items;
    ClassIs([mark] + all, b);
    ClassIs(rest, b);
    RangesStep(all);
    InRangesPrepend(b, Range(lo, hi), Ranges(items));
  }

  /** or else a byte. */
  lemma ByteThenItems(mark: Byte, c: Byte, items: Str, b: Byte)
    requires mark == BANG || mark == CARET
    requires c != RBRACKET && RBRACKET !in items && (|items| < 2 || items[0] != DASH)
    ensures Matches(ClassOf([mark, c] + items), [b]) <==> b != c && Matches(ClassOf([mark] + items), [b])
  {
    hide Matches, InRanges;
    var all, rest := [c] + items, [mark] + items;
    assert [mark, c] + items == [mark] + all;
    assert ([mark] + all)[1..] == all && rest[1..] == items && all[1..] == items;
    ClassIs([mark] + all, b);
    ClassIs(rest, b);
    RangesStep(all);
    InRangesPrepend(b, Range(c, c), Ranges(items));
  }

  lemma InRangesPrepend(b: Byte, first: Range, ranges: seq<Range>)
    ensures InRanges(b, [first] + ranges) <==> first.lo <= b <= first.hi || InRanges(b, ranges)
  {
    var all := [first] + ranges;
    assert all[0] == first;
    if i :| 0 <= i < |ranges| && ranges[i].lo <= b <= ranges[i].hi {
      assert all[i + 1] == ranges[i];
    }
  }

  /** `[!abc]` and `[^abc]`: any byte but the slash and those. */
  lemma {:induction false} NegatedBytes(mark: Byte, items: Str, b: Byte)
    requires mark == BANG || mark == CARET
    requires RBRACKET !in items && DASH !in items
    ensures Matches(ClassOf([mark] + items), [b]) <==> b != SLASH && b !in items
  {
    hide Matches;
    if items == [] {
      EmptyClassMeans(mark, b);
      assert [mark] + items == [mark];
    } else {
      NegatedBytes(mark, items[1..], b);
      ByteThenItems(mark, items[0], items[1..], b);
      assert items == [items[0]] + items[1..];
      assert [mark, items[0]] + items[1..] == [mark] + items;
    }
  }

  /** `[abc]`: one of those bytes, unless it is the slash. */
  lemma Bytewise(items: Str, b: Byte)
    requires RBRACKET !in items && DASH !in items && (items == [] || (items[0] != BANG && items[0] != CARET))
    ensures Matches(ClassOf(items), [b]) <==> b != SLASH && b in items
  {
    hide Matches;
    NegatedBytes(BANG, items, b);
    NegatedClassMeans(BANG, items, b);
  }

  /** `[lo-hi]`, `[!lo-hi]` and `[^lo-hi]`. */
  lemma OneRange(lo: Byte, hi: Byte, mark: Byte, b: Byte)
    requires lo != RBRACKET && hi != RBRACKET && (mark == BANG || mark == CARET)
    ensures Matches(ClassOf([mark, lo, DASH, hi]), [b]) <==> b != SLASH && !(lo <= b <= hi)
    ensures lo != BANG && lo != CARET ==> (Matches(ClassOf([lo, DASH, hi]), [b]) <==> b != SLASH && lo <= b <= hi)
  {
    hide Matches;
    RangeThenItems(mark, lo, hi, [], b);
    assert [mark, lo, DASH, hi] + [] == [mark, lo, DASH, hi] && [mark] + [] == [mark];
    EmptyClassMeans(mark, b);
    if lo != BANG && lo != CARET {
      NegatedClassMeans(mark, [lo, DASH, hi], b);
      assert [mark] + [lo, DASH, hi] == [mark, lo, DASH, hi];
    }
  }
}
