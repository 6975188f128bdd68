/** The glob matcher (opendal/src/table.rs, `glob_matches`).

    The language of a pattern is given declaratively: a pattern is a list of tokens, and
    it matches a value when the value can be cut into one piece per token such that every
    token accepts its piece. The memoised recursive matcher is proved to decide exactly
    this language, within a bound on the number of its calls. */
module Glob {
  import opened Bytes

  // ---- The language of a pattern ----

  datatype Range = Range(lo: Byte, hi: Byte)

  datatype Token =
    | Literal(b: Byte)
    | AnyByte                                       // ?
    | Star                                          // *
    | DoubleStar                                    // ** with an optional slash behind it
    | Class(negated: bool, ranges: seq<Range>)      // [...]
    | Unclosed                                      // [ without a ]

  /** `a-z` is a range wherever two bytes follow the current one; any other byte is itself. */
  function Ranges(items: Str): seq<Range>
  {
    if items == [] then []
    else if |items| > 2 && items[1] == DASH then [Range(items[0], items[2])] + Ranges(items[3..])
    else [Range(items[0], items[0])] + Ranges(items[1..])
  }

  predicate IsNegated(items: Str)
  {
    items != [] && (items[0] == BANG || items[0] == CARET)
  }

  function ClassToken(items: Str): Token
  {
    if IsNegated(items) then Class(true, Ranges(items[1..])) else Class(false, Ranges(items))
  }

  predicate IsDoubleStar(pattern: Str)
  {
    |pattern| >= 2 && pattern[0] == STAR && pattern[1] == STAR
  }

  function Tokens(pattern: Str): seq<Token>
  {
    if pattern == [] then []
    else if IsDoubleStar(pattern) then
      [DoubleStar] + Tokens(if |pattern| > 2 && pattern[2] == SLASH then pattern[3..] else pattern[2..])
    else if pattern[0] == STAR then [Star] + Tokens(pattern[1..])
    else if pattern[0] == QUESTION then [AnyByte] + Tokens(pattern[1..])
    else if pattern[0] == LBRACKET then
      var end := FirstIndex(pattern, RBRACKET);
      if end == |pattern| then [Unclosed]
      else [ClassToken(pattern[1..end])] + Tokens(pattern[end + 1..])
    else [Literal(pattern[0])] + Tokens(pattern[1..])
  }

  predicate InRanges(b: Byte, ranges: seq<Range>)
  {
    exists i :: 0 <= i < |ranges| && ranges[i].lo <= b <= ranges[i].hi
  }

  /** What one token stands for. */
  predicate Accepts(token: Token, piece: Str)
  {
    match token
    case Literal(b) => piece == [b]
    case AnyByte => |piece| == 1 && piece[0] != SLASH
    case Star => SLASH !in piece
    case DoubleStar => true
    case Class(negated, ranges) => |piece| == 1 && piece[0] != SLASH && InRanges(piece[0], ranges) != negated
    case Unclosed => false
  }

  function Concat(pieces: seq<Str>): Str
  {
    if pieces == [] then [] else pieces[0] + Concat(pieces[1..])
  }

  ghost predicate IsCut(pieces: seq<Str>, tokens: seq<Token>, value: Str)
  {
    && |pieces| == |tokens|
    && Concat(pieces) == value
    && forall i :: 0 <= i < |tokens| ==> Accepts(tokens[i], pieces[i])
  }

  ghost predicate InLanguage(tokens: seq<Token>, value: Str)
  {
    exists pieces :: IsCut(pieces, tokens, value)
  }

  ghost predicate Matches(pattern: Str, value: Str)
  {
    InLanguage(Tokens(pattern), value)
  }

  // ---- One step of the language, token by token ----

  lemma EmptyLanguage(value: Str)
    ensures InLanguage([], value) <==> value == []
  {
    assert value == [] ==> IsCut([], [], value);
  }

  /** The first piece of a cut can be split off. */
  lemma ConsLanguage(token: Token, rest: seq<Token>, value: Str)
    ensures InLanguage([token] + rest, value) <==>
            exists k :: 0 <= k <= |value| && Accepts(token, value[..k]) && InLanguage(rest, value[k..])
  {
    if InLanguage([token] + rest, value) {
      var pieces :| IsCut(pieces, [token] + rest, value);
      var k := |pieces[0]|;
      assert value[..k] == pieces[0] && value[k..] == Concat(pieces[1..]);
      assert ([token] + rest)[0] == token;
      forall i | 0 <= i < |rest| ensures Accepts(rest[i], pieces[1..][i]) {
        assert ([token] + rest)[i + 1] == rest[i];
      }
      assert IsCut(pieces[1..], rest, value[k..]);
    }
    if k :| 0 <= k <= |value| && Accepts(token, value[..k]) && InLanguage(rest, value[k..]) {
      var pieces :| IsCut(pieces, rest, value[k..]);
      var all := [value[..k]] + pieces;
      assert all[1..] == pieces;
      assert value == value[..k] + value[k..];
      assert IsCut(all, [token] + rest, value);
    }
  }

  predicate SingleByte(token: Token)
  {
    token.Literal? || token.AnyByte? || token.Class? || token.Unclosed?
  }

  lemma SingleByteStep(token: Token, rest: seq<Token>, value: Str)
    requires SingleByte(token)
    ensures InLanguage([token] + rest, value) <==>
            value != [] && Accepts(token, [value[0]]) && InLanguage(rest, value[1..])
  {
    ConsLanguage(token, rest, value);
    if value != [] {
      assert value[..1] == [value[0]];
    }
    forall k | 0 <= k <= |value| && Accepts(token, value[..k]) ensures k == 1 {
      assert |value[..k]| == k;
    }
  }

  lemma StarStep(rest: seq<Token>, value: Str)
    ensures InLanguage([Star] + rest, value) <==>
            InLanguage(rest, value) ||
            (value != [] && value[0] != SLASH && InLanguage([Star] + rest, value[1..]))
  {
    RepeatStep(Star, rest, value);
  }

  lemma DoubleStarStep(rest: seq<Token>, value: Str)
    ensures InLanguage([DoubleStar] + rest, value) <==>
            InLanguage(rest, value) || (value != [] && InLanguage([DoubleStar] + rest, value[1..]))
  {
    RepeatStep(DoubleStar, rest, value);
  }

  /** Both stars accept the empty piece, and a longer one byte by byte. */
  lemma RepeatStep(token: Token, rest: seq<Token>, value: Str)
    requires token.Star? || token.DoubleStar?
    ensures InLanguage([token] + rest, value) <==>
            InLanguage(rest, value) ||
            (value != [] && (token.DoubleStar? || value[0] != SLASH) && InLanguage([token] + rest, value[1..]))
  {
    hide InLanguage;
    ConsLanguage(token, rest, value);
    if InLanguage(rest, value) {
      assert value[..0] == [] && value[0..] == value;
      assert Accepts(token, value[..0]);
    }
    if value != [] {
      var tail := value[1..];
      ConsLanguage(token, rest, tail);
      if (token.DoubleStar? || value[0] != SLASH) && InLanguage([token] + rest, tail) {
        var k :| 0 <= k <= |tail| && Accepts(token, tail[..k]) && InLanguage(rest, tail[k..]);
        assert value[..k + 1] == [value[0]] + tail[..k] && value[k + 1..] == tail[k..];
        assert Accepts(token, value[..k + 1]);
      }
      if k :| 0 < k <= |value| && Accepts(token, value[..k]) && InLanguage(rest, value[k..]) {
        assert value[..k] == [value[0]] + tail[..k - 1] && value[k..] == tail[k - 1..];
        assert Accepts(token, tail[..k - 1]);
      }
    }
  }

  /** `**` behind a slash: skipping the slash or not makes no difference, since the star may
      eat any bytes first, a slash included. So the three alternatives of the matcher denote
      the same language as the plain double star. */
  lemma DoubleStarSlashStep(tail: Str, value: Str)
    ensures InLanguage([DoubleStar] + Tokens(tail), value) <==>
            Matches(tail, value) || Matches([SLASH] + tail, value) ||
            (value != [] && InLanguage([DoubleStar] + Tokens(tail), value[1..]))
  {
    DoubleStarStep(Tokens(tail), value);
    assert Tokens([SLASH] + tail) == [Literal(SLASH)] + Tokens(tail) by {
      assert ([SLASH] + tail)[1..] == tail;
    }
    SingleByteStep(Literal(SLASH), Tokens(tail), value);
    if value != [] {
      DoubleStarStep(Tokens(tail), value[1..]);
    }
  }

  // ---- The same steps, pattern by pattern ----

  lemma DoubleStarCase(p: Str, v: Str)
    requires IsDoubleStar(p)
    ensures Matches(p, v) <==>
            || (|p| > 2 && p[2] == SLASH && Matches(p[3..], v))
            || Matches(p[2..], v)
            || (v != [] && Matches(p, v[1..]))
  {
    if |p| > 2 && p[2] == SLASH {
      DoubleStarSlashStep(p[3..], v);
      assert p[2..] == [SLASH] + p[3..];
    } else {
      DoubleStarStep(Tokens(p[2..]), v);
    }
  }

  lemma StarCase(p: Str, v: Str)
    requires p != [] && p[0] == STAR && !IsDoubleStar(p)
    ensures Matches(p, v) <==> Matches(p[1..], v) || (v != [] && v[0] != SLASH && Matches(p, v[1..]))
  {
    StarStep(Tokens(p[1..]), v);
  }

  lemma QuestionCase(p: Str, v: Str)
    requires p != [] && p[0] == QUESTION
    ensures Matches(p, v) <==> v != [] && v[0] != SLASH && Matches(p[1..], v[1..])
  {
    SingleByteStep(AnyByte, Tokens(p[1..]), v);
  }

  lemma ClassCase(p: Str, v: Str)
    requires p != [] && p[0] == LBRACKET
    ensures var end := FirstIndex(p, RBRACKET);
            Matches(p, v) <==>
              end < |p| && v != [] && Accepts(ClassToken(p[1..end]), [v[0]]) && Matches(p[end + 1..], v[1..])
  {
    var end := FirstIndex(p, RBRACKET);
    if end == |p| {
      SingleByteStep(Unclosed, [], v);
      assert [Unclosed] + [] == [Unclosed];
    } else {
      SingleByteStep(ClassToken(p[1..end]), Tokens(p[end + 1..]), v);
    }
  }

  predicate Wildcard(b: Byte)
  {
    b == STAR || b == QUESTION || b == LBRACKET
  }

  lemma LiteralCase(p: Str, v: Str)
    requires p != [] && !Wildcard(p[0])
    ensures Matches(p, v) <==> v != [] && p[0] == v[0] && Matches(p[1..], v[1..])
  {
    SingleByteStep(Literal(p[0]), Tokens(p[1..]), v);
  }

  // ---- The memoised matcher ----

  /** The inner loop: whether `b` is in the class, before negation. */
  method MatchClass(items: Str, b: Byte) returns (matched: bool)
    ensures matched <==> InRanges(b, Ranges(items))
  {
    matched := false;
    var index := 0;
    ghost var done: seq<Range> := [];
    hide InRanges, Ranges;
    NoRanges(b);
    assert items[0..] == items;
    while index < |items|
      invariant 0 <= index <= |items|
      invariant done + Ranges(items[index..]) == Ranges(items)
      invariant matched <==> InRanges(b, done)
    {
      RangesStep(items[index..]);
      if index + 2 < |items| && items[index + 1] == DASH {
        ghost var range := Range(items[index], items[index + 2]);
        InRangesAppend(b, done, range);
        done := done + [range];
        matched := matched || items[index] <= b <= items[index + 2];
        index := index + 3;
      } else {
        ghost var range := Range(items[index], items[index]);
        InRangesAppend(b, done, range);
        done := done + [range];
        matched := matched || items[index] == b;
        index := index + 1;
      }
    }
    assert items[index..] == [];
    assert done + [] == done;
  }

  lemma NoRanges(b: Byte)
    ensures Ranges([]) == []
    ensures !InRanges(b, [])
  {
  }

  lemma RangesStep(rest: Str)
    requires rest != []
    ensures Ranges(rest) == if |rest| > 2 && rest[1] == DASH then [Range(rest[0], rest[2])] + Ranges(rest[3..])
                            else [Range(rest[0], rest[0])] + Ranges(rest[1..])
  {
  }

  lemma InRangesAppend(b: Byte, ranges: seq<Range>, last: Range)
    ensures InRanges(b, ranges + [last]) <==> InRanges(b, ranges) || last.lo <= b <= last.hi
  {
    var all := ranges + [last];
    if InRanges(b, ranges) {
      var i :| 0 <= i < |ranges| && ranges[i].lo <= b <= ranges[i].hi;
      assert all[i] == ranges[i];
    }
    assert all[|ranges|] == last;
  }

  type Lengths = (nat, nat)

  /** The suffix of `s` that is `n` bytes long. */
  function Suffix(s: Str, n: nat): Str
    requires n <= |s|
  {
    s[|s| - n..]
  }

  /** The keys a run on these lengths can store: both remaining lengths at most the initial ones. */
  ghost function Grid(rows: nat, columns: nat): set<Lengths>
  {
    set i: nat, j: nat | i <= rows && j <= columns :: (i, j)
  }

  lemma {:induction false} GridSize(rows: nat, columns: nat)
    ensures |Grid(rows, columns)| == (rows + 1) * (columns + 1)
    decreases rows
  {
    var last := set j: nat | j <= columns :: (rows, j);
    RowSize(rows, columns);
    if rows == 0 {
      assert Grid(0, columns) == last;
    } else {
      GridSize(rows - 1, columns);
      var above := Grid(rows - 1, columns);
      assert Grid(rows, columns) == above + last;
      assert |above + last| == |above| + |last|;
      assert |above| + (columns + 1) == (rows + 1) * (columns + 1) by {
        assert rows * (columns + 1) + (columns + 1) == (rows + 1) * (columns + 1);
      }
    }
  }

  lemma {:induction false} RowSize(row: nat, columns: nat)
    ensures |set j: nat | j <= columns :: (row, j)| == columns + 1
  {
    var cells := set j: nat | j <= columns :: (row, j);
    if columns == 0 {
      assert cells == {(row, 0)};
    } else {
      RowSize(row, columns - 1);
      assert cells == (set j: nat | j <= columns - 1 :: (row, j)) + {(row, columns)};
    }
  }

  lemma CardinalityMonotone<T>(small: set<T>, big: set<T>)
    requires small <= big
    ensures |small| <= |big|
  {
    assert big == small + (big - small);
  }

  /** The matcher with its memo, which is keyed by the two remaining lengths only. */
  class Matcher {
    ghost const pattern: Str
    ghost const value: Str
    var memo: map<Lengths, bool>
    ghost var calls: nat

    constructor (ghost p: Str, ghost v: Str)
      ensures pattern == p && value == v && memo == map[] && calls == 0
    {
      pattern, value := p, v;
      memo, calls := map[], 0;
    }

    /** Every stored answer is the right one for the suffixes its key stands for. */
    ghost predicate Sound()
      reads this
    {
      forall key :: key in memo ==>
        && key.0 <= |pattern| && key.1 <= |value|
        && memo[key] == Matches(Suffix(pattern, key.0), Suffix(value, key.1))
    }

    /** `before` has only gained keys with remaining lengths up to `rows` and `columns`. */
    ghost predicate Grew(before: map<Lengths, bool>, rows: int, columns: int)
      reads this
    {
      && before.Keys <= memo.Keys
      && forall key :: key in memo && key !in before ==> key.0 <= rows && key.1 <= columns
    }

    ghost predicate Reached(p: Str, v: Str)
    {
      |p| <= |pattern| && p == Suffix(pattern, |p|) && |v| <= |value| && v == Suffix(value, |v|)
    }

    /** One call: look the pair up, or expand it and store the answer. The bound counts three
        calls for every key stored, since only an expansion that stores its answer recurses. */
    method Run(p: Str, v: Str) returns (result: bool)
      requires Sound() && Reached(p, v)
      modifies this
      ensures Sound()
      ensures result <==> Matches(p, v)
      ensures Grew(old(memo), |p|, |v|)
      ensures calls - old(calls) <= 1 + 3 * (|memo| - |old(memo)|)
      decreases |p| + |v|, 2
    {
      hide Matches;
      calls := calls + 1;
      var key := (|p|, |v|);
      if key in memo {
        return memo[key];
      }
      var store;
      result, store := Expand(p, v);
      if store {
        memo := memo[key := result];
      }
    }

    lemma Descend(p: Str, v: Str, i: nat, j: nat)
      requires Reached(p, v) && i <= |p| && j <= |v|
      ensures Reached(p[i..], v[j..])
    {
    }

    /** The case analysis on the pattern. Only an unclosed class leaves `store` false, and then
        nothing has been called. */
    method Expand(p: Str, v: Str) returns (result: bool, store: bool)
      requires Sound() && Reached(p, v) && (|p|, |v|) !in memo
      modifies this
      ensures Sound()
      ensures result <==> Matches(p, v)
      ensures Grew(old(memo), |p|, |v|) && (|p|, |v|) !in memo
      ensures calls - old(calls) <= (if store then 3 else 0) + 3 * (|memo| - |old(memo)|)
      decreases |p| + |v|, 1
    {
      hide InLanguage, Sound, Reached;
      store := true;
      if p == [] {
        result := v == [];
        EmptyLanguage(v);
      } else if IsDoubleStar(p) {
        result := ExpandDoubleStar(p, v);
      } else if p[0] == STAR {
        result := ExpandStar(p, v);
      } else if p[0] == QUESTION {
        hide Matches;
        QuestionCase(p, v);
        result := false;
        if v != [] && v[0] != SLASH {
          Descend(p, v, 1, 1);
          result := Run(p[1..], v[1..]);
        }
      } else if p[0] == LBRACKET {
        hide Matches;
        if FirstIndex(p, RBRACKET) == |p| {
          ClassCase(p, v);
          return false, false;
        }
        result := ExpandClass(p, v);
      } else {
        hide Matches;
        LiteralCase(p, v);
        result := false;
        if v != [] && p[0] == v[0] {
          Descend(p, v, 1, 1);
          result := Run(p[1..], v[1..]);
        }
      }
    }

    method ExpandDoubleStar(p: Str, v: Str) returns (result: bool)
      requires Sound() && Reached(p, v) && (|p|, |v|) !in memo
      requires IsDoubleStar(p)
      modifies this
      ensures Sound()
      ensures result <==> Matches(p, v)
      ensures Grew(old(memo), |p|, |v|) && (|p|, |v|) !in memo
      ensures calls - old(calls) <= 3 + 3 * (|memo| - |old(memo)|)
      decreases |p| + |v|, 0
    {
      hide Matches, Sound, Reached;
      DoubleStarCase(p, v);
      result := false;
      if |p| > 2 && p[2] == SLASH {
        Descend(p, v, 3, 0);
        result := Run(p[3..], v);
      }
      if !result {
        Descend(p, v, 2, 0);
        result := Run(p[2..], v);
      }
      if !result && v != [] {
        Descend(p, v, 0, 1);
        result := Run(p, v[1..]);
      }
    }

    method ExpandStar(p: Str, v: Str) returns (result: bool)
      requires Sound() && Reached(p, v) && (|p|, |v|) !in memo
      requires p != [] && p[0] == STAR && !IsDoubleStar(p)
      modifies this
      ensures Sound()
      ensures result <==> Matches(p, v)
      ensures Grew(old(memo), |p|, |v|) && (|p|, |v|) !in memo
      ensures calls - old(calls) <= 3 + 3 * (|memo| - |old(memo)|)
      decreases |p| + |v|, 0
    {
      hide Matches, Sound, Reached;
      StarCase(p, v);
      Descend(p, v, 1, 0);
      result := Run(p[1..], v);
      if !result && v != [] && v[0] != SLASH {
        Descend(p, v, 0, 1);
        result := Run(p, v[1..]);
      }
    }

    method ExpandClass(p: Str, v: Str) returns (result: bool)
      requires Sound() && Reached(p, v) && (|p|, |v|) !in memo
      requires p != [] && p[0] == LBRACKET && RBRACKET in p
      modifies this
      ensures Sound()
      ensures result <==> Matches(p, v)
      ensures Grew(old(memo), |p|, |v|) && (|p|, |v|) !in memo
      ensures calls - old(calls) <= 3 + 3 * (|memo| - |old(memo)|)
      decreases |p| + |v|, 0
    {
      hide Matches, Sound, Reached;
      ClassCase(p, v);
      var end := FirstIndex(p, RBRACKET);
      var items := p[1..end];
      if v == [] || v[0] == SLASH {
        result := false;
      } else {
        var negated := IsNegated(items);
        var matched := MatchClass(if negated then items[1..] else items, v[0]);
        result := false;
        if matched != negated {
          Descend(p, v, end + 1, 1);
          result := Run(p[end + 1..], v[1..]);
        }
      }
    }
  }

  /** The whole matcher: it decides the language, and it expands every pair of suffixes at
      most once, so the number of calls is bounded by the product of the two lengths. */
  method GlobMatches(pattern: Str, value: Str) returns (result: bool, ghost calls: nat)
    ensures result <==> Matches(pattern, value)
    ensures calls <= 1 + 3 * ((|pattern| + 1) * (|value| + 1))
  {
    var matcher := new Matcher(pattern, value);
    result := matcher.Run(pattern, value);
    calls := matcher.calls;
    GridSize(|pattern|, |value|);
    CardinalityMonotone(matcher.memo.Keys, Grid(|pattern|, |value|));
  }
}
