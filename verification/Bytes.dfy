/** Byte strings: the common ground of the Rust and C++ sides of the extension.

    Both sides compare, search and cut strings byte by byte (`&[u8]`, `std::string`),
    so a string is modelled as a sequence of bytes and never as characters. */
module Bytes {

  type Byte = b: int | 0 <= b < 256
  type Str = seq<Byte>

  const NUL: Byte := 0
  const BANG: Byte := 33       // !
  const HASH: Byte := 35       // #
  const PERCENT: Byte := 37    // %
  const STAR: Byte := 42       // *
  const DASH: Byte := 45       // -
  const DOT: Byte := 46        // .
  const SLASH: Byte := 47      // /
  const COLON: Byte := 58      // :
  const QUESTION: Byte := 63   // ?
  const AT: Byte := 64         // @
  const LBRACKET: Byte := 91   // [
  const BACKSLASH: Byte := 92  // \
  const RBRACKET: Byte := 93   // ]
  const CARET: Byte := 94      // ^
  const PIPE: Byte := 124      // |

  const MAX_I64: nat := 0x7FFF_FFFF_FFFF_FFFF
  const MAX_U64: nat := 0xFFFF_FFFF_FFFF_FFFF

  /** The bytes by their characters, and the ends of the 64-bit ranges. */
  lemma NamedBytes()
    ensures [BANG, HASH, PERCENT, STAR, DASH, DOT, SLASH, COLON] ==
            ['!' as int, '#' as int, '%' as int, '*' as int, '-' as int, '.' as int, '/' as int, ':' as int]
    ensures [QUESTION, AT, LBRACKET, BACKSLASH, RBRACKET, CARET, PIPE] ==
            ['?' as int, '@' as int, '[' as int, '\\' as int, ']' as int, '^' as int, '|' as int]
    ensures NUL == 0 && MAX_U64 + 1 == 2 * (MAX_I64 + 1) == 0x1_0000_0000_0000_0000
  {
  }

  datatype Option<+T> = None | Some(value: T)

  /** Index of the first `b`, or the length of `s` when there is none. */
  function FirstIndex(s: Str, b: Byte): (i: nat)
    ensures i <= |s|
    ensures forall k :: 0 <= k < i ==> s[k] != b
    ensures i < |s| ==> s[i] == b
  {
    if s == [] then 0
    else if s[0] == b then 0
    else 1 + FirstIndex(s[1..], b)
  }

  /** Index of the last `b`, or -1 when there is none. */
  function LastIndex(s: Str, b: Byte): (i: int)
    ensures -1 <= i < |s|
    ensures forall k :: i < k < |s| ==> s[k] != b
    ensures i >= 0 ==> s[i] == b
  {
    if s == [] then -1
    else if s[|s| - 1] == b then |s| - 1
    else LastIndex(s[..|s| - 1], b)
  }

  /** The first index is the only one with no `b` before it. */
  lemma FirstIndexUnique(s: Str, b: Byte, i: nat)
    requires i < |s| && s[i] == b && forall k :: 0 <= k < i ==> s[k] != b
    ensures FirstIndex(s, b) == i
  {
  }

  lemma FirstIndexAbsent(s: Str, b: Byte)
    ensures FirstIndex(s, b) == |s| <==> b !in s
  {
  }

  /** Drops the leading slashes. */
  function TrimStart(s: Str): (r: Str)
    ensures |r| <= |s| && forall i :: 0 <= i < |r| ==> r[i] == s[|s| - |r| + i]
    ensures r != [] ==> r[0] != SLASH
    ensures forall i :: 0 <= i < |s| - |r| ==> s[i] == SLASH
  {
    if s != [] && s[0] == SLASH then TrimStart(s[1..]) else s
  }

  /** Drops the trailing slashes. */
  function TrimEnd(s: Str): (r: Str)
    ensures r <= s
    ensures r != [] ==> r[|r| - 1] != SLASH
    ensures forall i :: |r| <= i < |s| ==> s[i] == SLASH
  {
    if s != [] && s[|s| - 1] == SLASH then TrimEnd(s[..|s| - 1]) else s
  }

  /** Only the slashes in front of the first other byte are dropped. */
  lemma {:induction false} TrimStartOfConcat(a: Str, b: Str)
    requires b == [] || b[0] != SLASH
    ensures TrimStart(a + b) == TrimStart(a) + b
  {
    if a == [] {
      assert a + b == b;
    } else {
      assert (a + b)[1..] == a[1..] + b;
      if a[0] == SLASH {
        TrimStartOfConcat(a[1..], b);
      }
    }
  }

  function LowerByte(b: Byte): Byte
  {
    if 65 <= b <= 90 then b + 32 else b
  }

  /** `to_ascii_lowercase`. */
  function Lower(s: Str): (r: Str)
    ensures |r| == |s| && forall i :: 0 <= i < |s| ==> r[i] == LowerByte(s[i])
  {
    seq(|s|, i requires 0 <= i < |s| => LowerByte(s[i]))
  }

  /** Byte-wise lexicographic order, the order of `std::string` and of Rust's `String`. */
  predicate Less(a: Str, b: Str)
  {
    b != [] && (a == [] || a[0] < b[0] || (a[0] == b[0] && Less(a[1..], b[1..])))
  }

  /** The first difference decides; without one the shorter string comes first. */
  lemma {:induction false} LessMeans(front: Str, x: Byte, y: Byte, s: Str, t: Str)
    ensures Less(front + [x] + s, front + [y] + t) <==> x < y || (x == y && Less(s, t))
    ensures Less(front, front + [x] + s) && !Less(front + [x] + s, front)
  {
    var a, b := front + [x] + s, front + [y] + t;
    if front == [] {
      assert a[0] == x && a[1..] == s && b[0] == y && b[1..] == t;
    } else {
      LessMeans(front[1..], x, y, s, t);
      assert a[1..] == front[1..] + [x] + s && b[1..] == front[1..] + [y] + t;
    }
  }

  lemma {:induction false} LessIrreflexive(a: Str)
    ensures !Less(a, a)
  {
    if a != [] {
      LessIrreflexive(a[1..]);
    }
  }

  lemma {:induction false} LessTotal(a: Str, b: Str)
    ensures a == b || Less(a, b) || Less(b, a)
  {
    if a != [] && b != [] && a[0] == b[0] {
      LessTotal(a[1..], b[1..]);
      if a[1..] == b[1..] {
        assert a == [a[0]] + a[1..] == [b[0]] + b[1..] == b;
      }
    }
  }

  lemma {:induction false} LessTransitive(a: Str, b: Str, c: Str)
    requires Less(a, b) && Less(b, c)
    ensures Less(a, c)
  {
    if a != [] && a[0] == b[0] && b[0] == c[0] {
      LessTransitive(a[1..], b[1..], c[1..]);
    }
  }

  /** Strictly increasing, hence free of duplicates. */
  ghost predicate Ascending(s: seq<Str>)
  {
    forall i, j :: 0 <= i < j < |s| ==> Less(s[i], s[j])
  }

  /** The elements determine a strictly increasing sequence. */
  lemma {:induction false} AscendingUnique(s: seq<Str>, t: seq<Str>)
    requires Ascending(s) && Ascending(t)
    requires forall x :: x in s <==> x in t
    ensures s == t
  {
    if s == [] {
      assert forall k :: 0 <= k < |t| ==> t[k] in t;
    } else {
      assert s[0] in s;
      assert t != [];
      AscendingHeads(s, t);
      forall x ensures x in s[1..] <==> x in t[1..] {
        LessIrreflexive(s[0]);
        assert x in s <==> x == s[0] || x in s[1..];
        assert x in t <==> x == t[0] || x in t[1..];
        if x in s[1..] {
          assert Less(s[0], x);
        }
        if x in t[1..] {
          assert Less(t[0], x);
        }
      }
      AscendingUnique(s[1..], t[1..]);
      assert s == [s[0]] + s[1..];
      assert t == [t[0]] + t[1..];
    }
  }

  lemma AscendingHeads(s: seq<Str>, t: seq<Str>)
    requires s != [] && t != [] && Ascending(s) && Ascending(t)
    requires forall x :: x in s <==> x in t
    ensures s[0] == t[0]
  {
    assert s[0] in s && t[0] in t;
    var i :| 0 <= i < |t| && t[i] == s[0];
    var j :| 0 <= j < |s| && s[j] == t[0];
    if i > 0 && j > 0 {
      LessTransitive(s[0], s[j], s[0]);
      LessIrreflexive(s[0]);
      assert false;
    }
  }

  /** The members of a finite set in increasing order: how `std::map` and `BTreeMap` iterate. */
  ghost function Sorted(keys: set<Str>): (s: seq<Str>)
    ensures Ascending(s)
    ensures forall x :: x in s <==> x in keys
    ensures |s| == |keys|
  {
    if keys == {} then []
    else
      LeastExists(keys);
      var k :| k in keys && IsLeast(k, keys);
      var rest := Sorted(keys - {k});
      assert forall x :: x in rest ==> Less(k, x);
      [k] + rest
  }

  predicate IsLeast(k: Str, keys: set<Str>)
  {
    forall x :: x in keys && x != k ==> Less(k, x)
  }

  lemma {:induction false} LeastExists(keys: set<Str>)
    requires keys != {}
    ensures exists k :: k in keys && IsLeast(k, keys)
  {
    var x :| x in keys;
    if keys == {x} {
      assert IsLeast(x, keys);
    } else {
      var rest := keys - {x};
      assert rest == {} ==> keys == {x};
      LeastExists(rest);
      var m :| m in rest && IsLeast(m, rest);
      LessTotal(x, m);
      if Less(x, m) {
        forall y | y in keys && y != x ensures Less(x, y) {
          if y != m {
            LessTransitive(x, m, y);
          }
        }
        assert IsLeast(x, keys);
      } else {
        assert IsLeast(m, keys);
      }
    }
  }

  lemma SortedPick(k: Str, keys: set<Str>)
    requires k in keys && IsLeast(k, keys)
    ensures Sorted(keys) == [k] + Sorted(keys - {k})
  {
    hide Sorted, Less, Ascending;
    var rest := Sorted(keys - {k});
    PrependLeast(k, rest);
    forall x ensures x in Sorted(keys) <==> x in [k] + rest {
      assert x in [k] + rest <==> x == k || x in rest;
    }
    AscendingUnique(Sorted(keys), [k] + rest);
  }

  lemma PrependLeast(k: Str, rest: seq<Str>)
    requires Ascending(rest) && forall x :: x in rest ==> Less(k, x)
    ensures Ascending([k] + rest)
  {
    hide Less;
    assert forall j :: 0 <= j < |rest| ==> rest[j] in rest;
  }

  /** One step of an ordered iteration. */
  method TakeLeast(keys: set<Str>) returns (k: Str)
    requires keys != {}
    ensures k in keys
    ensures Sorted(keys) == [k] + Sorted(keys - {k})
  {
    LeastExists(keys);
    k :| k in keys && IsLeast(k, keys);
    SortedPick(k, keys);
  }
}
