/** What the URL codec accepts and produces, byte by byte (opendal/src/uri.rs, opendal/src/lib.rs). */
module UrlMeaning {
  import opened Bytes
  import opened Spaces
  import opened Url

  // ---- What is accepted ----

  /** `%2f` and `%2F` occur nowhere. */
  predicate NoEscapedSlash(s: Str)
  {
    forall i :: 2 <= i < |s| ==> !(s[i - 2] == PERCENT && s[i - 1] == 50 && (s[i] == 70 || s[i] == 102))
  }

  lemma NoEscapedSlashIs(s: Str)
    ensures HasEncodedSlash(s) <==> !NoEscapedSlash(s)
  {
    if i :| 0 <= i < |s| && EncodedSlashAt(s, i) {
      assert s[i + 2 - 2] == PERCENT && s[i + 2 - 1] == 50;
    }
    if i :| 2 <= i < |s| && s[i - 2] == PERCENT && s[i - 1] == 50 && (s[i] == 70 || s[i] == 102) {
      assert EncodedSlashAt(s, i - 2);
    }
  }

  lemma FoldKeepsEscapes(s: Str)
    ensures NoEscapedSlash(SlashFold(s)) <==> NoEscapedSlash(s)
  {
  }

  lemma FoldUrl(scheme: Str, authority: Str, encoded: Str)
    requires BACKSLASH !in scheme && BACKSLASH !in authority
    ensures SlashFold(scheme + SEPARATOR + authority + [SLASH] + encoded) ==
            scheme + SEPARATOR + (authority + [SLASH] + SlashFold(encoded))
    ensures SlashFold(scheme + SEPARATOR + authority) == scheme + SEPARATOR + authority
  {
  }

  lemma FoldKeepsOthers(s: Str, b: Byte)
    requires b != SLASH && b != BACKSLASH
    ensures b in SlashFold(s) <==> b in s
  {
    if b in s {
      var i :| 0 <= i < |s| && s[i] == b;
      assert SlashFold(s)[i] == b;
    }
    if b in SlashFold(s) {
      var i :| 0 <= i < |s| && SlashFold(s)[i] == b;
      assert s[i] == b;
    }
  }

  /** The exact conditions for a URL with a path to be accepted, and what it resolves to. In
      particular an accepted URL keeps its segments: a slash of the path is a slash of the URL. */
  lemma AcceptedExactly(schemes: set<Str>, scheme: Str, authority: Str, encoded: Str)
    requires SLASH !in scheme && BACKSLASH !in scheme && SLASH !in authority && BACKSLASH !in authority
    ensures var url := scheme + SEPARATOR + authority + [SLASH] + encoded;
            var path := Decode(SlashFold(encoded));
            && (Resolve(schemes, url).Ok? <==>
                  && Utf8(url) && QUESTION !in url && HASH !in url
                  && Lower(scheme) in schemes && AT !in authority
                  && NoEscapedSlash(encoded) && Utf8(path) && NUL !in path)
            && (Resolve(schemes, url) == Rejected(Unsupported) <==>
                  Utf8(url) && QUESTION !in url && HASH !in url && Lower(scheme) !in schemes)
            && (Resolve(schemes, url).Ok? ==>
                  && Resolve(schemes, url).location == Location(Lower(scheme), authority, path)
                  && Split(path) == DecodeAll(Split(SlashFold(encoded))))
  {
    hide Utf8, Decode, Split, DecodeAll, SlashFold, Lower, HasEncodedSlash, NoEscapedSlash, FindScheme;
    var url := scheme + SEPARATOR + authority + [SLASH] + encoded;
    var folded := SlashFold(encoded);
    var remainder := authority + [SLASH] + folded;
    FoldUrl(scheme, authority, encoded);
    FoldKeepsOthers(url, QUESTION);
    FoldKeepsOthers(url, HASH);
    FindSchemeUnique(scheme, remainder);
    var u := scheme + SEPARATOR + remainder;
    assert u[..|scheme|] == scheme && u[|scheme| + 3..] == remainder;
    FirstIndexUnique(remainder, SLASH, |authority|);
    assert remainder[..|authority|] == authority && remainder[|authority| + 1..] == folded;
    NoEscapedSlashIs(folded);
    FoldKeepsEscapes(encoded);
    if !HasEncodedSlash(folded) {
      DecodeKeepsSegments(folded);
    }
  }

  /** Without a slash behind the authority the path is empty. */
  lemma AcceptedWithoutPath(schemes: set<Str>, scheme: Str, authority: Str)
    requires SLASH !in scheme && BACKSLASH !in scheme && SLASH !in authority && BACKSLASH !in authority
    ensures var url := scheme + SEPARATOR + authority;
            && (Resolve(schemes, url).Ok? <==>
                  Utf8(url) && QUESTION !in url && HASH !in url && Lower(scheme) in schemes && AT !in authority)
            && (Resolve(schemes, url).Ok? ==> Resolve(schemes, url).location == Location(Lower(scheme), authority, []))
  {
    hide SlashFold, Lower, FindScheme, CharLength;
    var url := scheme + SEPARATOR + authority;
    FoldUrl(scheme, authority, []);
    FindSchemeUnique(scheme, authority);
    assert url[..|scheme|] == scheme && url[|scheme| + 3..] == authority;
    FirstIndexAbsent(authority, SLASH);
    assert authority[..|authority|] == authority;
    assert !HasEncodedSlash([]) && Decode([]) == [] && Utf8([]);
  }

  /** Without `://` nothing is accepted. */
  lemma NoSeparatorRejected(schemes: set<Str>, url: Str)
    requires forall i :: 2 <= i < |url| ==>
               !(url[i - 2] == COLON && (url[i - 1] == SLASH || url[i - 1] == BACKSLASH) && (url[i] == SLASH || url[i] == BACKSLASH))
    ensures Resolve(schemes, url).Rejected?
  {
    hide Utf8;
    var u := SlashFold(url);
    forall i | 0 <= i < |u| ensures !SchemeEndsAt(u, i) {
      if i + 2 < |u| {
        var j := i + 2;
        assert !(url[j - 2] == COLON && (url[j - 1] == SLASH || url[j - 1] == BACKSLASH) && (url[j] == SLASH || url[j] == BACKSLASH));
      }
    }
  }

  // ---- Escapes ----

  /** The hexadecimal digits, capital or small. */
  lemma HexMeans(k: nat)
    ensures k < 10 ==> IsHex(48 + k) && HexValue(48 + k) == k
    ensures k < 6 ==> IsHex(65 + k) && IsHex(97 + k) && HexValue(65 + k) == HexValue(97 + k) == 10 + k
  {
  }

  lemma NoOtherHex(b: Byte)
    requires !(48 <= b <= 57) && !(65 <= b <= 70) && !(97 <= b <= 102)
    ensures !IsHex(b)
  {
  }

  /** An escape is a percent sign and two hexadecimal digits, and stands for the byte they write;
      every other byte stands for itself. */
  lemma DecodeMeans(h: Byte, l: Byte, rest: Str)
    requires IsHex(h) && IsHex(l)
    ensures Decode([PERCENT, h, l] + rest) == [HexValue(h) * 16 + HexValue(l)] + Decode(rest)
  {
    hide HexValue, IsHex;
    assert ([PERCENT, h, l] + rest)[3..] == rest;
  }

  lemma DecodeOther(b: Byte, rest: Str)
    requires b == PERCENT ==> |rest| < 2 || !IsHex(rest[0]) || !IsHex(rest[1])
    ensures Decode([b] + rest) == [b] + Decode(rest)
  {
    hide HexValue, IsHex;
    var s := [b] + rest;
    assert s[1..] == rest;
    assert |s| > 2 ==> s[1] == rest[0] && s[2] == rest[1];
  }

  /** Graphic ASCII but for `"`, `#`, `%` and `?` stands in a path as it is. */
  predicate PlainInPath(b: Byte)
  {
    33 <= b <= 126 && b != 34 && b != 35 && b != 37 && b != 63
  }

  /** The encoder leaves exactly the plain bytes, and writes every other one with capital digits. */
  lemma EncodeMeans(b: Byte, rest: Str)
    ensures PlainInPath(b) ==> Encode([b] + rest) == [b] + Encode(rest)
    ensures !PlainInPath(b) ==>
              exists h: Byte, l: Byte ::
                && Encode([b] + rest) == [PERCENT, h, l] + Encode(rest)
                && (48 <= h <= 57 || 65 <= h <= 70) && (48 <= l <= 57 || 65 <= l <= 70)
                && HexValue(h) * 16 + HexValue(l) == b
  {
    assert ([b] + rest)[1..] == rest;
    if !PlainInPath(b) {
      var h, l := HexDigit(b / 16), HexDigit(b % 16);
      assert Encode([b] + rest) == [PERCENT, h, l] + Encode(rest);
      assert HexValue(h) * 16 + HexValue(l) == b;
    }
  }

  // ---- Segments ----

  /** Splitting cuts at every slash and only there. */
  lemma {:induction false} SplitMeans(s: Str)
    ensures Join(Split(s)) == s
    ensures forall segment :: segment in Split(s) ==> SLASH !in segment
  {
    var i := FirstIndex(s, SLASH);
    if i < |s| {
      SplitMeans(s[i + 1..]);
      assert s == s[..i] + [SLASH] + s[i + 1..];
      JoinCons(s[..i], Split(s[i + 1..]));
    }
  }

  // ---- Characters ----

  /** The code point a leading byte and its continuations write. */
  function CodePoint(c: Str): int
    requires 1 <= |c| <= 4
  {
    var a: int := c[0];
    if |c| == 1 then a
    else if |c| == 2 then (a - 0xC0) * 64 + Low(c[1])
    else if |c| == 3 then (a - 0xE0) * 4096 + Low(c[1]) * 64 + Low(c[2])
    else (a - 0xF0) * 262144 + Low(c[1]) * 4096 + Low(c[2]) * 64 + Low(c[3])
  }

  /** The bits a continuation byte carries. */
  function Low(b: Byte): int
  {
    var n: int := b;
    n - 0x80
  }

  /** The bytes have the form of one character: the leading byte tells their number. */
  predicate FormOfCharacter(c: Str)
  {
    || (|c| == 1 && c[0] < 0x80)
    || (|c| == 2 && 0xC0 <= c[0] < 0xE0 && 0x80 <= c[1] < 0xC0)
    || (|c| == 3 && 0xE0 <= c[0] < 0xF0 && 0x80 <= c[1] < 0xC0 && 0x80 <= c[2] < 0xC0)
    || (|c| == 4 && 0xF0 <= c[0] < 0xF8 && 0x80 <= c[1] < 0xC0 && 0x80 <= c[2] < 0xC0 && 0x80 <= c[3] < 0xC0)
  }

  /** A character is well formed if its code point needs that many bytes, is no surrogate and is in
      the range of Unicode. */
  lemma CharacterMeans(c: Str)
    requires FormOfCharacter(c)
    ensures CharLength(c) == |c| <==>
            var p := CodePoint(c);
            && (|c| == 2 ==> p >= 0x80) && (|c| == 3 ==> p >= 0x800) && (|c| == 4 ==> p >= 0x10000)
            && !(0xD800 <= p <= 0xDFFF) && p <= 0x10FFFF
  {
  }

  /** The first character of a text is the only beginning that has the form of one and is well
      formed. */
  lemma FirstCharacter(s: Str)
    ensures CharLength(s) > 0 ==> FormOfCharacter(s[..CharLength(s)]) && CharLength(s[..CharLength(s)]) == CharLength(s)
    ensures forall n :: 0 < n <= |s| && FormOfCharacter(s[..n]) && CharLength(s[..n]) == n ==> CharLength(s) == n
  {
  }

  /** The characters that are trimmed from paths, by their code points: Unicode's White_Space. */
  lemma SpaceMeans(c: Str)
    ensures IsSpace(c) ==> FormOfCharacter(c)
    ensures FormOfCharacter(c) && CharLength(c) == |c| ==>
              (IsSpace(c) <==>
                 var p := CodePoint(c);
                 || 0x9 <= p <= 0xD || p == 0x20 || p == 0x85 || p == 0xA0 || p == 0x1680 || 0x2000 <= p <= 0x200A
                 || p == 0x2028 || p == 0x2029 || p == 0x202F || p == 0x205F || p == 0x3000)
  {
  }

  /** Capital and small letters. */
  lemma LowerMeans(s: Str, i: nat)
    requires i < |s|
    ensures 65 <= s[i] <= 90 ==> Lower(s)[i] == s[i] + 32
    ensures !(65 <= s[i] <= 90) ==> Lower(s)[i] == s[i]
  {
  }

  /** Only text is written into a URL, and then the URL is text. */
  lemma OnlyTextIsBuilt(scheme: Str, authority: Str, path: Str)
    ensures Build(scheme, authority, path).Some? <==> Utf8(scheme) && Utf8(authority) && Utf8(path)
    ensures Build(scheme, authority, path).Some? ==> Utf8(Build(scheme, authority, path).value)
  {
    hide Utf8;
    if Utf8(scheme) && Utf8(authority) && Utf8(path) {
      EncodeBySegment(path);
      BuiltIsUtf8(scheme, authority, path);
    }
  }
}
