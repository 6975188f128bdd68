/** The URL codec: `resolve` (opendal/src/uri.rs) and `od_url_build` (opendal/src/lib.rs).

    Percent-encoding follows section 2.1 of RFC 3986, UTF-8 well-formedness the table of
    section 4 of RFC 3629. */
module Url {
  import opened Bytes

  // ---- UTF-8 ----

  predicate Continuation(b: Byte)
  {
    0x80 <= b <= 0xBF
  }

  /** Length of the well-formed character at the front of `s`, 0 when there is none. */
  function CharLength(s: Str): (n: nat)
    ensures n <= |s|
    ensures forall i :: 1 <= i < n ==> Continuation(s[i])
    ensures n > 1 ==> s[0] >= 0x80
  {
    if s == [] then 0
    else if s[0] < 0x80 then 1
    else if |s| >= 2 && 0xC2 <= s[0] <= 0xDF && Continuation(s[1]) then 2
    else if |s| >= 3 && 0xE0 <= s[0] <= 0xEF && Continuation(s[1]) && Continuation(s[2])
            && (s[0] == 0xE0 ==> s[1] >= 0xA0) && (s[0] == 0xED ==> s[1] <= 0x9F) then 3
    else if |s| >= 4 && 0xF0 <= s[0] <= 0xF4 && Continuation(s[1]) && Continuation(s[2]) && Continuation(s[3])
            && (s[0] == 0xF0 ==> s[1] >= 0x90) && (s[0] == 0xF4 ==> s[1] <= 0x8F) then 4
    else 0
  }

  predicate Utf8(s: Str)
  {
    s == [] || (CharLength(s) > 0 && Utf8(s[CharLength(s)..]))
  }

  lemma {:induction false} Utf8Concat(a: Str, b: Str)
    requires Utf8(a) && Utf8(b)
    ensures Utf8(a + b)
  {
    if a == [] {
      assert a + b == b;
    } else {
      var n := CharLength(a);
      assert CharLength(a + b) == n;
      assert (a + b)[n..] == a[n..] + b;
      Utf8Concat(a[n..], b);
    }
  }

  /** Cutting well-formed text at an ASCII byte leaves well-formed halves. */
  lemma {:induction false} Utf8Cut(a: Str, c: Byte, b: Str)
    requires c < 0x80 && Utf8(a + [c] + b)
    ensures Utf8(a) && Utf8(b)
  {
    var s := a + [c] + b;
    var n := CharLength(s);
    assert s[|a|] == c;
    if a == [] {
      assert n == 1 && s[1..] == b;
    } else {
      assert n <= |a|;
      assert CharLength(a) == n;
      assert s[n..] == a[n..] + [c] + b;
      Utf8Cut(a[n..], c, b);
    }
  }

  /** ASCII text. */
  predicate Ascii(s: Str)
  {
    forall i :: 0 <= i < |s| ==> s[i] < 0x80
  }

  lemma {:induction false} AsciiIsUtf8(s: Str)
    requires Ascii(s)
    ensures Utf8(s)
  {
    if s != [] {
      AsciiIsUtf8(s[1..]);
    }
  }

  /** `t` differs from `s` only by other ASCII bytes in the place of ASCII bytes. */
  predicate SameBeyondAscii(s: Str, t: Str)
  {
    |s| == |t| && forall i :: 0 <= i < |s| ==> s[i] == t[i] || (s[i] < 0x80 && t[i] < 0x80)
  }

  lemma {:induction false} Utf8OfSameBeyondAscii(s: Str, t: Str)
    requires Utf8(s) && SameBeyondAscii(s, t)
    ensures Utf8(t)
    decreases |s|
  {
    if s != [] {
      var n := CharLength(s);
      assert forall i :: 0 <= i < |s| && s[i] >= 0x80 ==> t[i] == s[i];
      assert CharLength(t) == n;
      Utf8OfSameBeyondAscii(s[n..], t[n..]);
    }
  }

  // ---- Byte-wise rewriting and searching ----

  function SlashFoldByte(b: Byte): Byte
  {
    if b == BACKSLASH then SLASH else b
  }

  /** `replace('\\', "/")`. */
  function SlashFold(s: Str): (r: Str)
    ensures |r| == |s| && forall i :: 0 <= i < |s| ==> r[i] == SlashFoldByte(s[i])
  {
    seq(|s|, i requires 0 <= i < |s| => SlashFoldByte(s[i]))
  }

  predicate SchemeEndsAt(s: Str, i: nat)
  {
    i + 2 < |s| && s[i] == COLON && s[i + 1] == SLASH && s[i + 2] == SLASH
  }

  /** Position of the first `://`. */
  function FindScheme(s: Str): (r: Option<nat>)
    ensures r.Some? ==> SchemeEndsAt(s, r.value) && forall j :: 0 <= j < r.value ==> !SchemeEndsAt(s, j)
    ensures r.None? ==> forall j :: 0 <= j < |s| ==> !SchemeEndsAt(s, j)
  {
    if s == [] then None
    else if SchemeEndsAt(s, 0) then Some(0)
    else
      var rest := FindScheme(s[1..]);
      assert forall j :: 1 <= j < |s| ==> SchemeEndsAt(s, j) == SchemeEndsAt(s[1..], j - 1);
      match rest
      case None => None
      case Some(i) => Some(i + 1)
  }

  /** `%2f` or `%2F` somewhere in `s`. */
  predicate EncodedSlashAt(s: Str, i: nat)
  {
    i + 2 < |s| && s[i] == PERCENT && s[i + 1] == 50 && LowerByte(s[i + 2]) == 102
  }

  predicate HasEncodedSlash(s: Str)
  {
    exists i :: 0 <= i < |s| && EncodedSlashAt(s, i)
  }

  // ---- Percent-encoding ----

  predicate IsHex(b: Byte)
  {
    48 <= b <= 57 || 65 <= b <= 70 || 97 <= b <= 102
  }

  function HexValue(b: Byte): (v: nat)
    requires IsHex(b)
    ensures v < 16
  {
    if b <= 57 then b - 48 else if b <= 70 then b - 55 else b - 87
  }

  function HexDigit(v: nat): (b: Byte)
    requires v < 16
    ensures IsHex(b) && HexValue(b) == v
    ensures b < 0x80 && b != SLASH && b != BACKSLASH && b != QUESTION && b != HASH && b != PERCENT
    ensures b == 50 ==> v == 2
    ensures LowerByte(b) == 102 ==> v == 15
  {
    if v < 10 then 48 + v else 55 + v
  }

  /** URL_PATH_ENCODE_SET, which adds the space and `"#%?` to the control bytes; bytes
      beyond ASCII are always encoded. */
  predicate NeedsEncoding(b: Byte)
  {
    b < 32 || b >= 127 || b == 32 || b == 34 || b == HASH || b == PERCENT || b == QUESTION
  }

  function EncodeByte(b: Byte): Str
  {
    if NeedsEncoding(b) then [PERCENT, HexDigit(b / 16), HexDigit(b % 16)] else [b]
  }

  function Encode(s: Str): Str
  {
    if s == [] then [] else EncodeByte(s[0]) + Encode(s[1..])
  }

  predicate EscapeAt(s: Str)
  {
    |s| > 2 && s[0] == PERCENT && IsHex(s[1]) && IsHex(s[2])
  }

  /** `%` and two hex digits become the byte they name; any other `%` stays. */
  function Decode(s: Str): Str
  {
    if s == [] then []
    else if EscapeAt(s) then
      [16 * HexValue(s[1]) + HexValue(s[2])] + Decode(s[3..])
    else [s[0]] + Decode(s[1..])
  }

  lemma {:induction false} DecodeEncode(s: Str)
    ensures Decode(Encode(s)) == s
  {
    if s != [] {
      var e := Encode(s[1..]);
      DecodeEncode(s[1..]);
      DecodeEncodedByte(s[0], e);
      assert s == [s[0]] + s[1..];
    }
  }

  lemma DecodeEncodedByte(b: Byte, rest: Str)
    ensures Decode(EncodeByte(b) + rest) == [b] + Decode(rest)
  {
    var s := EncodeByte(b) + rest;
    if NeedsEncoding(b) {
      assert s[3..] == rest;
      assert 16 * (b / 16) + b % 16 == b;
    } else {
      assert s[1..] == rest;
    }
  }

  /** The encoder's output needs no further escape in a URL. */
  lemma {:induction false} EncodeIsPlain(s: Str)
    ensures Ascii(Encode(s))
    ensures QUESTION !in Encode(s) && HASH !in Encode(s) && NUL !in Encode(s)
    ensures BACKSLASH !in s ==> BACKSLASH !in Encode(s)
    ensures !HasEncodedSlash(Encode(s))
  {
    if s != [] {
      var b, rest := s[0], Encode(s[1..]);
      EncodeIsPlain(s[1..]);
      assert s == [b] + s[1..];
      var e := EncodeByte(b) + rest;
      var n := |EncodeByte(b)|;
      forall i | 0 <= i < |e| ensures !EncodedSlashAt(e, i) {
        if i >= n {
          assert EncodedSlashAt(e, i) == EncodedSlashAt(rest, i - n);
        }
      }
    }
  }

  // ---- Splitting at slashes ----

  /** `split('/')`: always at least one segment. */
  function Split(s: Str): (segments: seq<Str>)
    ensures segments != []
  {
    var i := FirstIndex(s, SLASH);
    if i == |s| then [s] else [s[..i]] + Split(s[i + 1..])
  }

  function Join(segments: seq<Str>): Str
    requires segments != []
  {
    if |segments| == 1 then segments[0] else segments[0] + [SLASH] + Join(segments[1..])
  }

  function EncodeAll(segments: seq<Str>): (r: seq<Str>)
    ensures |r| == |segments|
  {
    if segments == [] then [] else [Encode(segments[0])] + EncodeAll(segments[1..])
  }

  function DecodeAll(segments: seq<Str>): (r: seq<Str>)
    ensures |r| == |segments|
  {
    if segments == [] then [] else [Decode(segments[0])] + DecodeAll(segments[1..])
  }

  lemma {:induction false} EncodeConcat(a: Str, b: Str)
    ensures Encode(a + b) == Encode(a) + Encode(b)
  {
    if a == [] {
      assert a + b == b;
    } else {
      assert (a + b)[1..] == a[1..] + b;
      EncodeConcat(a[1..], b);
    }
  }

  lemma JoinCons(first: Str, rest: seq<Str>)
    requires rest != []
    ensures Join([first] + rest) == first + [SLASH] + Join(rest)
  {
    assert ([first] + rest)[1..] == rest;
  }

  lemma EncodeAllCons(first: Str, rest: seq<Str>)
    ensures EncodeAll([first] + rest) == [Encode(first)] + EncodeAll(rest)
  {
    assert ([first] + rest)[1..] == rest;
  }

  lemma EncodeAfterSlash(tail: Str)
    ensures Encode([SLASH] + tail) == [SLASH] + Encode(tail)
  {
    assert ([SLASH] + tail)[1..] == tail;
  }

  lemma SplitCons(head: Str, tail: Str)
    requires SLASH !in head
    ensures Split(head + [SLASH] + tail) == [head] + Split(tail)
  {
    var path := head + [SLASH] + tail;
    assert path[..|head|] == head && path[|head| + 1..] == tail;
    FirstIndexUnique(path, SLASH, |head|);
  }

  lemma EncodeSegmentStep(head: Str, tail: Str)
    requires SLASH !in head && Join(EncodeAll(Split(tail))) == Encode(tail)
    ensures Join(EncodeAll(Split(head + [SLASH] + tail))) == Encode(head + [SLASH] + tail)
  {
    hide Encode, EncodeByte, Join, EncodeAll, Split;
    SplitCons(head, tail);
    EncodeAllCons(head, Split(tail));
    JoinCons(Encode(head), EncodeAll(Split(tail)));
    assert head + [SLASH] + tail == head + ([SLASH] + tail);
    EncodeConcat(head, [SLASH] + tail);
    EncodeAfterSlash(tail);
    assert Encode(head) + [SLASH] + Encode(tail) == Encode(head) + ([SLASH] + Encode(tail));
  }

  /** Encoding segment by segment is encoding the whole path, since a slash is never encoded. */
  lemma {:induction false} EncodeBySegment(path: Str)
    ensures Join(EncodeAll(Split(path))) == Encode(path)
  {
    var i := FirstIndex(path, SLASH);
    hide Encode;
    if i == |path| {
      assert EncodeAll([path]) == [Encode(path)];
    } else {
      hide Join, EncodeAll, Split;
      var head, tail := path[..i], path[i + 1..];
      EncodeBySegment(tail);
      EncodeSegmentStep(head, tail);
      assert path == head + [SLASH] + tail;
    }
  }

  lemma EscapeBeforeSlash(a: Str, b: Str)
    requires a != []
    ensures EscapeAt(a + [SLASH] + b) <==> EscapeAt(a)
  {
    var s := a + [SLASH] + b;
    assert s[|a|] == SLASH;
    assert forall i :: 0 <= i < |a| ==> s[i] == a[i];
  }

  /** No escape reaches across a slash. */
  lemma {:induction false} DecodeAcrossSlash(a: Str, b: Str)
    ensures Decode(a + [SLASH] + b) == Decode(a) + [SLASH] + Decode(b)
  {
    var s := a + [SLASH] + b;
    if a == [] {
      assert s[0] == SLASH && s[1..] == b;
    } else {
      EscapeBeforeSlash(a, b);
      var n := if EscapeAt(a) then 3 else 1;
      assert s[n..] == a[n..] + [SLASH] + b;
      DecodeAcrossSlash(a[n..], b);
    }
  }

  lemma {:induction false} DecodeMakesNoSlash(s: Str)
    requires !HasEncodedSlash(s) && SLASH !in s
    ensures SLASH !in Decode(s)
  {
    if s != [] {
      if EscapeAt(s) {
        assert !EncodedSlashAt(s, 0);
        EncodedSlashInTail(s, 3);
        DecodeMakesNoSlash(s[3..]);
      } else {
        EncodedSlashInTail(s, 1);
        DecodeMakesNoSlash(s[1..]);
      }
    }
  }

  lemma EncodedSlashInTail(s: Str, n: nat)
    requires n <= |s| && !HasEncodedSlash(s)
    ensures !HasEncodedSlash(s[n..])
  {
    forall i | 0 <= i < |s[n..]| ensures !EncodedSlashAt(s[n..], i) {
      assert EncodedSlashAt(s[n..], i) ==> EncodedSlashAt(s, n + i);
    }
  }

  lemma EncodedSlashInFront(s: Str, n: nat)
    requires n <= |s| && !HasEncodedSlash(s)
    ensures !HasEncodedSlash(s[..n])
  {
    forall i | 0 <= i < n ensures !EncodedSlashAt(s[..n], i) {
      assert EncodedSlashAt(s[..n], i) ==> EncodedSlashAt(s, i);
    }
  }

  lemma DecodeAllCons(first: Str, rest: seq<Str>)
    ensures DecodeAll([first] + rest) == [Decode(first)] + DecodeAll(rest)
  {
    assert ([first] + rest)[1..] == rest;
  }

  /** Decoding keeps the segment structure: splitting the decoded path is decoding each
      segment of the split encoded path. */
  lemma {:induction false} DecodeKeepsSegments(encoded: Str)
    requires !HasEncodedSlash(encoded)
    ensures Split(Decode(encoded)) == DecodeAll(Split(encoded))
  {
    var i := FirstIndex(encoded, SLASH);
    if i == |encoded| {
      DecodeMakesNoSlash(encoded);
      assert DecodeAll([encoded]) == [Decode(encoded)];
    } else {
      var head, tail := encoded[..i], encoded[i + 1..];
      EncodedSlashInTail(encoded, i + 1);
      EncodedSlashInFront(encoded, i);
      assert encoded == head + [SLASH] + tail;
      DecodeAcrossSlash(head, tail);
      DecodeMakesNoSlash(head);
      hide Decode, Split, DecodeAll, HasEncodedSlash;
      SplitCons(Decode(head), Decode(tail));
      SplitCons(head, tail);
      DecodeKeepsSegments(tail);
      DecodeAllCons(head, Split(tail));
    }
  }

  // ---- Resolving and building URLs ----

  datatype Error = InvalidInput | Unsupported
  datatype Location = Location(scheme: Str, authority: Str, path: Str)
  datatype Resolved = Ok(location: Location) | Rejected(error: Error)

  /** `schemes` is the registry of services compiled into the build. */
  function Resolve(schemes: set<Str>, url: Str): Resolved
  {
    if !Utf8(url) then Rejected(InvalidInput)
    else
      var u := SlashFold(url);
      if QUESTION in u || HASH in u then Rejected(InvalidInput)
      else
        match FindScheme(u)
        case None => Rejected(InvalidInput)
        case Some(i) =>
          var scheme := Lower(u[..i]);
          if scheme !in schemes then Rejected(Unsupported)
          else ResolveRemainder(scheme, u[i + 3..])
  }

  function ResolveRemainder(scheme: Str, remainder: Str): Resolved
  {
    var j := FirstIndex(remainder, SLASH);
    var authority := remainder[..j];
    var encoded := if j == |remainder| then [] else remainder[j + 1..];
    if AT in authority then Rejected(InvalidInput)
    else if HasEncodedSlash(encoded) then Rejected(InvalidInput)
    else
      var path := Decode(encoded);
      if !Utf8(path) || NUL in path then Rejected(InvalidInput)
      else Ok(Location(scheme, authority, path))
  }

  const SEPARATOR: Str := [COLON, SLASH, SLASH]

  /** None stands for the null pointer returned when an argument is not UTF-8. */
  function Build(scheme: Str, authority: Str, path: Str): Option<Str>
  {
    if Utf8(scheme) && Utf8(authority) && Utf8(path) then
      Some(scheme + SEPARATOR + authority + [SLASH] + Join(EncodeAll(Split(path))))
    else None
  }

  predicate NoneOf(s: Str, bytes: set<Byte>)
  {
    forall i :: 0 <= i < |s| ==> s[i] !in bytes
  }

  /** A scheme and an authority that can be written into a URL as they are. */
  predicate GoodScheme(scheme: Str)
  {
    Utf8(scheme) && Lower(scheme) == scheme && NoneOf(scheme, {SLASH, BACKSLASH, QUESTION, HASH})
  }

  predicate GoodAuthority(authority: Str)
  {
    Utf8(authority) && NoneOf(authority, {SLASH, BACKSLASH, QUESTION, HASH, AT})
  }

  predicate GoodPath(path: Str)
  {
    Utf8(path) && NUL !in path
  }

  lemma {:induction false} FoldEncode(path: Str)
    ensures SlashFold(Encode(path)) == Encode(SlashFold(path))
  {
    if path != [] {
      FoldEncode(path[1..]);
      var b, rest := path[0], Encode(path[1..]);
      assert SlashFold(path)[1..] == SlashFold(path[1..]);
      assert SlashFold(EncodeByte(b) + rest) == SlashFold(EncodeByte(b)) + SlashFold(rest);
      assert SlashFold(EncodeByte(b)) == EncodeByte(SlashFoldByte(b));
    }
  }

  lemma FindSchemeUnique(scheme: Str, rest: Str)
    requires NoneOf(scheme, {SLASH})
    ensures FindScheme(scheme + SEPARATOR + rest) == Some(|scheme|)
  {
    var s := scheme + SEPARATOR + rest;
    assert SchemeEndsAt(s, |scheme|);
    forall j | 0 <= j < |scheme| ensures !SchemeEndsAt(s, j) {
      assert s[j + 1] == if j + 1 < |scheme| then scheme[j + 1] else COLON;
    }
  }

  /** Resolving a built URL gives its parts back, with the backslashes of the path turned
      into slashes. */
  lemma RoundTrip(schemes: set<Str>, scheme: Str, authority: Str, path: Str)
    requires scheme in schemes && GoodScheme(scheme) && GoodAuthority(authority) && GoodPath(path)
    ensures Build(scheme, authority, path).Some?
    ensures Resolve(schemes, Build(scheme, authority, path).value) ==
            Ok(Location(scheme, authority, SlashFold(path)))
  {
    hide Utf8, Encode, Decode, CharLength;
    var url := Build(scheme, authority, path).value;
    var folded := SlashFold(path);
    EncodeBySegment(path);
    BuiltIsUtf8(scheme, authority, path);
    FoldBuilt(scheme, authority, path);
    var remainder := authority + [SLASH] + Encode(folded);
    var u := scheme + SEPARATOR + remainder;
    NoQueryInBuilt(scheme, authority, folded);
    FindSchemeUnique(scheme, remainder);
    assert u[..|scheme|] == scheme && u[|scheme| + 3..] == remainder;
    FoldedPath(path);
    RemainderOfBuilt(scheme, authority, folded);
  }

  lemma FoldBuilt(scheme: Str, authority: Str, path: Str)
    requires GoodScheme(scheme) && GoodAuthority(authority)
    ensures SlashFold(scheme + SEPARATOR + authority + [SLASH] + Encode(path)) ==
            scheme + SEPARATOR + (authority + [SLASH] + Encode(SlashFold(path)))
  {
    hide Utf8, Encode, CharLength;
    FoldEncode(path);
    FoldPlain(scheme);
    FoldPlain(authority);
    FoldConcat(scheme + SEPARATOR + authority + [SLASH], Encode(path));
    FoldConcat(scheme + SEPARATOR + authority, [SLASH]);
    FoldConcat(scheme + SEPARATOR, authority);
    FoldConcat(scheme, SEPARATOR);
    FoldPlain(SEPARATOR);
    FoldPlain([SLASH]);
  }

  lemma FoldConcat(a: Str, b: Str)
    ensures SlashFold(a + b) == SlashFold(a) + SlashFold(b)
  {
  }

  lemma FoldPlain(s: Str)
    requires NoneOf(s, {BACKSLASH})
    ensures SlashFold(s) == s
  {
  }

  lemma NoQueryInBuilt(scheme: Str, authority: Str, path: Str)
    requires GoodScheme(scheme) && GoodAuthority(authority)
    ensures var u := scheme + SEPARATOR + (authority + [SLASH] + Encode(path));
            QUESTION !in u && HASH !in u
  {
    EncodeIsPlain(path);
  }

  lemma FoldedPath(path: Str)
    requires GoodPath(path)
    ensures GoodPath(SlashFold(path))
  {
    hide Utf8, Encode, Decode, CharLength;
    Utf8OfSameBeyondAscii(path, SlashFold(path));
  }

  lemma RemainderOfBuilt(scheme: Str, authority: Str, path: Str)
    requires GoodAuthority(authority) && GoodPath(path)
    ensures ResolveRemainder(scheme, authority + [SLASH] + Encode(path)) == Ok(Location(scheme, authority, path))
  {
    hide Utf8, Encode, Decode, CharLength;
    var encoded := Encode(path);
    var remainder := authority + [SLASH] + encoded;
    assert remainder[..|authority|] == authority && remainder[|authority| + 1..] == encoded;
    FirstIndexUnique(remainder, SLASH, |authority|);
    EncodeIsPlain(path);
    DecodeEncode(path);
  }

  lemma BuiltIsUtf8(scheme: Str, authority: Str, path: Str)
    requires Utf8(scheme) && Utf8(authority)
    ensures Utf8(scheme + SEPARATOR + authority + [SLASH] + Encode(path))
  {
    EncodeIsPlain(path);
    AsciiIsUtf8(Encode(path));
    AsciiIsUtf8(SEPARATOR);
    AsciiIsUtf8([SLASH]);
    Utf8Concat(scheme, SEPARATOR);
    Utf8Concat(scheme + SEPARATOR, authority);
    Utf8Concat(scheme + SEPARATOR + authority, [SLASH]);
    Utf8Concat(scheme + SEPARATOR + authority + [SLASH], Encode(path));
  }

  lemma FoldFixes(path: Str)
    ensures SlashFold(path) == path <==> BACKSLASH !in path
  {
    if BACKSLASH in path {
      var i :| 0 <= i < |path| && path[i] == BACKSLASH;
      assert SlashFold(path)[i] == SLASH;
    }
  }

  /** The exact condition for the round trip: no backslash in the path. */
  lemma RoundTripExactly(schemes: set<Str>, scheme: Str, authority: Str, path: Str)
    requires scheme in schemes && GoodScheme(scheme) && GoodAuthority(authority) && GoodPath(path)
    ensures Build(scheme, authority, path).Some?
    ensures Resolve(schemes, Build(scheme, authority, path).value) == Ok(Location(scheme, authority, path)) <==>
            BACKSLASH !in path
  {
    hide Utf8, Encode, Decode, CharLength;
    RoundTrip(schemes, scheme, authority, path);
    FoldFixes(path);
  }

  /** Within one service the URL determines the path, backslashes included. */
  lemma BuildInjective(scheme: Str, authority: Str, path: Str, other: Str)
    requires Build(scheme, authority, path).Some?
    requires Build(scheme, authority, path) == Build(scheme, authority, other)
    ensures path == other
  {
    var front := scheme + SEPARATOR + authority + [SLASH];
    EncodeBySegment(path);
    EncodeBySegment(other);
    assert (front + Encode(path))[|front|..] == Encode(path);
    assert (front + Encode(other))[|front|..] == Encode(other);
    DecodeEncode(path);
    DecodeEncode(other);
  }

  /** Whatever `Resolve` accepts is in the domain of the round trip. */
  lemma ResolvedIsGood(schemes: set<Str>, url: Str)
    requires forall scheme :: scheme in schemes ==> NoneOf(scheme, {SLASH})
    requires Resolve(schemes, url).Ok?
    ensures var r := Resolve(schemes, url).location;
            r.scheme in schemes && GoodScheme(r.scheme) && GoodAuthority(r.authority) && GoodPath(r.path)
  {
    hide Utf8, Encode, Decode, CharLength;
    var u := SlashFold(url);
    var i := FindScheme(u).value;
    Utf8OfSameBeyondAscii(url, u);
    assert NoneOf(u, {BACKSLASH, QUESTION, HASH}) by {
      assert forall k :: 0 <= k < |u| ==> u[k] in u;
    }
    SchemeIsGood(u, i);
    AuthorityIsGood(u[i + 3..]);
  }

  lemma SchemeIsGood(u: Str, i: nat)
    requires Utf8(u) && SchemeEndsAt(u, i) && NoneOf(u, {BACKSLASH, QUESTION, HASH})
    requires NoneOf(Lower(u[..i]), {SLASH})
    ensures GoodScheme(Lower(u[..i]))
    ensures Utf8(u[i + 3..]) && NoneOf(u[i + 3..], {BACKSLASH, QUESTION, HASH})
  {
    hide Utf8, Encode, Decode, CharLength;
    var front, rest := u[..i], u[i + 1..];
    assert u == front + [COLON] + rest;
    Utf8Cut(front, COLON, rest);
    assert rest == [SLASH] + [SLASH] + u[i + 3..];
    Utf8Cut([SLASH], SLASH, u[i + 3..]);
    Utf8OfSameBeyondAscii(front, Lower(front));
    assert NoneOf(front, {BACKSLASH, QUESTION, HASH});
  }

  lemma AuthorityIsGood(remainder: Str)
    requires Utf8(remainder) && NoneOf(remainder, {BACKSLASH, QUESTION, HASH})
    requires AT !in remainder[..FirstIndex(remainder, SLASH)]
    ensures GoodAuthority(remainder[..FirstIndex(remainder, SLASH)])
  {
    hide Utf8, Encode, Decode, CharLength;
    var j := FirstIndex(remainder, SLASH);
    var authority := remainder[..j];
    if j < |remainder| {
      assert remainder == authority + [SLASH] + remainder[j + 1..];
      Utf8Cut(authority, SLASH, remainder[j + 1..]);
    } else {
      assert authority == remainder;
    }
    assert forall k :: 0 <= k < j ==> authority[k] in authority;
  }

  /** Building and resolving again fixes every accepted URL's parts, up to the backslashes an
      escape may have brought into the path. */
  lemma ResolveIsStable(schemes: set<Str>, url: Str)
    requires forall scheme :: scheme in schemes ==> NoneOf(scheme, {SLASH})
    requires Resolve(schemes, url).Ok?
    ensures var r := Resolve(schemes, url).location;
            var built := Build(r.scheme, r.authority, r.path);
            && built.Some?
            && Resolve(schemes, built.value) == Ok(r.(path := SlashFold(r.path)))
            && (Resolve(schemes, built.value) == Ok(r) <==> BACKSLASH !in r.path)
  {
    hide Utf8, Encode, Decode, CharLength;
    var r := Resolve(schemes, url).location;
    ResolvedIsGood(schemes, url);
    RoundTrip(schemes, r.scheme, r.authority, r.path);
    RoundTripExactly(schemes, r.scheme, r.authority, r.path);
  }

  /** The one-byte wildcard cannot be written in a URL as it is: `?` marks a query. */
  lemma RawQuestionMarkRejected(schemes: set<Str>, url: Str)
    requires QUESTION in url
    ensures Resolve(schemes, url).Rejected?
  {
    var i :| 0 <= i < |url| && url[i] == QUESTION;
    assert SlashFold(url)[i] == QUESTION;
  }
}
