/** How far the key of the operator cache (src/opendal_filesystem.cpp, `ConfigIdentity`) determines
    the request it was made from, and where it does not. */
module KeyLimits {
  import opened Bytes
  import opened CacheKey
  import Url

  // ---- What a plain request's key says about any other request ----

  /** The frame marker occurs nowhere in the request. */
  ghost predicate Plain(request: Request)
  {
    forall v :: v in Values(request) ==> PIPE !in v
  }

  lemma {:induction false} NoPipeInDecimal(n: nat)
    ensures PIPE !in Decimal(n)
  {
    if n >= 10 {
      NoPipeInDecimal(n / 10);
    }
  }

  lemma FirstPipe(v: Str, p: nat)
    requires PIPE !in v && p < |Frame(v)| && Frame(v)[p] == PIPE
    ensures p == 0
  {
    hide Decimal;
    NoPipeInDecimal(|v|);
  }

  /** Behind the header of a plain request every marker starts a frame. */
  lemma {:induction false} PipeStartsFrame(values: seq<Str>, p: nat) returns (i: nat)
    requires forall v :: v in values ==> PIPE !in v
    requires p < |Frames(values)| && Frames(values)[p] == PIPE
    ensures i < |values| && Frames(values)[p..] == Frame(values[i]) + Frames(values[i + 1..])
    decreases |values|
  {
    hide Frame;
    var first := Frame(values[0]);
    assert values[0] in values;
    assert Frames(values) == first + Frames(values[1..]);
    if p < |first| {
      FirstPipe(values[0], p);
      i := 0;
    } else {
      assert Frames(values)[p..] == Frames(values[1..])[p - |first|..];
      var j := PipeStartsFrame(values[1..], p - |first|);
      assert values[1..][j + 1..] == values[j + 2..];
      i := j + 1;
    }
  }

  /** So a value framed in another request with the same key is one of the plain request's. */
  lemma FramedIsPlain(r: Request, front: Str, v: Str, tail: Str)
    requires Plain(r) && Identity(r) == front + Frame(v) + tail
    ensures PIPE !in v
  {
    hide Frame, Frames, Values;
    var header, s, p := Header(r.scheme, r.authority), Identity(r), |front|;
    PlainIsPipeFree(r);
    FrameStarts(v);
    assert s[p] == PIPE;
    forall i | 0 <= i < |header| ensures s[i] != PIPE {
      assert s[i] == header[i];
    }
    var i := PipeStartsFrame(Values(r), p - |header|);
    assert s[p..] == Frames(Values(r))[p - |header|..];
    assert s[p..] == Frame(v) + tail;
    FrameInjective(v, tail, Values(r)[i], Frames(Values(r)[i + 1..]));
    assert Values(r)[i] in Values(r);
  }

  lemma FrameStarts(v: Str)
    ensures |Frame(v)| > 0 && Frame(v)[0] == PIPE
  {
  }

  lemma PlainIsPipeFree(r: Request)
    requires Plain(r)
    ensures PipeFree(r) && PIPE !in Header(r.scheme, r.authority)
  {
    assert Values(r)[0] in Values(r) && Values(r)[1] in Values(r);
  }

  /** Whatever has the key of a plain request has its scheme, its authority and its joined list of
      entries; nothing is assumed of the other request. */
  lemma PlainKeyDecodes(r: Request, q: Request)
    requires Plain(r)
    ensures Identity(r) == Identity(q) <==>
            && r.scheme == q.scheme && r.authority == q.authority
            && Pairs(r.config) + Pairs(r.options) == Pairs(q.config) + Pairs(q.options)
    ensures Identity(r) == Identity(q) ==> PipeFree(q)
  {
    hide Frame, Frames, Flat, Pairs;
    PlainIsPipeFree(r);
    if Identity(r) == Identity(q) {
      var header, values := Header(q.scheme, q.authority), Values(q);
      assert values == [q.scheme] + ([q.authority] + values[2..]);
      FramesConcat([q.scheme], [q.authority] + values[2..]);
      FramesConcat([q.authority], values[2..]);
      FramesOf1(q.scheme);
      FramesOf1(q.authority);
      var tail := Frame(q.authority) + Frames(values[2..]);
      assert Identity(q) == header + Frame(q.scheme) + tail;
      FramedIsPlain(r, header, q.scheme, tail);
      assert Identity(q) == (header + Frame(q.scheme)) + Frame(q.authority) + Frames(values[2..]);
      FramedIsPlain(r, header + Frame(q.scheme), q.authority, Frames(values[2..]));
      IdentityDecodes(r, q);
    } else if r.scheme == q.scheme && r.authority == q.authority {
      IdentityDecodes(r, q);
    }
  }

  // ---- Requests that merely do not imitate ----

  ghost predicate Contains(s: Str, part: Str)
  {
    exists i :: 0 <= i <= |s| && part <= s[i..]
  }

  /** No value holds the frame that the key begins with behind its header. Values may hold the
      marker otherwise. */
  ghost predicate Unspoofed(request: Request)
  {
    && PIPE !in request.scheme && PIPE !in request.authority && SLASH !in request.scheme
    && forall v :: v in Values(request) ==> !Contains(v, Frame(request.scheme))
  }

  /** A marker in a list of frames starts a frame or stands inside a value. */
  lemma {:induction false} LocatePipe(values: seq<Str>, p: nat) returns (i: nat, inside: Option<nat>)
    requires p < |Frames(values)| && Frames(values)[p] == PIPE
    ensures i < |values|
    ensures match inside
            case None => Frames(values)[p..] == Frame(values[i]) + Frames(values[i + 1..])
            case Some(o) => o < |values[i]| && Frames(values)[p..] == values[i][o..] + Frames(values[i + 1..])
    decreases |values|
  {
    hide Frame;
    var first := Frame(values[0]);
    assert Frames(values) == first + Frames(values[1..]);
    if p == 0 {
      i, inside := 0, None;
    } else if p < |first| {
      i := 0;
      var o := PipeInFrame(values[0], p);
      assert Frames(values)[p..] == first[p..] + Frames(values[1..]);
      inside := Some(o);
    } else {
      assert Frames(values)[p..] == Frames(values[1..])[p - |first|..];
      var j;
      j, inside := LocatePipe(values[1..], p - |first|);
      assert values[1..][j + 1..] == values[j + 2..];
      i := j + 1;
    }
  }

  lemma PipeInFrame(v: Str, p: nat) returns (o: nat)
    requires 0 < p < |Frame(v)| && Frame(v)[p] == PIPE
    ensures o < |v| && Frame(v)[p..] == v[o..]
  {
    hide Decimal;
    var digits := Decimal(|v|);
    NoPipeInDecimal(|v|);
    assert Frame(v) == ([PIPE] + digits + [COLON]) + v;
    assert forall k :: 1 <= k <= |digits| ==> Frame(v)[k] == digits[k - 1];
    o := p - |digits| - 2;
  }

  /** So the frame of a plain text, found inside the list, is the frame of one of the values, or
      stands whole inside a value. */
  lemma FrameInside(values: seq<Str>, p: nat, c: Str, tail: Str) returns (i: nat)
    requires PIPE !in c && p <= |Frames(values)| && Frames(values)[p..] == Frame(c) + tail
    requires forall v :: v in values ==> !Contains(v, Frame(c))
    ensures i < |values| && values[i] == c && tail == Frames(values[i + 1..])
  {
    hide Frame, Frames;
    FrameStarts(c);
    assert Frames(values)[p] == (Frame(c) + tail)[0];
    var inside;
    i, inside := LocatePipe(values, p);
    assert values[i] in values;
    match inside
    case None => FrameInjective(c, tail, values[i], Frames(values[i + 1..]));
    case Some(o) => WholeInside(values, i, o, c, tail);
  }

  lemma WholeInside(values: seq<Str>, i: nat, o: nat, c: Str, tail: Str)
    requires PIPE !in c && i < |values| && o < |values[i]|
    requires values[i][o..] + Frames(values[i + 1..]) == Frame(c) + tail
    ensures Contains(values[i], Frame(c))
  {
    hide Frame, Frames;
    NoStraddle(values[i][o..], values[i + 1..], c, tail);
    assert Frame(c) <= values[i][o..];
  }

  lemma NoStraddle(v: Str, values: seq<Str>, c: Str, tail: Str)
    requires PIPE !in c && v != [] && v + Frames(values) == Frame(c) + tail
    ensures |Frame(c)| <= |v| && v[..|Frame(c)|] == Frame(c)
  {
    hide Frame;
    var s := v + Frames(values);
    if |v| < |Frame(c)| {
      assert s[|v|] == Frame(c)[|v|];
      assert values != [];
      FrameStarts(values[0]);
      assert s[|v|] == Frames(values)[0] == PIPE;
      FirstPipe(c, |v|);
      assert false;
    }
    assert v[..|Frame(c)|] == s[..|Frame(c)|];
  }

  /** The key of such a request decodes as well, against every request with a scheme of its kind. */
  lemma UnspoofedKeyDecodes(r: Request, q: Request)
    requires Unspoofed(r) && SLASH !in q.scheme
    ensures Identity(r) == Identity(q) <==>
            && r.scheme == q.scheme && r.authority == q.authority
            && Pairs(r.config) + Pairs(r.options) == Pairs(q.config) + Pairs(q.options)
    ensures Identity(r) == Identity(q) ==> PipeFree(q)
  {
    hide Frame, Frames, Flat, Pairs;
    if Identity(r) == Identity(q) {
      SameScheme(r, q);
      SameAuthority(r, q);
      IdentityDecodes(r, q);
    } else if r.scheme == q.scheme && r.authority == q.authority {
      IdentityDecodes(r, q);
    }
  }

  lemma SchemeEnds(r: Request)
    requires SLASH !in r.scheme
    ensures FirstIndex(Identity(r), SLASH) == |r.scheme| + 1
    ensures Identity(r)[..|r.scheme|] == r.scheme
  {
    hide Frames, Values;
    var s, n := Identity(r), |r.scheme|;
    assert s == (r.scheme + [COLON]) + ([SLASH, SLASH] + r.authority + Frames(Values(r)));
    assert forall k :: 0 <= k < n ==> s[k] == r.scheme[k];
    FirstIndexUnique(s, SLASH, n + 1);
  }

  lemma SameScheme(r: Request, q: Request)
    requires SLASH !in r.scheme && SLASH !in q.scheme && Identity(r) == Identity(q)
    ensures r.scheme == q.scheme
  {
    hide Identity;
    SchemeEnds(r);
    SchemeEnds(q);
  }

  lemma FramesOfRequest(q: Request)
    ensures var rest := Values(q)[2..];
            Frames(Values(q)) == Frame(q.scheme) + (Frame(q.authority) + Frames(rest))
  {
    hide Frame, Frames, Flat;
    var values := Values(q);
    assert values == [q.scheme] + ([q.authority] + values[2..]);
    FramesConcat([q.scheme], [q.authority] + values[2..]);
    FramesConcat([q.authority], values[2..]);
    FramesOf1(q.scheme);
    FramesOf1(q.authority);
  }

  /** The other authority would have to hold the first frame itself, and to be one of the values. */
  lemma SameAuthority(r: Request, q: Request)
    requires Unspoofed(r) && Identity(r) == Identity(q) && r.scheme == q.scheme
    ensures r.authority == q.authority
  {
    hide Frame, Frames, Pairs, Flat;
    var c, s := r.scheme, Identity(r);
    var hr, hq := Header(c, r.authority), Header(c, q.authority);
    var tail := Frame(q.authority) + Frames(Values(q)[2..]);
    FramesOfRequest(q);
    FramesOfRequest(r);
    FrameStarts(c);
    assert s == hq + (Frame(c) + tail);
    assert s[|hq|] == PIPE;
    assert s == hr + Frames(Values(r));
    forall i | 0 <= i < |hr| ensures s[i] != PIPE {
      assert s[i] == hr[i];
    }
    assert |hr| <= |hq|;
    var p := |hq| - |hr|;
    assert Frames(Values(r))[p..] == s[|hq|..] == Frame(c) + tail;
    if p == 0 {
      assert q.authority == s[|c| + 3..|hq|] == r.authority;
    } else {
      var i := FrameInside(Values(r), p, c, tail);
      FramesBegin(Values(r)[i + 1..], q.authority, Frames(Values(q)[2..]));
      assert Values(r)[i + 1] in Values(r);
      FirstFrameInAuthority(r, q, p);
      assert false;
    }
  }

  lemma FramesBegin(values: seq<Str>, v: Str, tail: Str)
    requires Frames(values) == Frame(v) + tail
    ensures values != [] && values[0] == v
  {
    hide Frame;
    FrameStarts(v);
    assert values != [];
    FrameInjective(values[0], Frames(values[1..]), v, tail);
  }

  lemma FirstFrameInAuthority(r: Request, q: Request, p: nat)
    requires PipeFree(r) && Identity(r) == Identity(q) && r.scheme == q.scheme
    requires p > 0 && |q.authority| == |r.authority| + p && Frames(Values(r))[p..] != [] && Frames(Values(r))[p] == PIPE
    ensures Contains(q.authority, Frame(r.scheme))
  {
    hide Frame, Frames, Values, Contains;
    var c, frames, k := r.scheme, Frames(Values(r)), |r.authority|;
    FramesOfRequest(r);
    if p < |Frame(c)| {
      assert frames[p] == Frame(c)[p];
      FirstPipe(c, p);
      assert false;
    }
    assert frames[..|Frame(c)|] == Frame(c);
    AuthorityGoesOn(r, q, p);
    ContainsAt(q.authority, Frame(c), k);
  }

  lemma ContainsAt(s: Str, part: Str, k: nat)
    requires k <= |s| && part <= s[k..]
    ensures Contains(s, part)
  {
  }

  /** A longer authority goes on with the frames of the other request. */
  lemma AuthorityGoesOn(r: Request, q: Request, p: nat)
    requires Identity(r) == Identity(q) && r.scheme == q.scheme && |q.authority| == |r.authority| + p
    requires p <= |Frames(Values(r))|
    ensures q.authority[|r.authority|..] == Frames(Values(r))[..p]
  {
    hide Frames, Values;
    var s, n := Identity(r), |r.scheme| + 3;
    assert s[n..n + |q.authority|] == q.authority;
    assert s[n + |r.authority|..] == Frames(Values(r));
    assert s[n..n + |q.authority|][|r.authority|..] == s[n + |r.authority|..][..p];
  }

  // ---- The boundary between configuration and options ----

  /** The option keys are among those allowed. */
  ghost predicate OptionsIn(request: Request, allowed: Str -> bool)
  {
    forall k :: k in request.options ==> allowed(k)
  }

  /** The order of the keys gives the boundary away: no option could also be the last entry of the
      configuration, and the last entry of the configuration could not be an option. */
  ghost predicate Marked(request: Request, allowed: Str -> bool)
  {
    MarkedBetween(Sorted(request.config.Keys), Sorted(request.options.Keys), allowed)
  }

  predicate MarkedBetween(c: seq<Str>, o: seq<Str>, allowed: Str -> bool)
  {
    if o == [] then c == [] || !allowed(c[|c| - 1])
    else c != [] && !Less(c[|c| - 1], o[0])
  }

  ghost function KeysOf(pairs: seq<Pair>): (keys: seq<Str>)
    ensures |keys| == |pairs| && forall i :: 0 <= i < |keys| ==> keys[i] == pairs[i].0
  {
    seq(|pairs|, i requires 0 <= i < |pairs| => pairs[i].0)
  }

  lemma KeysOfPairs(m: map<Str, Str>)
    ensures KeysOf(Pairs(m)) == Sorted(m.Keys)
    ensures |Pairs(m)| == |Sorted(m.Keys)|
  {
    hide Sorted;
  }

  /** Every ascending list of entries is the content of a map. */
  lemma {:induction false} FromAscending(pairs: seq<Pair>)
    requires Ascending(KeysOf(pairs))
    ensures forall k :: k in FromPairs(pairs) <==> k in KeysOf(pairs)
    ensures forall i :: 0 <= i < |pairs| ==> pairs[i].0 in FromPairs(pairs) && FromPairs(pairs)[pairs[i].0] == pairs[i].1
  {
    hide KeysOf;
    if pairs != [] {
      var n := |pairs| - 1;
      var front := pairs[..n];
      KeysOfLonger(front, pairs[n]);
      assert pairs == front + [pairs[n]];
      FromAscending(front);
    }
  }

  lemma KeysOfLonger(pairs: seq<Pair>, last: Pair)
    ensures KeysOf(pairs + [last]) == KeysOf(pairs) + [last.0]
    ensures Ascending(KeysOf(pairs + [last])) ==>
              Ascending(KeysOf(pairs)) && forall i :: 0 <= i < |pairs| ==> pairs[i].0 != last.0
  {
    hide Less;
    var keys, longer := KeysOf(pairs), KeysOf(pairs + [last]);
    assert longer == keys + [last.0];
    if Ascending(longer) {
      assert forall i :: 0 <= i < |keys| ==> keys[i] == longer[i];
      LessIrreflexive(last.0);
      forall i | 0 <= i < |pairs| ensures pairs[i].0 != last.0 {
        assert Less(longer[i], longer[|pairs|]);
      }
    }
  }

  lemma PairsFromAscending(pairs: seq<Pair>)
    requires Ascending(KeysOf(pairs))
    ensures Pairs(FromPairs(pairs)) == pairs
  {
    hide Less, Sorted, Ascending;
    var m := FromPairs(pairs);
    FromAscending(pairs);
    AscendingUnique(Sorted(m.Keys), KeysOf(pairs));
    KeysOfPairs(m);
  }

  /** The request whose boundary stands behind entry `k` of the joined list. */
  ghost function SplitAt(request: Request, k: nat): Request
    requires k <= |Pairs(request.config) + Pairs(request.options)|
  {
    var joined := Pairs(request.config) + Pairs(request.options);
    Request(request.scheme, request.authority, FromPairs(joined[..k]), FromPairs(joined[k..]))
  }

  lemma SplitHasSameKey(r: Request, k: nat)
    requires PipeFree(r) && k <= |Pairs(r.config) + Pairs(r.options)|
    requires var joined := Pairs(r.config) + Pairs(r.options); Ascending(KeysOf(joined[..k])) && Ascending(KeysOf(joined[k..]))
    ensures var q := SplitAt(r, k);
            && PipeFree(q) && Identity(q) == Identity(r)
            && Pairs(q.config) == (Pairs(r.config) + Pairs(r.options))[..k]
            && Pairs(q.options) == (Pairs(r.config) + Pairs(r.options))[k..]
  {
    hide Pairs, FromPairs, Identity, Ascending;
    var joined := Pairs(r.config) + Pairs(r.options);
    PairsFromAscending(joined[..k]);
    PairsFromAscending(joined[k..]);
    assert joined[..k] + joined[k..] == joined;
    IdentityDecodes(r, SplitAt(r, k));
  }

  /** Without the order of the keys there is another request with the same key. */
  lemma Unmarked(r: Request, allowed: Str -> bool) returns (q: Request)
    requires PipeFree(r) && OptionsIn(r, allowed) && !Marked(r, allowed)
    ensures PipeFree(q) && OptionsIn(q, allowed) && Identity(q) == Identity(r) && q != r
    ensures q.scheme == r.scheme && q.authority == r.authority
  {
    hide Identity, Sorted, Less, FromPairs, Pairs, Ascending;
    var c, o := Sorted(r.config.Keys), Sorted(r.options.Keys);
    var k := if o == [] then |c| - 1 else |c| + 1;
    SplitAscends(r, k);
    SplitHasSameKey(r, k);
    q := SplitAt(r, k);
    KeysOfPairs(r.config);
    KeysOfPairs(q.config);
    assert |Sorted(q.config.Keys)| == k;
    SplitOptions(r, k, allowed);
  }

  lemma SplitOptions(r: Request, k: nat, allowed: Str -> bool)
    requires OptionsIn(r, allowed) && !Marked(r, allowed)
    requires k <= |Pairs(r.config) + Pairs(r.options)|
    requires Pairs(SplitAt(r, k).options) == (Pairs(r.config) + Pairs(r.options))[k..]
    requires k == if Sorted(r.options.Keys) == [] then |Sorted(r.config.Keys)| - 1 else |Sorted(r.config.Keys)| + 1
    ensures OptionsIn(SplitAt(r, k), allowed)
  {
    hide Sorted, Less, FromPairs, Pairs, SplitAt, Ascending, KeysOf;
    var c, o, q := Sorted(r.config.Keys), Sorted(r.options.Keys), SplitAt(r, k);
    SameKeysOf(r);
    KeysOfSlices(Pairs(r.config) + Pairs(r.options), k);
    KeysOfPairs(q.options);
    assert Sorted(q.options.Keys) == (c + o)[k..] == if o == [] then [c[|c| - 1]] else o[1..];
    OptionsSorted(r, allowed);
    forall key | key in q.options ensures allowed(key) {
      assert key in Sorted(q.options.Keys);
    }
  }

  lemma SplitAscends(r: Request, k: nat)
    requires var c, o := Sorted(r.config.Keys), Sorted(r.options.Keys);
             if o == [] then k + 1 == |c| else k == |c| + 1 && (c == [] || Less(c[|c| - 1], o[0]))
    ensures var joined := Pairs(r.config) + Pairs(r.options);
            && k <= |joined|
            && Ascending(KeysOf(joined[..k])) && Ascending(KeysOf(joined[k..]))
  {
    hide *;
    var joined := Pairs(r.config) + Pairs(r.options);
    SameKeysOf(r);
    KeysOfSlices(joined, k);
    SortedKeysAscend(r);
    SlicesAscend(Sorted(r.config.Keys), Sorted(r.options.Keys), k);
  }

  lemma KeysOfSlices(pairs: seq<Pair>, k: nat)
    ensures |KeysOf(pairs)| == |pairs|
    ensures k <= |pairs| ==> KeysOf(pairs[..k]) == KeysOf(pairs)[..k] && KeysOf(pairs[k..]) == KeysOf(pairs)[k..]
  {
  }

  lemma SortedKeysAscend(r: Request)
    ensures Ascending(Sorted(r.config.Keys)) && Ascending(Sorted(r.options.Keys))
  {
    hide Sorted;
  }

  lemma SlicesAscend(c: seq<Str>, o: seq<Str>, k: nat)
    requires Ascending(c) && Ascending(o)
    requires if o == [] then k + 1 == |c| else k == |c| + 1 && (c == [] || Less(c[|c| - 1], o[0]))
    ensures k <= |c + o| && Ascending((c + o)[..k]) && Ascending((c + o)[k..])
  {
    hide Less;
    if o == [] {
      assert (c + o)[..k] == c[..k] && (c + o)[k..] == c[k..];
    } else {
      assert (c + o)[..k] == c + [o[0]] && (c + o)[k..] == o[1..];
      AppendGreater(c, o[0]);
    }
  }

  lemma AppendGreater(s: seq<Str>, x: Str)
    requires Ascending(s) && (s == [] || Less(s[|s| - 1], x))
    ensures Ascending(s + [x])
  {
    hide Less;
    forall i | 0 <= i < |s| ensures Less(s[i], x) {
      if i < |s| - 1 {
        LessTransitive(s[i], s[|s| - 1], x);
      }
    }
  }

  lemma LongerFront(c: seq<Str>, o: seq<Str>, c': seq<Str>, o': seq<Str>)
    requires Ascending(c') && c + o == c' + o' && |c'| > |c|
    ensures o != [] && (c == [] || Less(c[|c| - 1], o[0]))
  {
    hide Less;
    var n, all := |c|, c + o;
    assert |o| > 0;
    assert c'[n] == all[n] == o[0];
    if n > 0 {
      assert c'[n - 1] == all[n - 1] == c[n - 1];
    }
  }

  lemma ShorterFront(c: seq<Str>, o: seq<Str>, c': seq<Str>, o': seq<Str>)
    requires Ascending(o') && c + o == c' + o' && |c'| < |c|
    ensures c[|c| - 1] in o' && (o == [] || Less(c[|c| - 1], o[0]))
  {
    hide Less;
    var n, all := |c|, c + o;
    var i := n - 1 - |c'|;
    assert o'[i] == all[n - 1] == c[n - 1];
    if o != [] {
      assert o'[i + 1] == all[n] == o[0];
    }
  }

  lemma SameBoundary(c: seq<Str>, o: seq<Str>, c': seq<Str>, o': seq<Str>, allowed: Str -> bool)
    requires Ascending(c') && Ascending(o') && c + o == c' + o'
    requires MarkedBetween(c, o, allowed) && forall k :: k in o' ==> allowed(k)
    ensures |c| == |c'|
  {
    hide Less, Ascending;
    if |c'| > |c| {
      LongerFront(c, o, c', o');
    } else if |c'| < |c| {
      ShorterFront(c, o, c', o');
    }
  }

  /** With it there is none. */
  lemma MarkedIsUnique(r: Request, q: Request, allowed: Str -> bool)
    requires PipeFree(r) && Marked(r, allowed)
    requires PipeFree(q) && OptionsIn(q, allowed) && Identity(q) == Identity(r)
    ensures q == r
  {
    hide *;
    IdentityDecodes(r, q);
    SameKeysOf(r);
    SameKeysOf(q);
    OptionsSorted(q, allowed);
    MarkedKeys(r, allowed);
    SameBoundary(Sorted(r.config.Keys), Sorted(r.options.Keys), Sorted(q.config.Keys), Sorted(q.options.Keys), allowed);
    var joined, n := Pairs(r.config) + Pairs(r.options), |Pairs(r.config)|;
    assert Pairs(r.config) == joined[..n] == Pairs(q.config);
    assert Pairs(r.options) == joined[n..] == Pairs(q.options);
    PairsInjective(r.config, q.config);
    PairsInjective(r.options, q.options);
  }

  lemma SameKeysOf(r: Request)
    ensures KeysOf(Pairs(r.config) + Pairs(r.options)) == Sorted(r.config.Keys) + Sorted(r.options.Keys)
    ensures |Pairs(r.config)| == |Sorted(r.config.Keys)|
  {
    hide Sorted, Pairs;
    KeysOfPairs(r.config);
    KeysOfPairs(r.options);
  }

  lemma OptionsSorted(r: Request, allowed: Str -> bool)
    requires OptionsIn(r, allowed)
    ensures forall k :: k in Sorted(r.options.Keys) ==> allowed(k)
  {
    hide Sorted;
  }

  lemma MarkedKeys(r: Request, allowed: Str -> bool)
    ensures Marked(r, allowed) == MarkedBetween(Sorted(r.config.Keys), Sorted(r.options.Keys), allowed)
  {
  }

  /** The exact condition for a request to be the only one with its key, among the requests
      without a marker in scheme or authority whose option keys are allowed. */
  lemma KeyDeterminesRequest(r: Request, allowed: Str -> bool)
    requires PipeFree(r) && OptionsIn(r, allowed)
    ensures Marked(r, allowed) <==>
            forall q :: PipeFree(q) && OptionsIn(q, allowed) && Identity(q) == Identity(r) ==> q == r
  {
    hide Identity, Marked;
    if Marked(r, allowed) {
      forall q | PipeFree(q) && OptionsIn(q, allowed) && Identity(q) == Identity(r) ensures q == r {
        MarkedIsUnique(r, q, allowed);
      }
    } else {
      var q := Unmarked(r, allowed);
    }
  }

  /** The boundary between configuration and options leaves no trace: any entries may stand on
      either side of it. */
  lemma BoundaryIsNotMarked(scheme: Str, authority: Str, entries: map<Str, Str>)
    ensures Identity(Request(scheme, authority, entries, map[])) == Identity(Request(scheme, authority, map[], entries))
    ensures entries != map[] ==> Request(scheme, authority, entries, map[]) != Request(scheme, authority, map[], entries)
  {
    hide Frames, Flat, Sorted;
    assert Pairs(map[]) == [];
    assert Pairs(entries) + [] == Pairs(entries) == [] + Pairs(entries);
  }

  // ---- A marker in the authority ----

  lemma {:induction false} DecimalGrows(m: nat, n: nat)
    requires m <= n
    ensures |Decimal(m)| <= |Decimal(n)|
  {
    if n >= 10 {
      DecimalGrows(m / 10, n / 10);
    }
  }

  lemma {:induction false} DecimalIsShort(n: nat)
    ensures |Decimal(n)| <= n / 5 + 1
  {
    if n >= 10 {
      DecimalIsShort(n / 10);
    }
  }

  /** The length of a value that spells out an authority of `a + d` bytes, `b` bytes apart. */
  function SpelledLength(a: nat, b: nat, d: nat): nat
  {
    b + |Decimal(a + d)| + (a + d)
  }

  /** A number of digits that fits the length it gives rise to. */
  lemma {:induction false} FittingDigits(a: nat, b: nat, d: nat) returns (n: nat)
    requires d <= |Decimal(SpelledLength(a, b, d))|
    ensures |Decimal(SpelledLength(a, b, n))| == n
    decreases 6 * a + 5 * b + 31 - d
  {
    hide Decimal;
    if |Decimal(SpelledLength(a, b, d))| == d {
      n := d;
    } else {
      DecimalIsShort(SpelledLength(a, b, d));
      DecimalIsShort(a + d);
      DecimalGrows(a + d, a + d + 1);
      DecimalGrows(SpelledLength(a, b, d), SpelledLength(a, b, d + 1));
      n := FittingDigits(a, b, d + 1);
    }
  }

  lemma FrameLength(v: Str)
    ensures Frame(v) == [PIPE] + Decimal(|v|) + [COLON] + v
    ensures |Frame(v)| == 2 + |Decimal(|v|)| + |v|
  {
  }

  /** For every scheme there are two requests with one key: the first has an empty authority and
      one configuration entry, the authority of the second spells out the frames of the first. */
  lemma PipeInAuthorityCollides(scheme: Str, key: Str) returns (r: Request, q: Request)
    ensures r.scheme == q.scheme == scheme && r.authority == []
    ensures r.config.Keys == {key} && r.options == map[] && q.config == map[] && q.options == map[]
    ensures exists n: nat :: q.authority == Frame(scheme) + Frame([]) + Frame(key) + [PIPE] + Decimal(n) + [COLON]
    ensures r != q && Identity(r) == Identity(q)
  {
    hide Frame, Frames, Values, Decimal;
    var front := Frame(scheme) + Frame([]) + Frame(key);
    var digits := FittingDigits(|front| + 2, |Frame(scheme)| + 2, 0);
    var length := SpelledLength(|front| + 2, |Frame(scheme)| + 2, digits);
    var p := [PIPE] + Decimal(length) + [COLON];
    var spelled := front + p;
    var d := [PIPE] + Decimal(|spelled|) + [COLON];
    var value := Frame(scheme) + d + spelled;
    assert |value| == length;
    FrameLength(value);
    FrameLength(spelled);
    r, q := Request(scheme, [], map[key := value], map[]), Request(scheme, spelled, map[], map[]);
    CollidingValues(scheme, key, spelled, value);
    var header := Header(scheme, []);
    assert Header(scheme, spelled) == header + spelled;
    SameSpelling(header, Frame(scheme), Frame([]), Frame(key), p, d);
    assert spelled == front + [PIPE] + Decimal(length) + [COLON];
    assert |spelled| > 0;
  }

  // An authority that can be written into a URL may hold frames.

  lemma WritableConcat(a: Str, b: Str)
    requires Url.GoodAuthority(a) && Url.GoodAuthority(b)
    ensures Url.GoodAuthority(a + b)
  {
    Url.Utf8Concat(a, b);
  }

  lemma WritableByte(b: Byte)
    requires 48 <= b <= 58 || b == PIPE
    ensures Url.GoodAuthority([b])
  {
    assert [b][1..] == [];
    assert Url.Utf8([b]);
  }

  lemma {:induction false} WritableDecimal(n: nat)
    ensures Url.GoodAuthority(Decimal(n))
  {
    hide Url.GoodAuthority;
    if n < 10 {
      WritableByte(48 + n);
    } else {
      WritableDecimal(n / 10);
      WritableByte(48 + n % 10);
      WritableConcat(Decimal(n / 10), [48 + n % 10]);
    }
  }

  lemma WritableFrame(v: Str)
    requires Url.GoodAuthority(v)
    ensures Url.GoodAuthority(Frame(v))
  {
    hide Decimal, Url.GoodAuthority;
    assert Url.GoodAuthority([PIPE]) && Url.GoodAuthority([COLON]) by {
      WritableMarks();
    }
    WritableDecimal(|v|);
    WritableConcat([PIPE], Decimal(|v|));
    WritableConcat([PIPE] + Decimal(|v|), [COLON]);
    WritableConcat([PIPE] + Decimal(|v|) + [COLON], v);
  }

  lemma WritableMarks()
    ensures Url.GoodAuthority([PIPE]) && Url.GoodAuthority([COLON]) && Url.GoodAuthority([])
  {
    WritableByte(PIPE);
    WritableByte(COLON);
  }

  /** Both requests can be made: with every registered scheme that is a plain name, both URLs
      resolve to the authorities of the colliding requests. */
  lemma CollisionCanBeRequested(schemes: set<Str>, scheme: Str, key: Str, path: Str) returns (r: Request, q: Request)
    requires scheme in schemes && Url.GoodScheme(scheme) && AT !in scheme && Url.GoodAuthority(key)
    requires Url.GoodPath(path) && BACKSLASH !in path
    ensures r.scheme == q.scheme == scheme && r != q && Identity(r) == Identity(q)
    ensures forall request :: request == r || request == q ==>
              var url := Url.Build(scheme, request.authority, path);
              url.Some? && Url.Resolve(schemes, url.value) == Url.Ok(Url.Location(scheme, request.authority, path))
  {
    hide Frame, Decimal, Identity, Url.GoodAuthority, Url.Utf8, Url.Resolve, Url.Build;
    r, q := PipeInAuthorityCollides(scheme, key);
    var n: nat :| q.authority == Frame(scheme) + Frame([]) + Frame(key) + [PIPE] + Decimal(n) + [COLON];
    WritableMarks();
    WritableScheme(scheme);
    WritableFrame(scheme);
    WritableFrame([]);
    WritableFrame(key);
    WritableDecimal(n);
    WritableConcat(Frame(scheme), Frame([]));
    WritableConcat(Frame(scheme) + Frame([]), Frame(key));
    WritableConcat(Frame(scheme) + Frame([]) + Frame(key), [PIPE]);
    WritableConcat(Frame(scheme) + Frame([]) + Frame(key) + [PIPE], Decimal(n));
    WritableConcat(Frame(scheme) + Frame([]) + Frame(key) + [PIPE] + Decimal(n), [COLON]);
    RequestResolves(schemes, scheme, r.authority, path);
    RequestResolves(schemes, scheme, q.authority, path);
  }

  lemma WritableScheme(scheme: Str)
    requires Url.GoodScheme(scheme) && AT !in scheme
    ensures Url.GoodAuthority(scheme)
  {
    hide Url.Utf8;
  }

  lemma RequestResolves(schemes: set<Str>, scheme: Str, authority: Str, path: Str)
    requires scheme in schemes && Url.GoodScheme(scheme) && Url.GoodAuthority(authority)
    requires Url.GoodPath(path) && BACKSLASH !in path
    ensures var url := Url.Build(scheme, authority, path);
            url.Some? && Url.Resolve(schemes, url.value) == Url.Ok(Url.Location(scheme, authority, path))
  {
    hide Url.Resolve, Url.Build, Url.Utf8;
    Url.RoundTripExactly(schemes, scheme, authority, path);
  }

  lemma SameSpelling(header: Str, a: Str, b: Str, c: Str, p: Str, q: Str)
    ensures var spelled := a + b + c + p;
            header + [] + (a + b + c + (p + (a + q + spelled))) == header + spelled + (a + (q + spelled))
  {
    var spelled := a + b + c + p;
    var value := a + q + spelled;
    assert a + b + c + (p + value) == spelled + value;
    assert value == a + (q + spelled);
    assert header + [] == header;
    Regroup(header, spelled, value);
  }

  lemma CollidingValues(scheme: Str, k: Str, spelled: Str, value: Str)
    ensures Frames(Values(Request(scheme, [], map[k := value], map[]))) ==
            Frame(scheme) + Frame([]) + Frame(k) + Frame(value)
    ensures Frames(Values(Request(scheme, spelled, map[], map[]))) == Frame(scheme) + Frame(spelled)
  {
    hide Frame, Frames, Values;
    OneEntryValues(scheme, k, value);
    NoEntryValues(scheme, spelled);
    FramesOf4(scheme, [], k, value);
    assert [scheme, spelled] == [scheme] + [spelled];
    FramesConcat([scheme], [spelled]);
    FramesOf1(scheme);
    FramesOf1(spelled);
  }

  lemma OneEntryValues(scheme: Str, k: Str, value: Str)
    ensures Values(Request(scheme, [], map[k := value], map[])) == [scheme, [], k, value]
  {
    hide Pairs, Sorted;
    SingletonPairs(k, value);
    NoPairs();
    assert Flat([(k, value)]) == [k, value] + Flat([]);
    assert Pairs(map[k := value]) + Pairs(map[]) == [(k, value)];
  }

  lemma NoEntryValues(scheme: Str, authority: Str)
    ensures Values(Request(scheme, authority, map[], map[])) == [scheme, authority]
  {
    hide Pairs, Sorted;
    NoPairs();
    assert Pairs(map[]) + Pairs(map[]) == [];
  }

  lemma NoPairs()
    ensures Pairs(map[]) == []
  {
    hide Sorted;
    SortedNothing();
  }

  lemma SingletonPairs(k: Str, value: Str)
    ensures Pairs(map[k := value]) == [(k, value)]
  {
    hide Sorted;
    var m: map<Str, Str> := map[k := value];
    assert m.Keys == {k};
    SortedPick(k, {k});
    assert {k} - {k} == {};
    SortedNothing();
  }

  lemma FramesOf1(a: Str)
    ensures Frames([a]) == Frame(a)
  {
  }

  lemma FramesOf4(a: Str, b: Str, c: Str, d: Str)
    ensures Frames([a, b, c, d]) == Frame(a) + Frame(b) + Frame(c) + Frame(d)
  {
    hide Frame, Frames;
    assert [a, b, c, d] == [a] + [b] + [c] + [d];
    FramesOf1(a);
    FramesOf1(b);
    FramesOf1(c);
    FramesOf1(d);
    FramesConcat([a] + [b] + [c], [d]);
    FramesConcat([a] + [b], [c]);
    FramesConcat([a], [b]);
  }
}
