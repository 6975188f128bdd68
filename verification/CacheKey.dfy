/** The key of the operator cache (src/opendal_filesystem.cpp, `ConfigIdentity`): scheme and
    authority followed by length-prefixed copies of everything an operator is built from. */
module CacheKey {
  import opened Bytes

  datatype Request = Request(scheme: Str, authority: Str, config: map<Str, Str>, options: map<Str, Str>)

  // ---- The encoding ----

  /** `std::to_string` of a size. */
  function Decimal(n: nat): Str
  {
    if n < 10 then [48 + n] else Decimal(n / 10) + [48 + n % 10]
  }

  function Frame(value: Str): (frame: Str)
    ensures frame != [] && frame[0] == PIPE
  {
    [PIPE] + Decimal(|value|) + [COLON] + value
  }

  function Frames(values: seq<Str>): Str
  {
    if values == [] then [] else Frame(values[0]) + Frames(values[1..])
  }

  type Pair = (Str, Str)

  /** The entries of a `std::map`, in iteration order. */
  ghost function Pairs(m: map<Str, Str>): seq<Pair>
  {
    PairsAlong(Sorted(m.Keys), m)
  }

  ghost function PairsAlong(keys: seq<Str>, m: map<Str, Str>): (pairs: seq<Pair>)
    requires forall k :: k in keys ==> k in m
    ensures |pairs| == |keys|
    ensures forall i :: 0 <= i < |keys| ==> pairs[i] == (keys[i], m[keys[i]])
  {
    seq(|keys|, i requires 0 <= i < |keys| => (keys[i], m[keys[i]]))
  }

  /** A list of entries as a map: later entries replace earlier ones. */
  function FromPairs(pairs: seq<Pair>): map<Str, Str>
  {
    if pairs == [] then map[]
    else
      var n := |pairs| - 1;
      FromPairs(pairs[..n])[pairs[n].0 := pairs[n].1]
  }

  lemma FromPairsAppend(pairs: seq<Pair>, i: nat)
    requires i < |pairs|
    ensures FromPairs(pairs[..i + 1]) == FromPairs(pairs[..i])[pairs[i].0 := pairs[i].1]
  {
    assert pairs[..i + 1][..i] == pairs[..i];
  }

  function Flat(pairs: seq<Pair>): seq<Str>
  {
    if pairs == [] then [] else [pairs[0].0, pairs[0].1] + Flat(pairs[1..])
  }

  function Header(scheme: Str, authority: Str): Str
  {
    scheme + [COLON, SLASH, SLASH] + authority
  }

  /** Decimal digits, without leading zeros. */
  lemma DecimalMeans(n: nat, d: nat)
    requires d < 10
    ensures Decimal(d) == [48 + d]
    ensures n > 0 ==> Decimal(10 * n + d) == Decimal(n) + [48 + d]
  {
    assert n > 0 ==> (10 * n + d) / 10 == n && (10 * n + d) % 10 == d;
  }

  /** Everything that is framed, in order. The end of the configuration is not marked. */
  ghost function Values(request: Request): seq<Str>
  {
    [request.scheme, request.authority] + Flat(Pairs(request.config) + Pairs(request.options))
  }

  ghost function Identity(request: Request): Str
  {
    Header(request.scheme, request.authority) + Frames(Values(request))
  }

  // ---- The 64-bit namespace hash ----

  const RANGE: nat := 0x1_0000_0000_0000_0000
  const FNV_PRIME: nat := 1099511628211
  const FNV_OFFSET: Hash := 1469598103934665603

  type Hash = h: int | 0 <= h < 0x1_0000_0000_0000_0000

  /** Exclusive or, bit by bit. */
  function Xor(x: nat, y: nat): nat
  {
    if x == 0 then y
    else if y == 0 then x
    else 2 * Xor(x / 2, y / 2) + (x % 2 + y % 2) % 2
  }

  /** The product is cut to 64 bits. */
  function Mix(hash: Hash, b: Byte): Hash
  {
    Xor(hash, b) * FNV_PRIME % RANGE
  }

  function MixAll(hash: Hash, value: Str): Hash
    decreases value
  {
    if value == [] then hash else MixAll(Mix(hash, value[0]), value[1..])
  }

  function HashValues(hash: Hash, values: seq<Str>): Hash
    decreases values
  {
    if values == [] then hash else HashValues(Mix(MixAll(hash, values[0]), 255), values[1..])
  }

  ghost function Namespace(request: Request): Hash
  {
    HashValues(FNV_OFFSET, Values(request))
  }

  lemma {:induction false} XorIsReversible(x: nat, y: nat, z: nat)
    requires Xor(x, z) == Xor(y, z)
    ensures x == y
    decreases x + y + z
  {
    if x > 0 || y > 0 || z > 0 {
      hide Xor;
      XorStep(x, z);
      XorStep(y, z);
      XorIsReversible(x / 2, y / 2, z / 2);
    }
  }

  /** The lowest bit, and the others. */
  lemma XorStep(x: nat, y: nat)
    ensures Xor(x, y) == 2 * Xor(x / 2, y / 2) + (x % 2 + y % 2) % 2
  {
  }

  lemma {:induction false} XorCommutes(x: nat, y: nat)
    ensures Xor(x, y) == Xor(y, x)
    decreases x + y
  {
    if x > 0 && y > 0 {
      XorCommutes(x / 2, y / 2);
    }
  }

  function Power(n: nat): nat
  {
    if n == 0 then 1 else 2 * Power(n - 1)
  }

  lemma {:induction false} XorKeepsWidth(x: nat, y: nat, n: nat)
    requires x < Power(n) && y < Power(n)
    ensures Xor(x, y) < Power(n)
  {
    if x > 0 && y > 0 {
      XorKeepsWidth(x / 2, y / 2, n - 1);
    }
  }

  lemma {:induction false} PowerOfSum(m: nat, n: nat)
    ensures Power(m + n) == Power(m) * Power(n)
  {
    hide Power;
    PowerStep(m);
    PowerStep(m + n);
    if m > 0 {
      PowerOfSum(m - 1, n);
      TwiceTimes(Power(m - 1), Power(n));
    }
  }

  lemma PowerStep(n: nat)
    ensures Power(n) == if n == 0 then 1 else 2 * Power(n - 1)
  {
  }

  lemma TwiceTimes(a: nat, b: nat)
    ensures (2 * a) * b == 2 * (a * b)
  {
  }

  lemma Width()
    ensures Power(64) == RANGE
  {
    assert Power(4) == 2 * Power(3) == 4 * Power(2) == 16;
    PowerOfSum(4, 4);
    PowerOfSum(8, 8);
    PowerOfSum(16, 16);
    PowerOfSum(32, 32);
  }

  /** The prime is odd, so multiplying by it can be undone. */
  lemma ScaleIsReversible(x: Hash, y: Hash)
    requires x * FNV_PRIME % RANGE == y * FNV_PRIME % RANGE
    ensures x == y
  {
    var p, q := x * FNV_PRIME / RANGE, y * FNV_PRIME / RANGE;
    assert (x - y) * FNV_PRIME == (p - q) * RANGE;
    var z := (p - q) * 0xce965057aff6957b - (x - y) * 0xce9650590f;
    assert x - y == RANGE * z;
  }

  lemma MixIsReversible(hash: Hash, other: Hash, b: Byte, c: Byte)
    ensures Mix(hash, b) == Mix(other, b) ==> hash == other
    ensures Mix(hash, b) == Mix(hash, c) ==> b == c
  {
    hide Xor, Power;
    Width();
    XorKeepsWidth(hash, b, 64);
    XorKeepsWidth(other, b, 64);
    XorKeepsWidth(hash, c, 64);
    if Mix(hash, b) == Mix(other, b) {
      ScaleIsReversible(Xor(hash, b), Xor(other, b));
      XorIsReversible(hash, other, b);
    }
    if Mix(hash, b) == Mix(hash, c) {
      ScaleIsReversible(Xor(hash, b), Xor(hash, c));
      XorCommutes(hash, b);
      XorCommutes(hash, c);
      XorIsReversible(b, c, hash);
    }
  }

  lemma {:induction false} MixAllIsReversible(hash: Hash, other: Hash, value: Str)
    ensures MixAll(hash, value) == MixAll(other, value) ==> hash == other
    decreases |value|
  {
    hide Mix;
    if value != [] {
      MixAllIsReversible(Mix(hash, value[0]), Mix(other, value[0]), value[1..]);
      MixIsReversible(hash, other, value[0], value[0]);
    }
  }

  lemma {:induction false} HashIsReversible(hash: Hash, other: Hash, values: seq<Str>)
    ensures HashValues(hash, values) == HashValues(other, values) ==> hash == other
    decreases |values|
  {
    hide Mix, MixAll;
    if values != [] {
      var a, b := MixAll(hash, values[0]), MixAll(other, values[0]);
      HashIsReversible(Mix(a, 255), Mix(b, 255), values[1..]);
      MixIsReversible(a, b, 255, 255);
      MixAllIsReversible(hash, other, values[0]);
    }
  }

  lemma {:induction false} MixAllConcat(hash: Hash, a: Str, b: Str)
    ensures MixAll(hash, a + b) == MixAll(MixAll(hash, a), b)
    decreases |a|
  {
    hide Mix;
    if a == [] {
      assert a + b == b;
    } else {
      assert (a + b)[1..] == a[1..] + b;
      MixAllConcat(Mix(hash, a[0]), a[1..], b);
    }
  }

  /** Every byte that is folded in counts: values that differ in one byte have different hashes. */
  lemma OneByteChangesHash(hash: Hash, front: seq<Str>, a: Str, b: Byte, c: Byte, d: Str, back: seq<Str>)
    requires b != c
    ensures HashValues(hash, front + [a + [b] + d] + back) != HashValues(hash, front + [a + [c] + d] + back)
  {
    hide Mix, MixAll, HashValues;
    var h := HashValues(hash, front);
    var x, y := a + [b] + d, a + [c] + d;
    OneValueHashed(hash, front, x, back);
    OneValueHashed(hash, front, y, back);
    OneByteMixed(h, a, b, d);
    OneByteMixed(h, a, c, d);
    HashIsReversible(Mix(MixAll(h, x), 255), Mix(MixAll(h, y), 255), back);
    MixIsReversible(MixAll(h, x), MixAll(h, y), 255, 255);
    MixAllIsReversible(Mix(MixAll(h, a), b), Mix(MixAll(h, a), c), d);
    MixIsReversible(MixAll(h, a), 0, b, c);
  }

  lemma OneValueHashed(hash: Hash, front: seq<Str>, v: Str, back: seq<Str>)
    ensures HashValues(hash, front + [v] + back) == HashValues(Mix(MixAll(HashValues(hash, front), v), 255), back)
  {
    hide Mix, MixAll;
    HashConcat(hash, front + [v], back);
    HashConcat(hash, front, [v]);
    assert [v][1..] == [];
  }

  lemma OneByteMixed(hash: Hash, a: Str, b: Byte, d: Str)
    ensures MixAll(hash, a + [b] + d) == MixAll(Mix(MixAll(hash, a), b), d)
  {
    hide Mix;
    MixAllConcat(hash, a + [b], d);
    MixAllConcat(hash, a, [b]);
    assert [b][1..] == [];
  }

  /** Two hashes of one byte worked out, one of them from where the source starts. */
  lemma HashOfOneByte()
    ensures MixAll(2, [1]) == 3298534884633
    ensures HashValues(FNV_OFFSET, []) == 1469598103934665603 && MixAll(FNV_OFFSET, [0]) == 4953163356653287321
  {
    assert [0][1..] == [];
    assert Xor(2, 1) == 2 * Xor(1, 0) + 1 == 3;
    assert [1][1..] == [];
  }

  /** The running identity and hash, as the source builds them. */
  class Builder {
    var identity: Str
    var hash: Hash

    constructor (scheme: Str, authority: Str)
      ensures identity == Header(scheme, authority) && hash == FNV_OFFSET
    {
      identity := scheme + [COLON, SLASH, SLASH] + authority;
      hash := FNV_OFFSET;
    }

    method Add(value: Str)
      modifies this
      ensures identity == old(identity) + Frames([value])
      ensures hash == HashValues(old(hash), [value])
    {
      identity := identity + ([PIPE] + Decimal(|value|) + [COLON] + value);
      for i := 0 to |value|
        invariant MixAll(hash, value[i..]) == MixAll(old(hash), value)
        invariant identity == old(identity) + Frame(value)
      {
        hash := Mix(hash, value[i]);
        assert value[i..][1..] == value[i + 1..];
      }
      hash := Mix(hash, 255);
    }

    /** One entry of a map, after the entries of `done`. */
    method AddEntry(key: Str, value: Str, ghost start: Str, ghost seed: Hash, ghost done: seq<Str>, ghost m: map<Str, Str>)
      requires key in m && m[key] == value && forall k :: k in done ==> k in m
      requires identity == start + Frames(Flat(PairsAlong(done, m)))
      requires hash == HashValues(seed, Flat(PairsAlong(done, m)))
      modifies this
      ensures forall k :: k in done + [key] ==> k in m
      ensures identity == start + Frames(Flat(PairsAlong(done + [key], m)))
      ensures hash == HashValues(seed, Flat(PairsAlong(done + [key], m)))
    {
      hide Frames, HashValues, Flat, PairsAlong;
      ExtendAlong(start, seed, done, key, m);
      Add(key);
      Add(value);
    }

    method Append(m: map<Str, Str>)
      modifies this
      ensures identity == old(identity) + Frames(Flat(Pairs(m)))
      ensures hash == HashValues(old(hash), Flat(Pairs(m)))
    {
      hide Frames, HashValues, Flat, Sorted, PairsAlong;
      NothingAlong(m);
      var left := m.Keys;
      ghost var start, seed, done := identity, hash, [];
      while left != {}
        invariant left <= m.Keys && done + Sorted(left) == Sorted(m.Keys)
        invariant forall k :: k in done ==> k in m
        invariant identity == start + Frames(Flat(PairsAlong(done, m)))
        invariant hash == HashValues(seed, Flat(PairsAlong(done, m)))
        decreases |left|
      {
        var key := TakeLeast(left);
        AddEntry(key, m[key], start, seed, done, m);
        Regroup(done, [key], Sorted(left - {key}));
        done := done + [key];
        left := left - {key};
      }
      SortedNothing();
      assert done + [] == done;
    }
  }

  lemma Regroup<T>(a: seq<T>, b: seq<T>, c: seq<T>)
    ensures a + (b + c) == (a + b) + c
  {
  }

  lemma SortedNothing()
    ensures Sorted({}) == []
  {
  }

  lemma NothingAlong(m: map<Str, Str>)
    ensures Frames(Flat(PairsAlong([], m))) == []
    ensures forall hash :: HashValues(hash, Flat(PairsAlong([], m))) == hash
  {
  }

  lemma ExtendAlong(identity: Str, hash: Hash, done: seq<Str>, key: Str, m: map<Str, Str>)
    requires key in m && forall k :: k in done ==> k in m
    ensures var before, after := Flat(PairsAlong(done, m)), Flat(PairsAlong(done + [key], m));
            && identity + Frames(before) + Frames([key]) + Frames([m[key]]) == identity + Frames(after)
            && HashValues(HashValues(HashValues(hash, before), [key]), [m[key]]) == HashValues(hash, after)
  {
    hide Frames, HashValues;
    var before := Flat(PairsAlong(done, m));
    assert PairsAlong(done + [key], m) == PairsAlong(done, m) + [(key, m[key])];
    FlatConcat(PairsAlong(done, m), [(key, m[key])]);
    assert Flat([(key, m[key])]) == [key, m[key]] == [key] + [m[key]];
    FramesConcat(before, [key, m[key]]);
    FramesConcat([key], [m[key]]);
    HashConcat(hash, before, [key, m[key]]);
    HashConcat(HashValues(hash, before), [key], [m[key]]);
  }

  method ConfigIdentity(scheme: Str, authority: Str, config: map<Str, Str>, options: map<Str, Str>)
    returns (identity: Str, hash: Hash)
    ensures identity == Identity(Request(scheme, authority, config, options))
    ensures hash == Namespace(Request(scheme, authority, config, options))
  {
    hide Frames, HashValues, Values, Namespace;
    var builder := new Builder(scheme, authority);
    builder.Add(scheme);
    builder.Add(authority);
    builder.Append(config);
    builder.Append(options);
    identity, hash := builder.identity, builder.hash;
    JoinValues(Request(scheme, authority, config, options));
  }

  lemma JoinValues(request: Request)
    ensures var config, options := Flat(Pairs(request.config)), Flat(Pairs(request.options));
            && Frames(Values(request)) ==
                 Frames([request.scheme]) + Frames([request.authority]) + Frames(config) + Frames(options)
            && Namespace(request) ==
                 HashValues(HashValues(HashValues(HashValues(FNV_OFFSET, [request.scheme]), [request.authority]),
                                       config), options)
  {
    hide Frames, HashValues, Flat, Pairs;
    var config, options := Flat(Pairs(request.config)), Flat(Pairs(request.options));
    var front := [request.scheme, request.authority];
    FlatConcat(Pairs(request.config), Pairs(request.options));
    FramesConcat(front, config + options);
    FramesConcat(config, options);
    assert front == [request.scheme] + [request.authority];
    FramesConcat([request.scheme], [request.authority]);
    HashConcat(FNV_OFFSET, front, config + options);
    HashConcat(FNV_OFFSET, [request.scheme], [request.authority]);
    HashConcat(HashValues(FNV_OFFSET, front), config, options);
  }

  lemma {:induction false} FlatConcat(a: seq<Pair>, b: seq<Pair>)
    ensures Flat(a + b) == Flat(a) + Flat(b)
  {
    if a == [] {
      assert a + b == b;
    } else {
      assert (a + b)[1..] == a[1..] + b;
      FlatConcat(a[1..], b);
    }
  }

  lemma {:induction false} FramesConcat(a: seq<Str>, b: seq<Str>)
    ensures Frames(a + b) == Frames(a) + Frames(b)
  {
    if a == [] {
      assert a + b == b;
    } else {
      assert (a + b)[1..] == a[1..] + b;
      FramesConcat(a[1..], b);
    }
  }

  lemma {:induction false} HashConcat(hash: Hash, a: seq<Str>, b: seq<Str>)
    ensures HashValues(hash, a + b) == HashValues(HashValues(hash, a), b)
    decreases a
  {
    if a == [] {
      assert a + b == b;
    } else {
      assert (a + b)[1..] == a[1..] + b;
      HashConcat(Mix(MixAll(hash, a[0]), 255), a[1..], b);
    }
  }

  // ---- Unique decodability ----

  function Value(digits: Str): int
  {
    if digits == [] then 0 else 10 * Value(digits[..|digits| - 1]) + digits[|digits| - 1] - 48
  }

  lemma {:induction false} ValueOfDecimal(n: nat)
    ensures Value(Decimal(n)) == n
    ensures COLON !in Decimal(n)
  {
    if n < 10 {
      assert [48 + n][..0] == [];
    } else {
      ValueOfDecimal(n / 10);
      var digits := Decimal(n);
      assert digits[..|digits| - 1] == Decimal(n / 10);
    }
  }

  /** A frame can be told from what follows it. */
  lemma FrameInjective(v: Str, rest: Str, w: Str, tail: Str)
    requires Frame(v) + rest == Frame(w) + tail
    ensures v == w && rest == tail
  {
    hide Decimal;
    var a, b := Decimal(|v|), Decimal(|w|);
    ValueOfDecimal(|v|);
    ValueOfDecimal(|w|);
    var s := Frame(v) + rest;
    var t := s[1..];
    assert t == a + [COLON] + (v + rest);
    assert t == b + [COLON] + (w + tail);
    FirstIndexUnique(t, COLON, |a|);
    FirstIndexUnique(t, COLON, |b|);
    assert a == t[..|a|] == b;
    assert v + rest == t[|a| + 1..] == w + tail;
    assert v == (v + rest)[..|v|] && rest == (v + rest)[|v|..];
    assert w == (w + tail)[..|w|] && tail == (w + tail)[|w|..];
  }

  lemma {:induction false} FramesInjective(a: seq<Str>, b: seq<Str>)
    requires Frames(a) == Frames(b)
    ensures a == b
  {
    hide Frame;
    if a != [] && b != [] {
      FrameInjective(a[0], Frames(a[1..]), b[0], Frames(b[1..]));
      FramesInjective(a[1..], b[1..]);
      assert a == [a[0]] + a[1..] && b == [b[0]] + b[1..];
    }
  }

  lemma {:induction false} FlatInjective(a: seq<Pair>, b: seq<Pair>)
    requires Flat(a) == Flat(b)
    ensures a == b
  {
    if a != [] && b != [] {
      var s, t := Flat(a), Flat(b);
      assert s[0] == a[0].0 && s[1] == a[0].1 && s[2..] == Flat(a[1..]);
      assert t[0] == b[0].0 && t[1] == b[0].1 && t[2..] == Flat(b[1..]);
      FlatInjective(a[1..], b[1..]);
      assert a == [a[0]] + a[1..] && b == [b[0]] + b[1..];
    }
  }

  lemma PairsInjective(m: map<Str, Str>, n: map<Str, Str>)
    requires Pairs(m) == Pairs(n)
    ensures m == n
  {
    hide Sorted;
    var a, b := Sorted(m.Keys), Sorted(n.Keys);
    assert a == b by {
      assert |a| == |b|;
      forall i | 0 <= i < |a| ensures a[i] == b[i] {
        assert Pairs(m)[i].0 == Pairs(n)[i].0;
      }
    }
    forall k | k in m ensures k in n && m[k] == n[k] {
      var i :| 0 <= i < |a| && a[i] == k;
      assert Pairs(m)[i] == Pairs(n)[i];
    }
    assert forall k :: k in n ==> k in b;
  }

  /** A scheme and authority without the frame marker. */
  predicate PipeFree(request: Request)
  {
    PIPE !in request.scheme && PIPE !in request.authority
  }

  lemma HeaderEndsAtPipe(request: Request)
    requires PipeFree(request)
    ensures FirstIndex(Identity(request), PIPE) == |Header(request.scheme, request.authority)|
  {
    hide Decimal;
    var header := Header(request.scheme, request.authority);
    var s := Identity(request);
    assert Frames(Values(request))[0] == PIPE;
    assert s[|header|] == PIPE;
    FirstIndexUnique(s, PIPE, |header|);
  }

  /** The exact reach of the key: it determines scheme, authority and the joined list of
      configuration and option entries, and nothing more. */
  lemma IdentityDecodes(r: Request, q: Request)
    requires PipeFree(r) && PipeFree(q)
    ensures Identity(r) == Identity(q) <==>
            && r.scheme == q.scheme && r.authority == q.authority
            && Pairs(r.config) + Pairs(r.options) == Pairs(q.config) + Pairs(q.options)
  {
    hide Frames, Flat, Pairs;
    if Identity(r) == Identity(q) {
      HeaderEndsAtPipe(r);
      HeaderEndsAtPipe(q);
      var n := |Header(r.scheme, r.authority)|;
      assert Frames(Values(r)) == Identity(r)[n..] == Identity(q)[n..] == Frames(Values(q));
      FramesInjective(Values(r), Values(q));
      assert Values(r)[0] == Values(q)[0] && Values(r)[1] == Values(q)[1];
      assert Values(r)[2..] == Values(q)[2..];
      FlatInjective(Pairs(r.config) + Pairs(r.options), Pairs(q.config) + Pairs(q.options));
    }
  }

  const IO: Str := [105, 111]                                   // io
  const RETRY: Str := [114, 101, 116, 114, 121]                 // retry
  const TIMEOUT: Str := [116, 105, 109, 101, 111, 117, 116]     // timeout
  const CACHE: Str := [99, 97, 99, 104, 101]                    // cache

  function Dotted(section: Str): Str
  {
    section + [DOT]
  }

  /** Whether an option key belongs to one of the four cross-service sections. */
  predicate Sectioned(key: Str)
  {
    Dotted(IO) <= key || Dotted(RETRY) <= key || Dotted(TIMEOUT) <= key || Dotted(CACHE) <= key
  }

  /** Service keys outside the sections, option keys inside them. */
  predicate WellSplit(request: Request)
  {
    && (forall k :: k in request.config ==> !Sectioned(k))
    && (forall k :: k in request.options ==> Sectioned(k))
  }

  lemma SplitUnique(a: seq<Pair>, b: seq<Pair>, c: seq<Pair>, d: seq<Pair>)
    requires a + b == c + d
    requires forall i :: 0 <= i < |a| ==> !Sectioned(a[i].0)
    requires forall i :: 0 <= i < |c| ==> !Sectioned(c[i].0)
    requires forall i :: 0 <= i < |b| ==> Sectioned(b[i].0)
    requires forall i :: 0 <= i < |d| ==> Sectioned(d[i].0)
    ensures a == c && b == d
  {
    hide Sectioned;
    var s := a + b;
    assert |a| < |s| ==> Sectioned(s[|a|].0);
    assert |c| < |s| ==> Sectioned(s[|c|].0);
    assert forall i :: 0 <= i < |c| ==> !Sectioned(s[i].0);
    assert forall i :: 0 <= i < |a| ==> !Sectioned(s[i].0);
    assert a == s[..|a|] == c && b == s[|a|..] == d;
  }

  /** Equal keys belong to equal requests, so a cached operator was built from exactly what the
      request would have been built from, and in the same cache namespace. */
  lemma IdentityInjective(r: Request, q: Request)
    requires PipeFree(r) && PipeFree(q) && WellSplit(r) && WellSplit(q)
    requires Identity(r) == Identity(q)
    ensures r == q && Namespace(r) == Namespace(q)
  {
    hide Identity, Sectioned, Sorted, Namespace;
    IdentityDecodes(r, q);
    forall i | 0 <= i < |Pairs(r.config)| ensures !Sectioned(Pairs(r.config)[i].0) {
      assert Sorted(r.config.Keys)[i] in Sorted(r.config.Keys);
    }
    forall i | 0 <= i < |Pairs(q.config)| ensures !Sectioned(Pairs(q.config)[i].0) {
      assert Sorted(q.config.Keys)[i] in Sorted(q.config.Keys);
    }
    forall i | 0 <= i < |Pairs(r.options)| ensures Sectioned(Pairs(r.options)[i].0) {
      assert Sorted(r.options.Keys)[i] in Sorted(r.options.Keys);
    }
    forall i | 0 <= i < |Pairs(q.options)| ensures Sectioned(Pairs(q.options)[i].0) {
      assert Sorted(q.options.Keys)[i] in Sorted(q.options.Keys);
    }
    SplitUnique(Pairs(r.config), Pairs(r.options), Pairs(q.config), Pairs(q.options));
    PairsInjective(r.config, q.config);
    PairsInjective(r.options, q.options);
  }
}
