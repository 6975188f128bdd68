/** The secrets made by `CREATE SECRET` (src/opendal_secret.cpp).

    The entries of a secret are kept in the host's map, which compares keys without ASCII case: an
    entry whose key is already there under another spelling keeps the old spelling and takes the
    new value. */
module Secrets {
  import opened Bytes
  import opened CacheKey
  import opened Options

  // ---- A map that compares keys without case ----

  ghost predicate CaseDistinct(m: Map)
  {
    forall a, b :: a in m && b in m && Lower(a) == Lower(b) ==> a == b
  }

  /** The spelling under which `key` is in the map, or `key` itself when it is not. */
  ghost function Spelling(m: Map, key: Str): (s: Str)
    ensures Lower(s) == Lower(key)
    ensures s in m || s == key
    ensures s !in m ==> forall k :: k in m ==> Lower(k) != Lower(key)
  {
    if k :| k in m && Lower(k) == Lower(key) then k else key
  }

  ghost function Put(m: Map, key: Str, value: Str): Map
  {
    m[Spelling(m, key) := value]
  }

  /** The entries of a list, put in one after the other under a prefix. */
  ghost function PutAll(m: Map, prefix: Str, pairs: seq<Pair>): Map
  {
    if pairs == [] then m
    else
      var n := |pairs| - 1;
      Put(PutAll(m, prefix, pairs[..n]), prefix + pairs[n].0, pairs[n].1)
  }

  lemma PutAllAppend(m: Map, prefix: Str, pairs: seq<Pair>, i: nat)
    requires i < |pairs|
    ensures PutAll(m, prefix, pairs[..i + 1]) == Put(PutAll(m, prefix, pairs[..i]), prefix + pairs[i].0, pairs[i].1)
  {
    assert pairs[..i + 1][..i] == pairs[..i];
  }

  lemma PutKeepsCaseDistinct(m: Map, key: Str, value: Str)
    requires CaseDistinct(m)
    ensures CaseDistinct(Put(m, key, value))
  {
    hide Lower;
  }

  // ---- Making a secret ----

  type Parameters = map<Str, Option<seq<Pair>>>

  /** What was given under one parameter; absent and NULL mean nothing. */
  function Given(parameters: Parameters, name: Str): seq<Pair>
  {
    if name in parameters && parameters[name].Some? then parameters[name].value else []
  }

  /** Service configuration is given under `config`, a section under its name and `_config`. */
  function ParameterOf(name: Str): Str
  {
    if name == CONFIG then CONFIG else name + [95] + CONFIG
  }

  /** The entries of one parameter put under its name. */
  ghost function PutParameter(m: Map, name: Str, parameters: Parameters): Map
  {
    PutAll(m, Dotted(name), Given(parameters, ParameterOf(name)))
  }

  /** The entries a secret is stored with. */
  ghost function SecretEntries(scheme: Str, parameters: Parameters): Map
  {
    var config := PutParameter(map[SCHEME := scheme], CONFIG, parameters);
    var io := PutParameter(config, IO, parameters);
    var retry := PutParameter(io, RETRY, parameters);
    var timeout := PutParameter(retry, TIMEOUT, parameters);
    PutParameter(timeout, CACHE, parameters)
  }

  class Secret {
    var entries: Map

    /** `CreateOpenDalSecret` */
    constructor (scheme: Str, parameters: Parameters)
      ensures CaseDistinct(entries) && entries == SecretEntries(scheme, parameters)
    {
      entries := map[SCHEME := scheme];
      new;
      CopyMap(parameters, ParameterOf(CONFIG), Dotted(CONFIG));
      CopyMap(parameters, ParameterOf(IO), Dotted(IO));
      CopyMap(parameters, ParameterOf(RETRY), Dotted(RETRY));
      CopyMap(parameters, ParameterOf(TIMEOUT), Dotted(TIMEOUT));
      CopyMap(parameters, ParameterOf(CACHE), Dotted(CACHE));
    }

    /** `operator[]` of the host's map, and an assignment. */
    method Assign(key: Str, value: Str)
      requires CaseDistinct(entries)
      modifies this
      ensures CaseDistinct(entries) && entries == Put(old(entries), key, value)
    {
      hide Lower;
      PutKeepsCaseDistinct(entries, key, value);
      if k :| k in entries && Lower(k) == Lower(key) {
        entries := entries[k := value];
      } else {
        entries := entries[key := value];
      }
    }

    method CopyMap(parameters: Parameters, name: Str, prefix: Str)
      requires CaseDistinct(entries)
      modifies this
      ensures CaseDistinct(entries) && entries == PutAll(old(entries), prefix, Given(parameters, name))
    {
      hide CaseDistinct, PutAll, Put;
      PutNothing(entries, prefix);
      if name !in parameters || parameters[name].None? {
        return;
      }
      var pairs := parameters[name].value;
      assert pairs[..0] == [] && pairs[..|pairs|] == pairs;
      for i := 0 to |pairs|
        invariant CaseDistinct(entries)
        invariant entries == PutAll(old(entries), prefix, pairs[..i])
      {
        PutAllAppend(old(entries), prefix, pairs, i);
        Assign(prefix + pairs[i].0, pairs[i].1);
      }
    }
  }

  lemma PutNothing(m: Map, prefix: Str)
    ensures PutAll(m, prefix, []) == m
  {
  }

  // ---- What a parameter keeps ----

  /** A parameter's own entries, as such a map keeps them. */
  ghost function Kept(pairs: seq<Pair>): Map
  {
    PutAll(map[], [], pairs)
  }

  /** No two of the different keys are the same up to case. */
  predicate NoCaseClash(pairs: seq<Pair>)
  {
    forall i, j :: 0 <= i < |pairs| && 0 <= j < |pairs| && Lower(pairs[i].0) == Lower(pairs[j].0) ==> pairs[i].0 == pairs[j].0
  }

  lemma {:induction false} KeptIsCaseDistinct(m: Map, prefix: Str, pairs: seq<Pair>)
    requires CaseDistinct(m)
    ensures CaseDistinct(PutAll(m, prefix, pairs))
  {
    hide CaseDistinct, Put;
    if pairs != [] {
      var n := |pairs| - 1;
      KeptIsCaseDistinct(m, prefix, pairs[..n]);
      PutKeepsCaseDistinct(PutAll(m, prefix, pairs[..n]), prefix + pairs[n].0, pairs[n].1);
    }
  }

  lemma KeptNext(pairs: seq<Pair>)
    requires pairs != []
    ensures var n := |pairs| - 1; Kept(pairs) == Put(Kept(pairs[..n]), pairs[n].0, pairs[n].1)
  {
    assert [] + pairs[|pairs| - 1].0 == pairs[|pairs| - 1].0;
  }

  /** `k` is how its key is spelled first. */
  ghost predicate FirstSpelled(pairs: seq<Pair>, k: Str)
  {
    exists i :: 0 <= i < |pairs| && pairs[i].0 == k && forall j :: 0 <= j < i ==> Lower(pairs[j].0) != Lower(k)
  }

  /** `value` is what `k` is given last, in any spelling. */
  ghost predicate LastGiven(pairs: seq<Pair>, k: Str, value: Str)
  {
    exists i :: 0 <= i < |pairs| && Lower(pairs[i].0) == Lower(k) && pairs[i].1 == value
                && forall j :: i < j < |pairs| ==> Lower(pairs[j].0) != Lower(k)
  }

  lemma {:induction false} KeptCovers(pairs: seq<Pair>, i: nat)
    requires i < |pairs|
    ensures exists k :: k in Kept(pairs) && Lower(k) == Lower(pairs[i].0)
  {
    hide Lower, Kept;
    var n := |pairs| - 1;
    KeptNext(pairs);
    if i == n {
      assert Spelling(Kept(pairs[..n]), pairs[n].0) in Kept(pairs);
    } else {
      KeptCovers(pairs[..n], i);
    }
  }

  /** Whether a key comes up before, in any spelling. */
  predicate Occurs(pairs: seq<Pair>, key: Str)
  {
    exists i :: 0 <= i < |pairs| && Lower(pairs[i].0) == Lower(key)
  }

  /** What is kept: the first spelling of every key, ... */
  lemma {:induction false} FirstSpellingIsKept(pairs: seq<Pair>, k: Str)
    ensures k in Kept(pairs) <==> FirstSpelled(pairs, k)
  {
    hide Lower, Kept, FirstSpelled, Occurs;
    if pairs == [] {
      NothingKept();
      NothingGiven(k);
    } else {
      var n := |pairs| - 1;
      var front, key := pairs[..n], pairs[n].0;
      FirstSpellingIsKept(front, k);
      FirstSpellingIsKept(front, key);
      KeptNext(pairs);
      FirstSpelledNext(pairs, k);
      SpellingKept(front, key);
    }
  }

  lemma SpellingKept(pairs: seq<Pair>, key: Str)
    ensures Occurs(pairs, key) ==> Spelling(Kept(pairs), key) in Kept(pairs)
    ensures !Occurs(pairs, key) ==> Spelling(Kept(pairs), key) == key
  {
    hide Lower, Kept;
    if Occurs(pairs, key) {
      var i :| 0 <= i < |pairs| && Lower(pairs[i].0) == Lower(key);
      KeptCovers(pairs, i);
    } else {
      var s := Spelling(Kept(pairs), key);
      if s in Kept(pairs) {
        KeptOccurs(pairs, s);
      }
    }
  }

  lemma {:induction false} KeptOccurs(pairs: seq<Pair>, k: Str)
    requires k in Kept(pairs)
    ensures Occurs(pairs, k)
  {
    hide Lower, Kept;
    if pairs == [] {
      NothingKept();
    } else {
      var n := |pairs| - 1;
      KeptNext(pairs);
      if k in Kept(pairs[..n]) {
        KeptOccurs(pairs[..n], k);
        var i :| 0 <= i < n && Lower(pairs[..n][i].0) == Lower(k);
        assert Lower(pairs[i].0) == Lower(k);
      } else {
        assert Lower(pairs[n].0) == Lower(k);
      }
    }
  }

  lemma NothingGiven(k: Str)
    ensures !FirstSpelled([], k)
  {
  }

  lemma FirstSpelledNext(pairs: seq<Pair>, k: Str)
    requires pairs != []
    ensures var n := |pairs| - 1;
            FirstSpelled(pairs, k) <==> FirstSpelled(pairs[..n], k) || (k == pairs[n].0 && !Occurs(pairs[..n], k))
  {
    hide Lower;
    var n := |pairs| - 1;
    var front := pairs[..n];
    assert forall i :: 0 <= i < n ==> front[i] == pairs[i];
    if FirstSpelled(front, k) {
      var i :| 0 <= i < n && front[i].0 == k && forall j :: 0 <= j < i ==> Lower(front[j].0) != Lower(k);
      assert pairs[i].0 == k;
    }
    if FirstSpelled(pairs, k) {
      var i :| 0 <= i < |pairs| && pairs[i].0 == k && forall j :: 0 <= j < i ==> Lower(pairs[j].0) != Lower(k);
      assert i < n ==> front[i].0 == k;
    }
  }

  /** ... with its last value. */
  lemma {:induction false} LastValueIsKept(pairs: seq<Pair>, k: Str)
    requires k in Kept(pairs)
    ensures LastGiven(pairs, k, Kept(pairs)[k])
  {
    hide Lower, Kept, LastGiven;
    if pairs == [] {
      NothingKept();
    } else {
      var n := |pairs| - 1;
      KeptNext(pairs);
      AllKeptDistinct(pairs);
      if Lower(k) != Lower(pairs[n].0) {
        LastValueIsKept(pairs[..n], k);
        GivenBefore(pairs, k, Kept(pairs)[k]);
      } else {
        assert Spelling(Kept(pairs[..n]), pairs[n].0) in Kept(pairs);
        GivenNow(pairs, k);
      }
    }
  }

  lemma GivenNow(pairs: seq<Pair>, k: Str)
    requires pairs != [] && Lower(k) == Lower(pairs[|pairs| - 1].0)
    ensures LastGiven(pairs, k, pairs[|pairs| - 1].1)
  {
    hide Lower;
    var i := |pairs| - 1;
    assert Lower(pairs[i].0) == Lower(k) && pairs[i].1 == pairs[|pairs| - 1].1;
  }

  lemma GivenBefore(pairs: seq<Pair>, k: Str, value: Str)
    requires pairs != [] && Lower(k) != Lower(pairs[|pairs| - 1].0) && LastGiven(pairs[..|pairs| - 1], k, value)
    ensures LastGiven(pairs, k, value)
  {
    hide Lower;
    var front := pairs[..|pairs| - 1];
    var i :| 0 <= i < |front| && Lower(front[i].0) == Lower(k) && front[i].1 == value
             && forall j :: i < j < |front| ==> Lower(front[j].0) != Lower(k);
    assert forall j :: 0 <= j < |front| ==> pairs[j] == front[j];
    assert Lower(pairs[i].0) == Lower(k) && pairs[i].1 == value;
  }

  /** A parameter is kept as it was given if and only if no two of its different keys are the same
      up to case. */
  lemma KeptExactly(pairs: seq<Pair>)
    ensures Kept(pairs) == FromPairs(pairs) <==> NoCaseClash(pairs)
  {
    hide Lower, Kept, FromPairs;
    if NoCaseClash(pairs) {
      KeptAsGiven(pairs);
    } else {
      var i, j :| 0 <= i < |pairs| && 0 <= j < |pairs| && Lower(pairs[i].0) == Lower(pairs[j].0) && pairs[i].0 != pairs[j].0;
      FromPairsKeys(pairs, pairs[i].0);
      FromPairsKeys(pairs, pairs[j].0);
      AllKeptDistinct(pairs);
    }
  }

  lemma AllKeptDistinct(pairs: seq<Pair>)
    ensures CaseDistinct(Kept(pairs))
  {
    KeptIsCaseDistinct(map[], [], pairs);
  }

  lemma {:induction false} KeptAsGiven(pairs: seq<Pair>)
    requires NoCaseClash(pairs)
    ensures Kept(pairs) == FromPairs(pairs)
  {
    hide Lower, Kept;
    if pairs == [] {
      NothingKept();
    } else {
      var n := |pairs| - 1;
      var front := pairs[..n];
      KeptAsGiven(front);
      KeptNext(pairs);
      var s := Spelling(Kept(front), pairs[n].0);
      FromPairsKeys(front, s);
    }
  }

  lemma NothingKept()
    ensures Kept([]) == map[]
  {
  }

  // ---- What comes out again ----

  /** No key only looks, without case, as if it stood under a name. */
  ghost predicate Canonical(m: Map)
  {
    forall k, name :: k in m && IsName(name) && Dotted(name) <= Lower(k) ==> Dotted(name) <= k
  }

  lemma LowerOfDotted(name: Str, key: Str)
    requires IsName(name)
    ensures Lower(Dotted(name) + key) == Dotted(name) + Lower(key)
  {
  }

  lemma LowerCut(s: Str, n: nat)
    requires n <= |s|
    ensures Lower(s[n..]) == Lower(s)[n..]
  {
  }

  /** Where an entry under a name goes: under that name, in the spelling it has there. */
  lemma SpellingUnder(m: Map, other: Str, key: Str) returns (t: Str)
    requires IsName(other) && CaseDistinct(m) && Canonical(m)
    ensures Spelling(m, Dotted(other) + key) == Dotted(other) + t
    ensures t == Spelling(Stripped(Dotted(other), m), key)
  {
    hide Lower, IsName, Stripped, Dotted;
    var under := Stripped(Dotted(other), m);
    var s := Spelling(m, Dotted(other) + key);
    LowerOfDotted(other, key);
    if s in m {
      t := s[|Dotted(other)|..];
      assert s == Dotted(other) + t;
      LowerOfDotted(other, t);
      SameTailLower(Dotted(other), Lower(t), Lower(key));
    } else {
      t := key;
    }
    InStripped(Dotted(other), m, t);
    var u := Spelling(under, key);
    InStripped(Dotted(other), m, u);
    LowerOfDotted(other, u);
  }

  lemma SameTailLower(front: Str, a: Str, b: Str)
    requires front + a == front + b
    ensures a == b
  {
    assert (front + a)[|front|..] == a && (front + b)[|front|..] == b;
  }

  lemma PutUnder(m: Map, name: Str, other: Str, key: Str, value: Str)
    requires IsName(name) && IsName(other) && CaseDistinct(m) && Canonical(m)
    ensures var next := Put(m, Dotted(other) + key, value);
            && CaseDistinct(next) && Canonical(next)
            && Stripped(Dotted(name), next) ==
                 (if name == other then Put(Stripped(Dotted(name), m), key, value) else Stripped(Dotted(name), m))
            && (forall k :: k in next ==> k in m || Dotted(other) <= k)
  {
    hide Lower, IsName, Stripped, CaseDistinct, Spelling, Canonical;
    PutKeepsCaseDistinct(m, Dotted(other) + key, value);
    var t := SpellingUnder(m, other, key);
    var s := Dotted(other) + t;
    StrippedInsert(Dotted(name), m, s, value);
    assert s[|Dotted(other)|..] == t;
    FirstDot(other, s);
    if Dotted(name) <= s {
      FirstDot(name, s);
    }
    CanonicalInsert(m, other, t, value);
  }

  lemma CanonicalInsert(m: Map, other: Str, t: Str, value: Str)
    requires IsName(other) && Canonical(m)
    ensures Canonical(m[Dotted(other) + t := value])
  {
    hide Lower, IsName, Dotted;
    var s := Dotted(other) + t;
    LowerOfDotted(other, t);
    forall name | IsName(name) && Dotted(name) <= Lower(s) ensures Dotted(name) <= s {
      FirstDot(name, Lower(s));
      FirstDot(other, Lower(s));
    }
  }

  lemma {:induction false} PutAllUnder(m: Map, name: Str, other: Str, pairs: seq<Pair>)
    requires IsName(name) && IsName(other) && CaseDistinct(m) && Canonical(m)
    ensures var next := PutAll(m, Dotted(other), pairs);
            && CaseDistinct(next) && Canonical(next)
            && Stripped(Dotted(name), next) ==
                 (if name == other then PutAll(Stripped(Dotted(name), m), [], pairs) else Stripped(Dotted(name), m))
            && (forall k :: k in next ==> k in m || Dotted(other) <= k)
  {
    hide IsName, Stripped, CaseDistinct, Canonical, Put, Dotted;
    if pairs != [] {
      var n := |pairs| - 1;
      PutAllUnder(m, name, other, pairs[..n]);
      PutUnder(PutAll(m, Dotted(other), pairs[..n]), name, other, pairs[n].0, pairs[n].1);
      assert [] + pairs[n].0 == pairs[n].0;
    }
  }

  /** One parameter more: what stands under its own name is what it keeps, and nothing changes
      under the other names. */
  lemma ParameterComesApart(m: Map, name: Str, other: Str, parameters: Parameters) returns (next: Map)
    requires IsName(name) && IsName(other) && CaseDistinct(m) && Canonical(m)
    ensures next == PutParameter(m, other, parameters) && CaseDistinct(next) && Canonical(next)
    ensures name != other ==> Stripped(Dotted(name), next) == Stripped(Dotted(name), m)
    ensures name == other && Stripped(Dotted(name), m) == map[] ==>
              Stripped(Dotted(name), next) == Kept(Given(parameters, ParameterOf(name)))
    ensures forall k :: k in next ==> k in m || Dotted(other) <= k
  {
    hide IsName, Stripped, CaseDistinct, Canonical, Dotted, PutAll;
    next := PutParameter(m, other, parameters);
    PutAllUnder(m, name, other, Given(parameters, ParameterOf(other)));
  }

  /** Each parameter of a secret comes out as it is kept, whatever dots its keys hold and whatever
      else was declared; that is as it went in if and only if no two of its different keys are the
      same up to case. */
  lemma CreatedSecretComesApart(scheme: Str, parameters: Parameters, name: Str)
    requires IsName(name)
    ensures var given := Given(parameters, ParameterOf(name));
            var out := Stripped(Dotted(name), SecretEntries(scheme, parameters));
            out == Kept(given) && (out == FromPairs(given) <==> NoCaseClash(given))
  {
    hide *;
    var entries := AllParameters(scheme, parameters, name);
    KeptExactly(Given(parameters, ParameterOf(name)));
  }

  /** The five parameters of `CREATE SECRET` and where they come out: `config`, and `io_config`,
      `retry_config`, `timeout_config` and `cache_config` under `io.`, `retry.`, `timeout.` and `cache.`. */
  lemma ParametersByName(scheme: Str, parameters: Parameters)
    ensures var entries := SecretEntries(scheme, parameters);
            && Stripped([99, 111, 110, 102, 105, 103, 46], entries) ==
                 Kept(Given(parameters, [99, 111, 110, 102, 105, 103]))
            && Stripped([105, 111, 46], entries) ==
                 Kept(Given(parameters, [105, 111, 95, 99, 111, 110, 102, 105, 103]))
            && Stripped([114, 101, 116, 114, 121, 46], entries) ==
                 Kept(Given(parameters, [114, 101, 116, 114, 121, 95, 99, 111, 110, 102, 105, 103]))
            && Stripped([116, 105, 109, 101, 111, 117, 116, 46], entries) ==
                 Kept(Given(parameters, [116, 105, 109, 101, 111, 117, 116, 95, 99, 111, 110, 102, 105, 103]))
            && Stripped([99, 97, 99, 104, 101, 46], entries) ==
                 Kept(Given(parameters, [99, 97, 99, 104, 101, 95, 99, 111, 110, 102, 105, 103]))
  {
    hide Stripped, SecretEntries, Kept, Given, IsName;
    Names(CONFIG);
    CreatedSecretComesApart(scheme, parameters, CONFIG);
    CreatedSecretComesApart(scheme, parameters, IO);
    CreatedSecretComesApart(scheme, parameters, RETRY);
    CreatedSecretComesApart(scheme, parameters, TIMEOUT);
    CreatedSecretComesApart(scheme, parameters, CACHE);
    SpelledNames();
  }

  lemma SpelledNames()
    ensures Dotted(CONFIG) == [99, 111, 110, 102, 105, 103, 46] && ParameterOf(CONFIG) == [99, 111, 110, 102, 105, 103]
    ensures Dotted(IO) == [105, 111, 46] && ParameterOf(IO) == [105, 111, 95, 99, 111, 110, 102, 105, 103]
    ensures Dotted(RETRY) == [114, 101, 116, 114, 121, 46]
    ensures ParameterOf(RETRY) == [114, 101, 116, 114, 121, 95, 99, 111, 110, 102, 105, 103]
    ensures Dotted(TIMEOUT) == [116, 105, 109, 101, 111, 117, 116, 46]
    ensures ParameterOf(TIMEOUT) == [116, 105, 109, 101, 111, 117, 116, 95, 99, 111, 110, 102, 105, 103]
    ensures Dotted(CACHE) == [99, 97, 99, 104, 101, 46]
    ensures ParameterOf(CACHE) == [99, 97, 99, 104, 101, 95, 99, 111, 110, 102, 105, 103]
  {
  }

  lemma AllParameters(scheme: Str, parameters: Parameters, name: Str) returns (entries: Map)
    requires IsName(name)
    ensures entries == SecretEntries(scheme, parameters)
    ensures Stripped(Dotted(name), entries) == Kept(Given(parameters, ParameterOf(name)))
    ensures forall k :: k in entries ==> k == SCHEME || exists n :: IsName(n) && Dotted(n) <= k
  {
    hide Stripped, CaseDistinct, Canonical, Dotted, PutParameter, Kept, Given, ParameterOf, IsName;
    Names(name);
    SchemeIsUnseen(name, scheme);
    OnlyTheScheme(scheme);
    entries := map[SCHEME := scheme];
    entries := ParameterComesApart(entries, name, CONFIG, parameters);
    entries := ParameterComesApart(entries, name, IO, parameters);
    entries := ParameterComesApart(entries, name, RETRY, parameters);
    entries := ParameterComesApart(entries, name, TIMEOUT, parameters);
    entries := ParameterComesApart(entries, name, CACHE, parameters);
  }

  lemma OnlyTheScheme(scheme: Str)
    ensures CaseDistinct(map[SCHEME := scheme]) && Canonical(map[SCHEME := scheme])
  {
    SchemeHasNoDot();
    assert DOT !in Lower(SCHEME);
    forall name ensures !(Dotted(name) <= Lower(SCHEME)) {
      DottedHasDot(name, Lower(SCHEME));
    }
  }

  lemma DottedHasDot(name: Str, s: Str)
    ensures Dotted(name) <= s ==> DOT in s
  {
    if Dotted(name) <= s {
      assert s[|name|] == Dotted(name)[|name|];
    }
  }

  /** A secret made by `CREATE SECRET` is never refused for an unknown section. */
  lemma CreatedSecretIsAccepted(scheme: Str, parameters: Parameters, k: Str)
    requires k in SecretEntries(scheme, parameters) && !ForConfig(k)
    ensures Sectioned(k)
  {
    hide Sectioned, Dotted, SecretEntries, Stripped, Kept;
    Names(CONFIG);
    var entries := AllParameters(scheme, parameters, CONFIG);
    var n :| IsName(n) && Dotted(n) <= k;
    if n != CONFIG {
      DottedIsSectioned(n, k);
    }
  }

  /** The five names are distinct, and there is no other. */
  lemma Names(name: Str)
    ensures IsName(CONFIG) && IsName(IO) && IsName(RETRY) && IsName(TIMEOUT) && IsName(CACHE)
    ensures IsName(name) ==> name == CONFIG || name == IO || name == RETRY || name == TIMEOUT || name == CACHE
    ensures |CONFIG| == 6 && |IO| == 2 && |RETRY| == 5 && |TIMEOUT| == 7 && |CACHE| == 5 && RETRY[0] != CACHE[0]
  {
  }

  lemma SchemeIsUnseen(name: Str, scheme: Str)
    ensures Stripped(Dotted(name), map[SCHEME := scheme]) == map[]
  {
    hide Stripped;
    SchemeHasNoDot();
    forall k ensures k !in Stripped(Dotted(name), map[SCHEME := scheme]) {
      InStripped(Dotted(name), map[SCHEME := scheme], k);
      assert (Dotted(name) + k)[|name|] == DOT;
    }
  }
}
