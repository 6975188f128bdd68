/** The options an operator is built from: the global settings, with the matched secret on top,
    flattened to dotted keys on the C++ side (src/opendal_secret.cpp, src/opendal_filesystem.cpp)
    and split into sections again on the Rust side (opendal/src/config/mod.rs). */
module Options {
  import opened Bytes
  import opened CacheKey

  type Map = map<Str, Str>

  const SCHEME: Str := [95, 95, 115, 99, 104, 101, 109, 101]    // __scheme
  const CONFIG: Str := [99, 111, 110, 102, 105, 103]            // config

  predicate IsSection(s: Str)
  {
    s == IO || s == RETRY || s == TIMEOUT || s == CACHE
  }

  predicate IsName(s: Str)
  {
    IsSection(s) || s == CONFIG
  }

  // ---- Maps under a prefix ----

  lemma {:induction false} FromPairsKeys(pairs: seq<Pair>, k: Str)
    ensures k in FromPairs(pairs) <==> exists i :: 0 <= i < |pairs| && pairs[i].0 == k
  {
    if pairs != [] {
      var n := |pairs| - 1;
      FromPairsKeys(pairs[..n], k);
    }
  }

  /** The entries of `m`, with `prefix` in front of every key. */
  function Prefixed(prefix: Str, m: Map): Map
  {
    var keys := set k | k in m :: prefix + k;
    map k | k in keys && k[|prefix|..] in m :: m[k[|prefix|..]]
  }

  lemma InPrefixed(prefix: Str, m: Map, k: Str)
    ensures k in Prefixed(prefix, m) <==> prefix <= k && k[|prefix|..] in m
    ensures k in Prefixed(prefix, m) ==> Prefixed(prefix, m)[k] == m[k[|prefix|..]]
  {
    if prefix <= k {
      assert prefix + k[|prefix|..] == k;
    }
  }

  lemma PrefixedInsert(prefix: Str, m: Map, key: Str, value: Str)
    ensures Prefixed(prefix, m[key := value]) == Prefixed(prefix, m)[prefix + key := value]
  {
    hide Prefixed;
    var inserted := Prefixed(prefix, m[key := value]);
    var expected := Prefixed(prefix, m)[prefix + key := value];
    forall k ensures k in inserted <==> k in expected
             ensures k in inserted && k in expected ==> inserted[k] == expected[k]
    {
      InPrefixed(prefix, m, k);
      InPrefixed(prefix, m[key := value], k);
      assert (prefix + key)[|prefix|..] == key;
      assert prefix <= k ==> prefix + k[|prefix|..] == k;
    }
  }

  /** The entries of `m` whose key starts with `prefix`, without it. */
  function Stripped(prefix: Str, m: Map): Map
  {
    var keys := set k | k in m && prefix <= k :: k[|prefix|..];
    map k | k in keys && prefix + k in m :: m[prefix + k]
  }

  lemma InStripped(prefix: Str, m: Map, k: Str)
    ensures k in Stripped(prefix, m) <==> prefix + k in m
    ensures k in Stripped(prefix, m) ==> Stripped(prefix, m)[k] == m[prefix + k]
  {
    if prefix + k in m {
      assert (prefix + k)[|prefix|..] == k;
    }
  }

  lemma StrippedInsert(prefix: Str, m: Map, key: Str, value: Str)
    ensures Stripped(prefix, m[key := value]) ==
            if prefix <= key then Stripped(prefix, m)[key[|prefix|..] := value] else Stripped(prefix, m)
  {
    hide Stripped;
    var inserted := Stripped(prefix, m[key := value]);
    var expected := if prefix <= key then Stripped(prefix, m)[key[|prefix|..] := value] else Stripped(prefix, m);
    forall k ensures k in inserted <==> k in expected
             ensures k in inserted && k in expected ==> inserted[k] == expected[k]
    {
      InStripped(prefix, m, k);
      InStripped(prefix, m[key := value], k);
      assert (prefix + k)[|prefix|..] == k;
      assert prefix <= key ==> prefix + key[|prefix|..] == key;
    }
  }

  lemma MergeInsert(a: Map, b: Map, key: Str, value: Str)
    ensures a + b[key := value] == (a + b)[key := value]
  {
  }

  lemma StrippedMerge(prefix: Str, a: Map, b: Map)
    ensures Stripped(prefix, a + b) == Stripped(prefix, a) + Stripped(prefix, b)
  {
    hide Stripped;
    forall k ensures k in Stripped(prefix, a + b) <==> k in Stripped(prefix, a) + Stripped(prefix, b)
             ensures k in Stripped(prefix, a + b) ==> Stripped(prefix, a + b)[k] == (Stripped(prefix, a) + Stripped(prefix, b))[k]
    {
      InStripped(prefix, a + b, k);
      InStripped(prefix, a, k);
      InStripped(prefix, b, k);
    }
  }

  /** Only the name before the first dot decides: what stands under one name is seen under that
      name, unchanged, and under no other. */
  lemma SeenUnderItsName(name: Str, other: Str, m: Map)
    requires IsName(name) && IsName(other)
    ensures Stripped(Dotted(name), Prefixed(Dotted(other), m)) == if name == other then m else map[]
  {
    hide IsName, Prefixed, Stripped;
    var seen := Stripped(Dotted(name), Prefixed(Dotted(other), m));
    forall k ensures k in seen <==> name == other && k in m
             ensures k in seen && k in m ==> seen[k] == m[k]
    {
      var key := Dotted(name) + k;
      InStripped(Dotted(name), Prefixed(Dotted(other), m), k);
      InPrefixed(Dotted(other), m, key);
      assert key[|Dotted(name)|..] == k;
      FirstDot(name, key);
      if Dotted(other) <= key {
        FirstDot(other, key);
      }
    }
  }

  lemma NamesHaveNoDot(name: Str)
    requires IsName(name)
    ensures DOT !in name
  {
  }

  lemma FirstDot(name: Str, key: Str)
    requires IsName(name) && Dotted(name) <= key
    ensures FirstIndex(key, DOT) == |name| && key[..|name|] == name
  {
    hide IsName;
    NamesHaveNoDot(name);
    assert forall i :: 0 <= i < |name| ==> key[i] == Dotted(name)[i] == name[i];
    assert key[|name|] == Dotted(name)[|name|];
    FirstIndexUnique(key, DOT, |name|);
  }

  /** The part of a map already visited. */
  ghost function Visited(m: Map, rest: set<Str>): Map
  {
    map k | k in m && k !in rest :: m[k]
  }

  lemma VisitedNext(m: Map, rest: set<Str>, key: Str)
    requires key in rest && rest <= m.Keys
    ensures Visited(m, rest - {key}) == Visited(m, rest)[key := m[key]]
    ensures key !in Visited(m, rest)
  {
  }

  lemma VisitedEnds(m: Map)
    ensures Visited(m, m.Keys) == map[]
    ensures Visited(m, {}) == m
  {
  }

  lemma PrefixedNothing(prefix: Str, pairs: seq<Pair>)
    ensures FromPairs(pairs[..0]) == map[]
    ensures Prefixed(prefix, map[]) == map[]
  {
  }

  // ---- The global settings ----

  type Globals = map<Str, Map>

  /** The settings of one section; a section never set is empty. */
  function Setting(globals: Globals, section: Str): Map
  {
    if section in globals then globals[section] else map[]
  }

  /** `SetGlobalConfig` is called for the four sections only. */
  ghost predicate ValidGlobals(globals: Globals)
  {
    forall s :: s in globals ==> IsSection(s)
  }

  /** `flat` holds every section's settings under its prefix, and nothing else. */
  ghost predicate Flattens(flat: Map, globals: Globals)
  {
    && (forall s :: IsSection(s) ==> Stripped(Dotted(s), flat) == Setting(globals, s))
    && (forall k :: k in flat ==> Sectioned(k))
  }

  method GlobalConfigSnapshot(globals: Globals) returns (flat: Map)
    requires ValidGlobals(globals)
    ensures Flattens(flat, globals)
  {
    hide Prefixed, Stripped, Sectioned, Flattens, IsSection, Sorted, IsLeast;
    flat := map[];
    var sections := globals.Keys;
    ghost var done: Globals := map[];
    FlattensNothing();
    while sections != {}
      invariant sections <= globals.Keys
      invariant done.Keys == globals.Keys - sections
      invariant forall s :: s in done ==> done[s] == globals[s]
      invariant Flattens(flat, done)
    {
      var section := TakeLeast(sections);
      ghost var before := flat;
      flat := AddSection(flat, section, globals[section]);
      FlattensNext(before, done, section, globals[section]);
      sections := sections - {section};
      done := done[section := globals[section]];
    }
    assert done == globals;
  }

  method AddSection(flat: Map, section: Str, values: Map) returns (newFlat: Map)
    ensures newFlat == flat + Prefixed(Dotted(section), values)
  {
    hide Prefixed, Sorted, IsLeast, Visited;
    newFlat := flat;
    var keys := values.Keys;
    PrefixedNothing(Dotted(section), []);
    VisitedEnds(values);
    while keys != {}
      invariant keys <= values.Keys
      invariant newFlat == flat + Prefixed(Dotted(section), Visited(values, keys))
    {
      var key := TakeLeast(keys);
      VisitedNext(values, keys, key);
      PrefixedInsert(Dotted(section), Visited(values, keys), key, values[key]);
      newFlat := newFlat[Dotted(section) + key := values[key]];
      keys := keys - {key};
    }
  }

  lemma FlattensNothing()
    ensures Flattens(map[], map[])
  {
  }

  lemma FlattensNext(flat: Map, globals: Globals, section: Str, values: Map)
    requires Flattens(flat, globals) && IsSection(section) && section !in globals
    ensures Flattens(flat + Prefixed(Dotted(section), values), globals[section := values])
  {
    hide Prefixed, Stripped, Sectioned, IsSection;
    var added := Prefixed(Dotted(section), values);
    forall s | IsSection(s)
      ensures Stripped(Dotted(s), flat + added) == Setting(globals[section := values], s)
    {
      StrippedMerge(Dotted(s), flat, added);
      SectionIsName(s);
      SectionIsName(section);
      SeenUnderItsName(s, section, values);
    }
    forall k | k in added ensures Sectioned(k) {
      InPrefixed(Dotted(section), values, k);
      DottedIsSectioned(section, k);
    }
  }

  lemma SectionIsName(s: Str)
    requires IsSection(s)
    ensures IsName(s)
  {
  }

  lemma DottedIsSectioned(section: Str, key: Str)
    requires IsSection(section) && Dotted(section) <= key
    ensures Sectioned(key)
  {
    hide Dotted;
  }

  lemma SectionOf(key: Str) returns (section: Str)
    requires Sectioned(key)
    ensures IsSection(section) && Dotted(section) <= key
  {
    hide Dotted;
    section := if Dotted(IO) <= key then IO
               else if Dotted(RETRY) <= key then RETRY
               else if Dotted(TIMEOUT) <= key then TIMEOUT
               else CACHE;
  }

  // ---- The merge ----

  /** `ApplySecret`: service configuration is set apart, everything else goes over the options. */
  method ApplySecret(secret: Map, config: Map, options: Map) returns (newConfig: Map, newOptions: Map)
    ensures newConfig == config + Stripped(Dotted(CONFIG), secret)
    ensures newOptions == options + OptionsOf(secret)
  {
    hide Stripped, Sorted, IsLeast, Visited, OptionsOf, ForConfig, Dotted;
    newConfig, newOptions := config, options;
    var keys := secret.Keys;
    VisitedEnds(secret);
    NoOptions();
    StrippedNothing(Dotted(CONFIG));
    while keys != {}
      invariant keys <= secret.Keys
      invariant newConfig == config + Stripped(Dotted(CONFIG), Visited(secret, keys))
      invariant newOptions == options + OptionsOf(Visited(secret, keys))
    {
      var key := TakeLeast(keys);
      var value := secret[key];
      ghost var done := Visited(secret, keys);
      VisitedNext(secret, keys, key);
      keys := keys - {key};
      EntryApplied(config, options, done, key, value);
      if key == SCHEME {
        continue;
      }
      if Dotted(CONFIG) <= key {
        newConfig := newConfig[key[7..] := value];
      } else {
        newOptions := newOptions[key := value];
      }
    }
  }

  lemma EntryApplied(config: Map, options: Map, done: Map, key: Str, value: Str)
    requires key !in done
    ensures |Dotted(CONFIG)| == 7
    ensures config + Stripped(Dotted(CONFIG), done[key := value]) ==
            if key != SCHEME && Dotted(CONFIG) <= key then (config + Stripped(Dotted(CONFIG), done))[key[7..] := value]
            else config + Stripped(Dotted(CONFIG), done)
    ensures options + OptionsOf(done[key := value]) ==
            if key != SCHEME && !(Dotted(CONFIG) <= key) then (options + OptionsOf(done))[key := value]
            else options + OptionsOf(done)
  {
    hide Stripped, OptionsOf, ForConfig, Dotted;
    ForConfigIs(key);
    StrippedInsert(Dotted(CONFIG), done, key, value);
    OptionsOfInsert(done, key, value);
    MergeInsert(options, OptionsOf(done), key, value);
  }

  lemma StrippedNothing(prefix: Str)
    ensures Stripped(prefix, map[]) == map[]
  {
  }

  lemma NoOptions()
    ensures OptionsOf(map[]) == map[]
  {
  }

  lemma ForConfigIs(key: Str)
    ensures ForConfig(key) <==> key == SCHEME || Dotted(CONFIG) <= key
    ensures !(Dotted(CONFIG) <= SCHEME) && |Dotted(CONFIG)| == 7
  {
    assert SCHEME[0] != Dotted(CONFIG)[0];
  }

  lemma OptionsOfInsert(m: Map, key: Str, value: Str)
    requires key !in m
    ensures OptionsOf(m[key := value]) == if ForConfig(key) then OptionsOf(m) else OptionsOf(m)[key := value]
  {
    hide ForConfig;
  }

  /** Keys that are not handed on as options. */
  predicate ForConfig(key: Str)
  {
    key == SCHEME || Dotted(CONFIG) <= key
  }

  function OptionsOf(secret: Map): Map
  {
    map k | k in secret && !ForConfig(k) :: secret[k]
  }

  /** The spelling of the prefixes: `io.`, `retry.`, `timeout.`, `cache.`, and `config.` and
      `__scheme` for what is no option. */
  lemma PrefixesMean(key: Str)
    ensures Sectioned(key) <==>
            || [105, 111, 46] <= key || [114, 101, 116, 114, 121, 46] <= key
            || [116, 105, 109, 101, 111, 117, 116, 46] <= key || [99, 97, 99, 104, 101, 46] <= key
    ensures ForConfig(key) <==>
            key == [95, 95, 115, 99, 104, 101, 109, 101] || [99, 111, 110, 102, 105, 103, 46] <= key
  {
    assert Dotted(IO) == [105, 111, 46] && Dotted(RETRY) == [114, 101, 116, 114, 121, 46];
    assert Dotted(TIMEOUT) == [116, 105, 109, 101, 111, 117, 116, 46] && Dotted(CACHE) == [99, 97, 99, 104, 101, 46];
    assert Dotted(CONFIG) == [99, 111, 110, 102, 105, 103, 46];
  }

  // ---- The split ----

  datatype Parsed = Sections(io: Map, retry: Map, timeout: Map, cache: Map) | UnknownOption(key: Str)

  function SectionsOf(m: Map): Parsed
  {
    Sections(Stripped(Dotted(IO), m), Stripped(Dotted(RETRY), m), Stripped(Dotted(TIMEOUT), m), Stripped(Dotted(CACHE), m))
  }

  /** `OperatorConfig::parse`, up to the parsers of the four sections: only the first dot of a
      key separates, so a key may hold further dots. */
  method Parse(values: seq<Pair>) returns (r: Parsed)
    ensures r.Sections? <==> forall i :: 0 <= i < |values| ==> Sectioned(values[i].0)
    ensures r.Sections? ==> r == SectionsOf(FromPairs(values))
    ensures r.UnknownOption? ==> exists i :: 0 <= i < |values| && !Sectioned(values[i].0) && r.key == values[i].0 &&
                                    forall j :: 0 <= j < i ==> Sectioned(values[j].0)
  {
    hide Sectioned, Stripped, FromPairs;
    var sections: map<Str, Map> := map[];
    NothingSplit(values);
    for i := 0 to |values|
      invariant forall j :: 0 <= j < i ==> Sectioned(values[j].0)
      invariant forall s :: IsSection(s) ==> Setting(sections, s) == Stripped(Dotted(s), FromPairs(values[..i]))
    {
      var key, value := values[i].0, values[i].1;
      var dot := FirstIndex(key, DOT);
      var section := key[..dot];
      SectionOfKey(key);
      if dot == |key| || !IsSection(section) {
        return UnknownOption(key);
      }
      SplitNext(sections, FromPairs(values[..i]), key, value);
      FromPairsAppend(values, i);
      sections := sections[section := Setting(sections, section)[key[dot + 1..] := value]];
    }
    assert values[..|values|] == values;
    r := Sections(Setting(sections, IO), Setting(sections, RETRY), Setting(sections, TIMEOUT), Setting(sections, CACHE));
  }

  lemma NothingSplit(values: seq<Pair>)
    ensures forall s :: Setting(map[], s) == Stripped(Dotted(s), FromPairs(values[..0]))
  {
    forall s ensures Stripped(Dotted(s), FromPairs(values[..0])) == map[] {
      StrippedNothing(Dotted(s));
    }
  }

  lemma SectionOfKey(key: Str)
    ensures var dot := FirstIndex(key, DOT);
            Sectioned(key) <==> dot < |key| && IsSection(key[..dot])
  {
    hide Sectioned, IsSection, IsName, FirstIndex;
    var dot := FirstIndex(key, DOT);
    if dot < |key| && IsSection(key[..dot]) {
      assert Dotted(key[..dot]) == key[..dot + 1];
      DottedIsSectioned(key[..dot], key);
    }
    if Sectioned(key) {
      var s := SectionOf(key);
      SectionIsName(s);
      FirstDot(s, key);
      assert |Dotted(s)| == |s| + 1;
    }
  }

  lemma SplitNext(sections: map<Str, Map>, m: Map, key: Str, value: Str)
    requires forall s :: IsSection(s) ==> Setting(sections, s) == Stripped(Dotted(s), m)
    requires Sectioned(key)
    ensures var dot := FirstIndex(key, DOT);
            dot < |key| &&
            var section := key[..dot];
            var next := sections[section := Setting(sections, section)[key[dot + 1..] := value]];
            forall s :: IsSection(s) ==> Setting(next, s) == Stripped(Dotted(s), m[key := value])
  {
    hide Sectioned, Stripped, IsSection, IsName, FirstIndex;
    SectionOfKey(key);
    var dot := FirstIndex(key, DOT);
    var section := key[..dot];
    assert Dotted(section) == key[..dot + 1];
    var next := sections[section := Setting(sections, section)[key[dot + 1..] := value]];
    forall s | IsSection(s) ensures Setting(next, s) == Stripped(Dotted(s), m[key := value]) {
      StrippedInsert(Dotted(s), m, key, value);
      UnderItsFirstDot(s, key);
    }
  }

  lemma CutAtFirstDot(key: Str)
    ensures var dot := FirstIndex(key, DOT);
            dot < |key| ==> Dotted(key[..dot]) <= key
  {
    hide FirstIndex;
    var dot := FirstIndex(key, DOT);
    assert dot < |key| ==> Dotted(key[..dot]) == key[..dot + 1];
  }

  lemma DottedLength(s: Str)
    ensures |Dotted(s)| == |s| + 1
  {
  }

  lemma UnderItsFirstDot(s: Str, key: Str)
    requires IsSection(s)
    ensures var dot := FirstIndex(key, DOT);
            Dotted(s) <= key <==> dot < |key| && key[..dot] == s
  {
    hide IsSection, IsName, FirstIndex, Dotted;
    CutAtFirstDot(key);
    SectionIsName(s);
    if Dotted(s) <= key {
      DottedLength(s);
      FirstDot(s, key);
    }
  }

  /** The entries of a map handed over in iteration order. */
  method Listed(m: Map) returns (values: seq<Pair>)
    ensures FromPairs(values) == m
    ensures values == Pairs(m)
  {
    hide Sorted, IsLeast, FromPairs, Visited, Pairs, PairsOver;
    values := [];
    var keys := m.Keys;
    VisitedEnds(m);
    PairsOverEnds(m);
    while keys != {}
      invariant keys <= m.Keys
      invariant FromPairs(values) == Visited(m, keys)
      invariant values + PairsOver(m, keys) == Pairs(m)
    {
      var key := TakeLeast(keys);
      VisitedNext(m, keys, key);
      PairsOverNext(m, keys, key);
      FromPairsLonger(values, key, m[key]);
      values := values + [(key, m[key])];
      keys := keys - {key};
    }
  }

  ghost function PairsOver(m: Map, keys: set<Str>): seq<Pair>
    requires keys <= m.Keys
  {
    PairsAlong(Sorted(keys), m)
  }

  lemma PairsOverEnds(m: Map)
    ensures FromPairs([]) == map[]
    ensures PairsOver(m, m.Keys) == Pairs(m)
    ensures PairsOver(m, {}) == []
  {
  }

  lemma PairsOverNext(m: Map, keys: set<Str>, key: Str)
    requires key in keys && keys <= m.Keys && Sorted(keys) == [key] + Sorted(keys - {key})
    ensures PairsOver(m, keys) == [(key, m[key])] + PairsOver(m, keys - {key})
  {
    hide Sorted, PairsAlong, Ascending;
    PairsAlongNext(Sorted(keys), m);
    assert Sorted(keys)[1..] == Sorted(keys - {key});
  }

  lemma PairsAlongNext(keys: seq<Str>, m: Map)
    requires keys != [] && forall k :: k in keys ==> k in m
    ensures PairsAlong(keys, m) == [(keys[0], m[keys[0]])] + PairsAlong(keys[1..], m)
  {
  }

  lemma FromPairsLonger(pairs: seq<Pair>, key: Str, value: Str)
    ensures FromPairs(pairs + [(key, value)]) == FromPairs(pairs)[key := value]
  {
    assert (pairs + [(key, value)])[..|pairs|] == pairs;
  }

  // ---- End to end ----

  /** What a section of the operator's options is meant to hold: the secret's entry where it has
      one, else the global setting, else nothing. */
  function Effective(globals: Globals, secret: Map, section: Str): Map
  {
    Setting(globals, section) + Stripped(Dotted(section), secret)
  }

  /** What reaches the service and the layers. The service configuration is the secret's alone,
      every section is as meant, and the options are refused exactly when the secret holds an
      entry that belongs neither to the service nor to a section. */
  method EffectiveOptions(globals: Globals, secret: Option<Map>) returns (config: Map, parsed: Parsed)
    requires ValidGlobals(globals)
    ensures var entries := if secret.Some? then secret.value else map[];
            && config == Stripped(Dotted(CONFIG), entries)
            && (parsed.Sections? <==> forall k :: k in entries && !ForConfig(k) ==> Sectioned(k))
            && (parsed.Sections? ==> parsed == Sections(Effective(globals, entries, IO), Effective(globals, entries, RETRY),
                                                        Effective(globals, entries, TIMEOUT), Effective(globals, entries, CACHE)))
  {
    hide Sectioned, Stripped, FromPairs, Pairs, Flattens, ForConfig;
    var flat := GlobalConfigSnapshot(globals);
    config := map[];
    var options := flat;
    ghost var entries: Map := map[];
    StrippedNothing(Dotted(CONFIG));
    if secret.Some? {
      config, options := ApplySecret(secret.value, config, options);
      entries := secret.value;
    }
    assert options == flat + OptionsOf(entries);
    var values := Listed(options);
    parsed := Parse(values);
    MergedSections(globals, flat, entries);
    MergedAccepted(globals, flat, entries, values);
  }

  /** The effective value of a key, section by section. */
  lemma EffectiveMeans(globals: Globals, secret: Map, section: Str, key: Str)
    ensures var effective := Effective(globals, secret, section);
            var name := section + [DOT] + key;
            && (name in secret ==> key in effective && effective[key] == secret[name])
            && (name !in secret && section in globals && key in globals[section] ==>
                  key in effective && effective[key] == globals[section][key])
            && (name !in secret && !(section in globals && key in globals[section]) ==> key !in effective)
  {
    hide Stripped;
    InStripped(Dotted(section), secret, key);
  }

  lemma MergedSections(globals: Globals, flat: Map, entries: Map)
    requires Flattens(flat, globals)
    ensures SectionsOf(flat + OptionsOf(entries)) ==
            Sections(Effective(globals, entries, IO), Effective(globals, entries, RETRY),
                     Effective(globals, entries, TIMEOUT), Effective(globals, entries, CACHE))
  {
    hide Stripped, Sectioned, OptionsOf;
    forall s | IsSection(s) ensures Stripped(Dotted(s), flat + OptionsOf(entries)) == Effective(globals, entries, s) {
      StrippedMerge(Dotted(s), flat, OptionsOf(entries));
      SectionsAreOptions(s, entries);
    }
  }

  lemma SectionsAreOptions(s: Str, entries: Map)
    requires IsSection(s)
    ensures Stripped(Dotted(s), OptionsOf(entries)) == Stripped(Dotted(s), entries)
  {
    hide Stripped;
    forall k ensures k in Stripped(Dotted(s), OptionsOf(entries)) <==> k in Stripped(Dotted(s), entries)
             ensures k in Stripped(Dotted(s), OptionsOf(entries)) ==>
                       Stripped(Dotted(s), OptionsOf(entries))[k] == Stripped(Dotted(s), entries)[k]
    {
      InStripped(Dotted(s), OptionsOf(entries), k);
      InStripped(Dotted(s), entries, k);
      NotForConfig(s, Dotted(s) + k);
    }
  }

  lemma NotForConfig(s: Str, key: Str)
    requires IsSection(s) && Dotted(s) <= key
    ensures !ForConfig(key)
  {
    hide FirstIndex;
    SectionIsName(s);
    FirstDot(s, key);
    SchemeHasNoDot();
    FirstIndexAbsent(SCHEME, DOT);
    if Dotted(CONFIG) <= key {
      FirstDot(CONFIG, key);
    }
  }

  lemma SchemeHasNoDot()
    ensures DOT !in SCHEME
  {
  }

  lemma MergedAccepted(globals: Globals, flat: Map, entries: Map, values: seq<Pair>)
    requires Flattens(flat, globals)
    requires FromPairs(values) == flat + OptionsOf(entries)
    ensures (forall i :: 0 <= i < |values| ==> Sectioned(values[i].0))
       <==> (forall k :: k in entries && !ForConfig(k) ==> Sectioned(k))
  {
    hide Sectioned, ForConfig, FromPairs, Stripped;
    forall k ensures k in flat || k in OptionsOf(entries) <==> exists i :: 0 <= i < |values| && values[i].0 == k {
      FromPairsKeys(values, k);
    }
    assert forall i :: 0 <= i < |values| ==> values[i].0 in flat || values[i].0 in OptionsOf(entries);
    assert forall k :: k in OptionsOf(entries) <==> k in entries && !ForConfig(k);
  }
}
