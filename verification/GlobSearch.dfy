/** Searching a store for a pattern. Three places prune the search before they match:
    `OpenDalFileSystem::Glob` (src/opendal_filesystem.cpp) lists one static directory, and only
    one level of it when it can; `glob_root` and the table cursor (opendal/src/table.rs) always
    list recursively. None of them loses a match. */
module GlobSearch {
  import opened Bytes
  import opened Spaces
  import opened Store
  import opened Glob
  import opened Url

  // ---- Cutting the pattern ----

  function FirstWildcard(s: Str): (i: nat)
    ensures i <= |s|
    ensures forall k :: 0 <= k < i ==> !Wildcard(s[k])
    ensures i < |s| ==> Wildcard(s[i])
  {
    if s == [] || Wildcard(s[0]) then 0 else 1 + FirstWildcard(s[1..])
  }

  predicate HasWildcard(s: Str)
  {
    FirstWildcard(s) < |s|
  }

  /** Index of the last slash before the first wildcard, -1 when there is none. */
  function StaticSlash(pattern: Str): (i: int)
    ensures -1 <= i < |pattern|
    ensures i >= 0 ==> pattern[i] == SLASH
    ensures forall k :: 0 <= k <= i ==> !Wildcard(pattern[k])
    ensures forall k :: i < k < FirstWildcard(pattern) ==> pattern[k] != SLASH
  {
    LastIndex(pattern[..FirstWildcard(pattern)], SLASH)
  }

  /** `glob_root`: the static directory, with its slash. */
  function GlobRoot(pattern: Str): Str
  {
    pattern[..StaticSlash(pattern) + 1]
  }

  /** The part of the pattern behind the static directory. */
  function Remaining(pattern: Str): Str
  {
    pattern[StaticSlash(pattern) + 1..]
  }

  predicate HasDoubleStar(s: Str)
  {
    exists i :: 0 <= i < |s| && IsDoubleStar(s[i..])
  }

  // ---- Why pruning loses nothing ----

  /** A prefix without wildcards matches itself and nothing else. */
  lemma {:induction false} LiteralPrefix(prefix: Str, rest: Str, value: Str)
    requires forall k :: 0 <= k < |prefix| ==> !Wildcard(prefix[k])
    ensures Matches(prefix + rest, value) <==> prefix <= value && Matches(rest, value[|prefix|..])
  {
    hide Matches;
    if prefix == [] {
      assert prefix + rest == rest && value[0..] == value;
    } else {
      var pattern := prefix + rest;
      LiteralCase(pattern, value);
      assert pattern[1..] == prefix[1..] + rest;
      if value != [] && value[0] == prefix[0] {
        LiteralPrefix(prefix[1..], rest, value[1..]);
        assert prefix == [prefix[0]] + prefix[1..] && value == [value[0]] + value[1..];
        assert prefix <= value <==> prefix[1..] <= value[1..];
        if prefix <= value {
          assert value[1..][|prefix[1..]|..] == value[|prefix|..];
        }
      } else {
        assert !(prefix <= value);
      }
    }
  }

  /** Without a slash and without a double star a pattern stays inside one segment. */
  lemma {:induction false} StaysInSegment(pattern: Str, value: Str)
    requires SLASH !in pattern && !HasDoubleStar(pattern)
    requires Matches(pattern, value)
    ensures SLASH !in value
    decreases |pattern| + |value|
  {
    hide Matches;
    if pattern == [] {
      EmptyPattern(value);
    } else {
      assert pattern[0..] == pattern;
      DoubleStarInTail(pattern, 1);
      if pattern[0] == STAR {
        StarCase(pattern, value);
        if Matches(pattern[1..], value) {
          StaysInSegment(pattern[1..], value);
        } else {
          StaysInSegment(pattern, value[1..]);
        }
      } else if pattern[0] == QUESTION {
        QuestionCase(pattern, value);
        StaysInSegment(pattern[1..], value[1..]);
      } else if pattern[0] == LBRACKET {
        ClassCase(pattern, value);
        var end := FirstIndex(pattern, RBRACKET);
        DoubleStarInTail(pattern, end + 1);
        StaysInSegment(pattern[end + 1..], value[1..]);
      } else {
        LiteralCase(pattern, value);
        StaysInSegment(pattern[1..], value[1..]);
      }
    }
  }

  lemma EmptyPattern(value: Str)
    requires Matches([], value)
    ensures value == []
  {
    EmptyLanguage(value);
  }

  lemma DoubleStarInTail(s: Str, n: nat)
    requires n <= |s| && !HasDoubleStar(s)
    ensures !HasDoubleStar(s[n..])
  {
    forall i | 0 <= i < |s[n..]| ensures !IsDoubleStar(s[n..][i..]) {
      assert s[n..][i..] == s[n + i..];
    }
  }

  /** The part behind the static directory never starts with a slash if there is a wildcard. */
  lemma TrimmedPattern(pattern: Str)
    requires Remaining(pattern) == [] || Remaining(pattern)[0] != SLASH
    ensures TrimStart(pattern) == TrimStart(GlobRoot(pattern)) + Remaining(pattern)
  {
    assert pattern == GlobRoot(pattern) + Remaining(pattern);
    TrimStartOfConcat(GlobRoot(pattern), Remaining(pattern));
  }

  lemma RemainingHasNoLeadingSlash(pattern: Str)
    ensures Remaining(pattern) == [] || Remaining(pattern)[0] != SLASH
  {
    hide FirstWildcard, StaticSlash;
    var w, i := FirstWildcard(pattern), StaticSlash(pattern);
    if Remaining(pattern) != [] {
      assert Remaining(pattern)[0] == pattern[i + 1];
      assert i + 1 < w || i + 1 == w;
    }
  }

  /** Matching the whole pattern is lying under its static directory and matching the rest. */
  lemma MatchIsUnderRoot(pattern: Str, path: Str)
    ensures var key := TrimStart(GlobRoot(pattern));
            Matches(TrimStart(pattern), path) <==> key <= path && Matches(Remaining(pattern), path[|key|..])
  {
    RemainingHasNoLeadingSlash(pattern);
    TrimmedPattern(pattern);
    LiteralPrefix(TrimStart(GlobRoot(pattern)), Remaining(pattern), path);
  }

  // ---- The C++ search ----

  /** The directory `Glob` lists: the static directory with one slash at its end. */
  function ListDir(pattern: Str): Str
  {
    var i := StaticSlash(pattern);
    var staticDir := if i < 0 then [] else pattern[..i];
    if staticDir == [] || staticDir[|staticDir| - 1] != SLASH then staticDir + [SLASH] else staticDir
  }

  predicate NeedsRecursion(pattern: Str)
  {
    SLASH in Remaining(pattern) || HasDoubleStar(Remaining(pattern))
  }

  /** Every file the pattern matches is among the files listed for it. */
  lemma PruningIsComplete(pattern: Str, path: Str)
    requires Normal(path) && Matches(TrimStart(pattern), path)
    ensures Under(ListDir(pattern), NeedsRecursion(pattern), path)
    ensures Under(GlobRoot(pattern), true, path)
  {
    hide Matches, Key, StaticSlash, Normal, TrimStart, GlobRoot, ListDir, Remaining;
    MatchIsUnderRoot(pattern, path);
    KeyOfListDir(pattern);
    RootIsDirectory(pattern);
    KeyOfRooted(GlobRoot(pattern), path);
    if !NeedsRecursion(pattern) {
      StaysInSegment(Remaining(pattern), path[|TrimStart(GlobRoot(pattern))|..]);
    }
  }

  lemma RootIsDirectory(pattern: Str)
    ensures GlobRoot(pattern) == [] || EndsInSlash(GlobRoot(pattern))
  {
    hide StaticSlash;
  }

  /** The two spellings of the static directory stand for the same prefix. */
  lemma KeyOfListDir(pattern: Str)
    ensures Key(ListDir(pattern)) == Key(GlobRoot(pattern))
  {
    hide StaticSlash, Key;
    var i := StaticSlash(pattern);
    if i < 0 {
      KeyOfDoubledSlash([]);
    } else {
      assert GlobRoot(pattern) == pattern[..i] + [SLASH];
      if i == 0 || pattern[i - 1] == SLASH {
        KeyOfDoubledSlash(pattern[..i]);
      }
    }
  }

  /** The static directory is what stands in front of the last slash before the first wildcard. */
  lemma StaticSlashIs(dir: Str, rest: Str)
    requires forall b :: b in dir ==> b != STAR && b != QUESTION && b != LBRACKET
    requires forall k :: 0 <= k < FirstWildcard(rest) ==> rest[k] != SLASH
    ensures var pattern := dir + [SLASH] + rest;
            StaticSlash(pattern) == |dir| && GlobRoot(pattern) == dir + [SLASH] && Remaining(pattern) == rest
  {
    hide FirstWildcard, StaticSlash;
    var pattern := dir + [SLASH] + rest;
    var w := |dir| + 1 + FirstWildcard(rest);
    forall k | 0 <= k < |pattern| ensures k < |dir| ==> pattern[k] in dir && !Wildcard(pattern[k])
                                  ensures k > |dir| ==> pattern[k] == rest[k - |dir| - 1]
    {
      assert k < |dir| ==> pattern[k] == dir[k];
    }
    assert pattern[|dir|] == SLASH;
    assert forall k :: 0 <= k < w ==> !Wildcard(pattern[k]);
    assert w < |pattern| ==> Wildcard(pattern[w]);
    assert FirstWildcard(pattern) == w;
    assert StaticSlash(pattern) == |dir|;
    assert pattern[|dir| + 1..] == rest && pattern[..|dir| + 1] == dir + [SLASH];
  }

  /** One level is listed exactly if behind the static directory there is neither a slash nor a
      double star. */
  lemma ListsOneLevel(dir: Str, rest: Str)
    requires forall b :: b in dir ==> b != STAR && b != QUESTION && b != LBRACKET
    requires forall k :: 0 <= k < FirstWildcard(rest) ==> rest[k] != SLASH
    ensures !EndsInSlash(dir) ==> ListDir(dir + [SLASH] + rest) == dir + [SLASH]
    ensures NeedsRecursion(dir + [SLASH] + rest) <==>
            SLASH in rest || exists i :: 1 <= i < |rest| && rest[i - 1] == STAR && rest[i] == STAR
  {
    hide FirstWildcard, StaticSlash;
    var pattern := dir + [SLASH] + rest;
    StaticSlashIs(dir, rest);
    assert pattern[..|dir|] == dir;
    if i :| 0 <= i < |rest| && IsDoubleStar(rest[i..]) {
      assert rest[i + 1] == rest[i..][1] && rest[i] == rest[i..][0];
    }
    if i :| 1 <= i < |rest| && rest[i - 1] == STAR && rest[i] == STAR {
      assert rest[i - 1..][0] == STAR && rest[i - 1..][1] == STAR;
    }
  }

  // ---- std::sort and std::unique on the result vector ----

  ghost predicate NonDecreasing(s: seq<Str>)
  {
    forall i, j :: 0 <= i < j < |s| ==> !Less(s[j], s[i])
  }

  function Insert(x: Str, s: seq<Str>): seq<Str>
  {
    if s == [] || !Less(s[0], x) then [x] + s else [s[0]] + Insert(x, s[1..])
  }

  function Sort(s: seq<Str>): seq<Str>
  {
    if s == [] then [] else Insert(s[0], Sort(s[1..]))
  }

  /** Keeps the first of every run of equal neighbours. */
  function Unique(s: seq<Str>): seq<Str>
  {
    if |s| < 2 then s
    else if s[0] == s[1] then Unique(s[1..])
    else [s[0]] + Unique(s[1..])
  }

  lemma {:induction false} InsertSorted(x: Str, s: seq<Str>)
    requires NonDecreasing(s)
    ensures NonDecreasing(Insert(x, s))
    ensures forall y :: y in Insert(x, s) <==> y == x || y in s
  {
    if s != [] && Less(s[0], x) {
      var rest := Insert(x, s[1..]);
      InsertSorted(x, s[1..]);
      forall j | 0 <= j < |rest| ensures !Less(rest[j], s[0]) {
        assert rest[j] in rest;
        NotBefore(s, x, rest[j]);
      }
    } else if s != [] {
      forall j | 0 <= j < |s| ensures !Less(s[j], x) {
        if Less(s[j], x) {
          LessTotal(s[0], x);
          if s[0] != x {
            LessTransitive(s[j], x, s[0]);
          }
        }
      }
    }
  }

  lemma NotBefore(s: seq<Str>, x: Str, y: Str)
    requires s != [] && NonDecreasing(s) && Less(s[0], x) && (y == x || y in s[1..])
    ensures !Less(y, s[0])
  {
    if Less(y, s[0]) && y == x {
      LessTransitive(x, s[0], x);
      LessIrreflexive(x);
    }
  }

  lemma {:induction false} SortSorts(s: seq<Str>)
    ensures NonDecreasing(Sort(s))
    ensures forall y :: y in Sort(s) <==> y in s
  {
    if s != [] {
      SortSorts(s[1..]);
      InsertSorted(s[0], Sort(s[1..]));
      assert s == [s[0]] + s[1..];
    }
  }

  lemma {:induction false} UniqueAscends(s: seq<Str>)
    requires NonDecreasing(s)
    ensures Ascending(Unique(s))
    ensures forall y :: y in Unique(s) <==> y in s
  {
    if |s| >= 2 {
      UniqueAscends(s[1..]);
      assert s == [s[0]] + s[1..];
      if s[0] != s[1] {
        var rest := Unique(s[1..]);
        forall j | 0 <= j < |rest| ensures Less(s[0], rest[j]) {
          assert rest[j] in s[1..];
          StrictlyBefore(s, rest[j]);
        }
      }
    }
  }

  lemma StrictlyBefore(s: seq<Str>, y: Str)
    requires |s| >= 2 && NonDecreasing(s) && s[0] != s[1] && y in s[1..]
    ensures Less(s[0], y)
  {
    LessTotal(s[0], y);
    LessTotal(s[0], s[1]);
    var k :| 1 <= k < |s| && s[k] == y;
    assert k == 1 || !Less(s[k], s[1]);
  }

  /** The two library calls together compute the sorted set of what was found. */
  lemma SortUniqueIsSorted(s: seq<Str>, elements: set<Str>)
    requires forall y :: y in s <==> y in elements
    ensures Unique(Sort(s)) == Sorted(elements)
  {
    SortSorts(s);
    UniqueAscends(Sort(s));
    AscendingUnique(Unique(Sort(s)), Sorted(elements));
  }

  // ---- OpenDalFileSystem::Glob ----

  datatype Stat = File | Directory | Missing | StatFailed

  datatype GlobResult = Paths(paths: seq<Str>) | Thrown

  /** What the search can see of one service. */
  datatype Service = Service(
    schemes: set<Str>,                  // registered schemes
    operatorBuilds: bool,               // whether an operator can be built for the request
    stat: Str -> Stat,
    list: (Str, bool) -> Listing)

  ghost predicate HonestService(service: Service, store: map<Str, Str>)
  {
    && NormalStore(store)
    && (forall path :: path in store ==> GoodPath(path))
    && (forall scheme :: scheme in service.schemes ==> NoneOf(scheme, {SLASH}))
    && (forall dir, recursive :: Honest(store, dir, recursive, service.list(dir, recursive)))
    && (forall path :: service.stat(path) != StatFailed ==> (service.stat(path) == File <==> Key(path) in store))
  }

  ghost function MatchingFiles(store: map<Str, Str>, pattern: Str): set<Str>
  {
    set path | path in store && Matches(TrimStart(pattern), path)
  }

  /** The URLs of a set of files, for a location whose parts can be written into a URL. */
  ghost function Urls(location: Location, paths: set<Str>): set<Str>
  {
    set path | path in paths && Build(location.scheme, location.authority, path).Some?
      :: Build(location.scheme, location.authority, path).value
  }

  /** What expanding a URL yields: the files its path matches, if there is a wildcard in the URL as
      it is written. A URL without one is answered without searching: as it is when there is no
      client context, by a stat otherwise. */
  ghost function Globbed(service: Service, store: map<Str, Str>, url: Str, hasContext: bool): GlobResult
  {
    match Resolve(service.schemes, url)
    case Rejected(_) => Paths([])
    case Ok(location) =>
      if !HasWildcard(url) then
        if !hasContext then Paths([url]) else Literal(service, location, url)
      else if !service.operatorBuilds || service.list(ListDir(location.path), NeedsRecursion(location.path)).Failed? then
        Thrown
      else
        Paths(Sorted(Urls(location, MatchingFiles(store, location.path))))
  }

  method GlobUrl(service: Service, ghost store: map<Str, Str>, url: Str, hasContext: bool) returns (result: GlobResult)
    requires HonestService(service, store)
    ensures result == Globbed(service, store, url, hasContext)
    ensures Resolve(service.schemes, url).Rejected? ==> result == Paths([])
    ensures Resolve(service.schemes, url).Ok? ==>
              var location := Resolve(service.schemes, url).location;
              var searched := STAR in url || QUESTION in url || LBRACKET in url;
              && (!searched && !hasContext ==> result == Paths([url]))
              && (!searched && hasContext ==>
                    && (result == Thrown <==> !service.operatorBuilds || service.stat(location.path) == StatFailed)
                    && (result != Thrown ==> result == Paths(if Key(location.path) in store then [url] else [])))
              && (searched ==>
                    && (result == Thrown <==>
                          !service.operatorBuilds || service.list(ListDir(location.path), NeedsRecursion(location.path)).Failed?)
                    && (result != Thrown ==> result == Paths(Sorted(Urls(location, MatchingFiles(store, location.path))))))
  {
    hide Resolve, Sorted, Urls, MatchingFiles, Honest, Normal, GoodPath;
    WildcardInUrl(url);
    var resolved := Resolve(service.schemes, url);
    if resolved.Rejected? {
      return Paths([]);
    }
    var location := resolved.location;
    if !HasWildcard(url) {
      if !hasContext {
        return Paths([url]);
      }
      return Literal(service, location, url);
    }
    if !service.operatorBuilds {
      return Thrown;
    }
    result := Search(service, store, location, url);
  }

  lemma WildcardInUrl(s: Str)
    ensures HasWildcard(s) <==> STAR in s || QUESTION in s || LBRACKET in s
  {
    var i := FirstWildcard(s);
    assert forall k :: 0 <= k < |s| ==> s[k] in s;
  }

  /** `FileExists` on a URL without wildcards. */
  function Literal(service: Service, location: Location, url: Str): GlobResult
  {
    if !service.operatorBuilds then Thrown
    else
      match service.stat(location.path)
      case File => Paths([url])
      case Directory => Paths([])
      case Missing => Paths([])
      case StatFailed => Thrown
  }

  /** The search proper. Its result is the strictly increasing list of the URLs of exactly the
      matching files, whatever the lister returned besides them and in whatever order. */
  method Search(service: Service, ghost store: map<Str, Str>, location: Location, ghost url: Str)
    returns (result: GlobResult)
    requires HonestService(service, store)
    requires Resolve(service.schemes, url) == Ok(location)
    ensures var listing := service.list(ListDir(location.path), NeedsRecursion(location.path));
            result == if listing.Failed? then Thrown
                      else Paths(Sorted(Urls(location, MatchingFiles(store, location.path))))
  {
    hide Resolve, Covers, Found, MatchingFiles, Urls, ListDir, NeedsRecursion;
    var rel := location.path;
    ResolvedIsGood(service.schemes, url);
    var listing := service.list(ListDir(rel), NeedsRecursion(rel));
    assert Honest(store, ListDir(rel), NeedsRecursion(rel), listing);
    match listing
    case Failed => return Thrown;
    case NotFound =>
      NothingMatches(store, rel);
      NoUrls(location);
      SortUniqueIsSorted([], Urls(location, {}));
      return Paths([]);
    case Entries(entries) =>
      MatchesAreListed(store, rel, entries);
      ListedIsGood(store, rel, entries);
      var results := Collect(location, TrimStart(rel), store, entries);
      SortUniqueIsSorted(results, Urls(location, MatchingFiles(store, rel)));
      result := Paths(Unique(Sort(results)));
  }

  lemma NothingMatches(store: map<Str, Str>, rel: Str)
    requires NormalStore(store)
    requires forall path :: path in store ==> !Under(ListDir(rel), NeedsRecursion(rel), path)
    ensures MatchingFiles(store, rel) == {}
  {
    hide Matches, Under;
    if path :| path in MatchingFiles(store, rel) {
      PruningIsComplete(rel, path);
    }
  }

  lemma MatchesAreListed(store: map<Str, Str>, rel: Str, entries: seq<Entry>)
    requires NormalStore(store) && Covers(store, ListDir(rel), NeedsRecursion(rel), entries)
    ensures Found(entries, TrimStart(rel)) == MatchingFiles(store, rel)
  {
    hide Matches, Under;
    forall path | path in MatchingFiles(store, rel) ensures path in Found(entries, TrimStart(rel)) {
      PruningIsComplete(rel, path);
      assert FileEntry(store, path) in entries;
    }
  }

  lemma ListedIsGood(store: map<Str, Str>, rel: Str, entries: seq<Entry>)
    requires Covers(store, ListDir(rel), NeedsRecursion(rel), entries)
    requires forall path :: path in store ==> GoodPath(path)
    ensures forall e :: e in entries && !e.isDir ==> e.path in store && GoodPath(e.path)
  {
  }

  /** The paths of the listed files that match. */
  ghost function Found(entries: seq<Entry>, pattern: Str): set<Str>
  {
    set e | e in entries && !e.isDir && Matches(pattern, e.path) :: e.path
  }

  lemma FoundAppend(entries: seq<Entry>, e: Entry, pattern: Str)
    ensures Found(entries + [e], pattern) ==
            Found(entries, pattern) + if !e.isDir && Matches(pattern, e.path) then {e.path} else {}
  {
    hide Matches;
    assert e in entries + [e];
  }

  lemma UrlsAdd(location: Location, paths: set<Str>, path: Str)
    requires Build(location.scheme, location.authority, path).Some?
    ensures Urls(location, paths + {path}) ==
            Urls(location, paths) + {Build(location.scheme, location.authority, path).value}
  {
    hide Build;
  }

  /** The loop over the listing. */
  method Collect(location: Location, pattern: Str, ghost store: map<Str, Str>, entries: seq<Entry>)
    returns (results: seq<Str>)
    requires NormalStore(store) && Utf8(location.scheme) && Utf8(location.authority)
    requires forall e :: e in entries && !e.isDir ==> e.path in store && GoodPath(e.path)
    ensures forall y :: y in results <==> y in Urls(location, Found(entries, pattern))
  {
    hide Matches, Build, Found, Urls, TrimStart, Normal, Utf8;
    results := [];
    ghost var found := {};
    assert Found([], pattern) == {} by {
      FoundNothing(pattern);
    }
    NoUrls(location);
    for i := 0 to |entries|
      invariant found == Found(entries[..i], pattern)
      invariant forall y :: y in results <==> y in Urls(location, found)
    {
      assert entries[..i + 1] == entries[..i] + [entries[i]];
      FoundAppend(entries[..i], entries[i], pattern);
      if entries[i].isDir {
        continue;
      }
      assert entries[i] in entries;
      TrimNormal(entries[i].path);
      var path := TrimStart(entries[i].path);
      var matched, _ := GlobMatches(pattern, path);
      if matched {
        BuildSucceeds(location, path);
        UrlsAdd(location, found, path);
        results := results + [Build(location.scheme, location.authority, path).value];
        found := found + {path};
      }
    }
    assert entries[..|entries|] == entries;
  }

  lemma FoundNothing(pattern: Str)
    ensures Found([], pattern) == {}
  {
  }

  lemma NoUrls(location: Location)
    ensures Urls(location, {}) == {}
  {
  }

  lemma TrimNormal(path: Str)
    requires Normal(path)
    ensures TrimStart(path) == path
  {
  }

  lemma BuildSucceeds(location: Location, path: Str)
    requires Utf8(location.scheme) && Utf8(location.authority) && Utf8(path)
    ensures Build(location.scheme, location.authority, path).Some?
  {
  }

  /** No two files are merged: there are as many URLs as matching files. */
  lemma {:induction false} UrlsAreDistinct(location: Location, paths: set<Str>)
    requires forall path :: path in paths ==> Build(location.scheme, location.authority, path).Some?
    ensures |Urls(location, paths)| == |paths|
  {
    if paths != {} {
      var path :| path in paths;
      var rest := paths - {path};
      UrlsAreDistinct(location, rest);
      var url := Build(location.scheme, location.authority, path).value;
      assert Urls(location, paths) == Urls(location, rest) + {url};
      if url in Urls(location, rest) {
        var other :| other in rest && Build(location.scheme, location.authority, other) == Some(url);
        BuildInjective(location.scheme, location.authority, path, other);
        assert false;
      }
    }
  }
}
