/** `opendal_du` (opendal/src/table.rs, `parent` and `od_table_du_open`): file counts and sizes
    rolled up per parent directory, with 64-bit overflow checks. */
module Du {
  import opened Bytes
  import opened Store
  import opened Glob
  import opened GlobSearch

  // ---- The specification ----

  function Parent(path: Str): Str
  {
    var i := LastIndex(TrimEnd(path), SLASH);
    if i < 0 then [] else path[..i]
  }

  /** The directory is the path up to its last slash; slashes at the end do not count. */
  lemma ParentMeans(dir: Str, name: Str)
    requires SLASH !in name && name != []
    ensures Parent(name) == []
    ensures Parent(dir + [SLASH] + name) == dir
    ensures Parent(dir + [SLASH] + name + [SLASH]) == dir
  {
    var path := dir + [SLASH] + name;
    TrimEndOf(name);
    TrimEndOf(path);
    TrimEndOf(path + [SLASH]);
    LastIndexIs(path, |dir|);
    assert path[..|dir|] == dir && (path + [SLASH])[..|dir|] == dir;
    assert name[|name| - 1] in name;
  }

  lemma TrimEndOf(s: Str)
    ensures s != [] && s[|s| - 1] != SLASH ==> TrimEnd(s) == s
    ensures |s| > 1 && s[|s| - 1] == SLASH && s[|s| - 2] != SLASH ==> TrimEnd(s) == s[..|s| - 1]
  {
    if |s| > 1 && s[|s| - 1] == SLASH {
      var t := s[..|s| - 1];
      assert TrimEnd(s) == TrimEnd(t);
    }
  }

  lemma LastIndexIs(s: Str, i: nat)
    requires i < |s| && s[i] == SLASH && SLASH !in s[i + 1..]
    ensures LastIndex(s, SLASH) == i
  {
    assert forall j :: i < j < |s| ==> s[j] == s[i + 1..][j - i - 1];
  }

  datatype Measure = FileCount | ByteCount

  /** What an entry adds to a measure. */
  function Amount(e: Entry, m: Measure): nat
  {
    if e.isDir then 0 else if m.FileCount? then 1 else e.size
  }

  function Share(e: Entry, dir: Str, m: Measure): nat
  {
    if Parent(e.path) == dir then Amount(e, m) else 0
  }

  /** The sum over the files whose parent is `dir`. */
  function Sum(entries: seq<Entry>, dir: Str, m: Measure): nat
  {
    if entries == [] then 0
    else Sum(entries[..|entries| - 1], dir, m) + Share(entries[|entries| - 1], dir, m)
  }

  /** The sum over all files. */
  function Total(entries: seq<Entry>, m: Measure): nat
  {
    if entries == [] then 0
    else Total(entries[..|entries| - 1], m) + Amount(entries[|entries| - 1], m)
  }

  ghost function Dirs(entries: seq<Entry>): set<Str>
  {
    set e | e in entries && !e.isDir :: Parent(e.path)
  }

  datatype Row = Row(directory: Str, files: nat, bytes: nat)

  function RowFor(entries: seq<Entry>, dir: Str): Row
  {
    Row(dir, Sum(entries, dir, FileCount), Sum(entries, dir, ByteCount))
  }

  function RowsAlong(dirs: seq<Str>, entries: seq<Entry>): (rows: seq<Row>)
    ensures |rows| == |dirs|
  {
    seq(|dirs|, i requires 0 <= i < |dirs| => RowFor(entries, dirs[i]))
  }

  /** One row per parent directory, strictly ascending. */
  ghost function Rows(entries: seq<Entry>): seq<Row>
  {
    RowsAlong(Sorted(Dirs(entries)), entries)
  }

  ghost predicate Overflows(entries: seq<Entry>)
  {
    exists dir, m :: Sum(entries, dir, m) > MAX_U64
  }

  ghost predicate Unnameable(entries: seq<Entry>)
  {
    exists dir :: dir in Dirs(entries) && NUL in dir
  }

  datatype Result = Ok(rows: seq<Row>) | RollupFailed

  ghost function Outcome(entries: seq<Entry>): Result
  {
    if Overflows(entries) || Unnameable(entries) then RollupFailed else Ok(Rows(entries))
  }

  // ---- The rollup ----

  type Groups = map<Str, (nat, nat)>

  ghost predicate Grouped(groups: Groups, entries: seq<Entry>)
  {
    && groups.Keys == Dirs(entries)
    && forall dir :: dir in groups ==> groups[dir] == (Sum(entries, dir, FileCount), Sum(entries, dir, ByteCount))
  }

  method Rollup(entries: seq<Entry>) returns (result: Result)
    ensures result == Outcome(entries)
  {
    hide Parent, Sum, Grouped, Overflows, Unnameable, Rows, Share, Dirs;
    var groups: Groups := map[];
    NothingGrouped();
    for i := 0 to |entries|
      invariant Grouped(groups, entries[..i]) && !Overflows(entries[..i])
    {
      var e := entries[i];
      ghost var before := entries[..i];
      assert entries[..i + 1] == before + [e];
      if e.isDir {
        SkipEntry(groups, before, e);
        continue;
      }
      var dir := Parent(e.path);
      var group := if dir in groups then groups[dir] else (0, 0);
      AddEntry(groups, before, e);
      if group.0 + 1 > MAX_U64 || group.1 + e.size > MAX_U64 {
        OverflowOfPrefix(entries, i + 1);
        return RollupFailed;
      }
      groups := groups[dir := (group.0 + 1, group.1 + e.size)];
    }
    assert entries[..|entries|] == entries;
    result := Emit(groups, entries);
  }

  /** Ordered iteration over the groups. */
  method Emit(groups: Groups, ghost entries: seq<Entry>) returns (result: Result)
    requires Grouped(groups, entries)
    ensures result == if Unnameable(entries) then RollupFailed else Ok(Rows(entries))
  {
    hide *;
    GroupKeys(groups, entries);
    RowsOverEnds(entries);
    var rows: seq<Row> := [];
    var left := groups.Keys;
    while left != {}
      invariant left <= groups.Keys
      invariant rows + RowsOver(left, entries) == Rows(entries)
      invariant forall dir :: dir in groups && NUL in dir ==> dir in left
      decreases |left|
    {
      var dir := TakeLeast(left);
      if NUL in dir {
        return RollupFailed;
      }
      GroupIsRow(groups, entries, dir);
      RowsOverNext(left, dir, entries);
      rows := rows + [Row(dir, groups[dir].0, groups[dir].1)];
      left := left - {dir};
    }
    result := Ok(rows);
  }

  ghost function RowsOver(dirs: set<Str>, entries: seq<Entry>): seq<Row>
  {
    RowsAlong(Sorted(dirs), entries)
  }

  lemma RowsOverEnds(entries: seq<Entry>)
    ensures RowsOver(Dirs(entries), entries) == Rows(entries)
    ensures RowsOver({}, entries) == []
  {
  }

  lemma RowsOverNext(dirs: set<Str>, dir: Str, entries: seq<Entry>)
    requires dir in dirs && Sorted(dirs) == [dir] + Sorted(dirs - {dir})
    ensures RowsOver(dirs, entries) == [RowFor(entries, dir)] + RowsOver(dirs - {dir}, entries)
  {
    hide Sorted, RowsAlong;
    RowsAlongNext(Sorted(dirs), entries);
    assert Sorted(dirs)[1..] == Sorted(dirs - {dir});
  }

  lemma RowsAlongNext(dirs: seq<Str>, entries: seq<Entry>)
    requires dirs != []
    ensures RowsAlong(dirs, entries) == [RowFor(entries, dirs[0])] + RowsAlong(dirs[1..], entries)
  {
    hide RowFor;
  }

  lemma GroupKeys(groups: Groups, entries: seq<Entry>)
    requires Grouped(groups, entries)
    ensures groups.Keys == Dirs(entries)
    ensures Unnameable(entries) <==> exists dir :: dir in groups && NUL in dir
  {
    hide Sum, Parent;
  }

  lemma GroupIsRow(groups: Groups, entries: seq<Entry>, dir: Str)
    requires Grouped(groups, entries) && dir in groups
    ensures Row(dir, groups[dir].0, groups[dir].1) == RowFor(entries, dir)
  {
    hide Sum;
  }

  lemma NothingGrouped()
    ensures Grouped(map[], []) && !Overflows([])
  {
  }

  lemma SumAppend(entries: seq<Entry>, e: Entry, dir: Str, m: Measure)
    ensures Sum(entries + [e], dir, m) == Sum(entries, dir, m) + Share(e, dir, m)
  {
    assert (entries + [e])[..|entries|] == entries;
  }

  lemma DirsAppend(entries: seq<Entry>, e: Entry)
    ensures Dirs(entries + [e]) == if e.isDir then Dirs(entries) else Dirs(entries) + {Parent(e.path)}
  {
    hide Parent;
    assert e in entries + [e];
  }

  lemma {:induction false} NoFilesNoSum(entries: seq<Entry>, dir: Str, m: Measure)
    requires dir !in Dirs(entries)
    ensures Sum(entries, dir, m) == 0
  {
    hide Parent;
    if entries != [] {
      var n := |entries| - 1;
      assert entries[n] in entries;
      assert forall e :: e in entries[..n] ==> e in entries;
      NoFilesNoSum(entries[..n], dir, m);
    }
  }

  lemma GroupSoFar(groups: Groups, entries: seq<Entry>, dir: Str)
    requires Grouped(groups, entries)
    ensures (if dir in groups then groups[dir] else (0, 0)) == (Sum(entries, dir, FileCount), Sum(entries, dir, ByteCount))
  {
    hide Sum;
    if dir !in groups {
      NoFilesNoSum(entries, dir, FileCount);
      NoFilesNoSum(entries, dir, ByteCount);
    }
  }

  lemma SkipEntry(groups: Groups, entries: seq<Entry>, e: Entry)
    requires e.isDir && Grouped(groups, entries) && !Overflows(entries)
    ensures Grouped(groups, entries + [e]) && !Overflows(entries + [e])
  {
    hide Sum, Parent;
    DirsAppend(entries, e);
    forall dir, m ensures Sum(entries + [e], dir, m) == Sum(entries, dir, m) {
      SumAppend(entries, e, dir, m);
    }
  }

  /** Updating the group of the entry's parent keeps the groups right, and the entry makes some
      sum overflow exactly when it makes one of the two of that group overflow. */
  lemma AddEntry(groups: Groups, entries: seq<Entry>, e: Entry)
    requires !e.isDir && Grouped(groups, entries) && !Overflows(entries)
    ensures var dir := Parent(e.path);
            var group := if dir in groups then groups[dir] else (0, 0);
            && Grouped(groups[dir := (group.0 + 1, group.1 + e.size)], entries + [e])
            && (Overflows(entries + [e]) <==> group.0 + 1 > MAX_U64 || group.1 + e.size > MAX_U64)
  {
    hide Sum, Parent;
    var dir := Parent(e.path);
    DirsAppend(entries, e);
    GroupSoFar(groups, entries, dir);
    forall d, m ensures Sum(entries + [e], d, m) == Sum(entries, d, m) + Share(e, d, m) {
      SumAppend(entries, e, d, m);
    }
    assert Sum(entries + [e], dir, FileCount) == Sum(entries, dir, FileCount) + 1;
    assert Sum(entries + [e], dir, ByteCount) == Sum(entries, dir, ByteCount) + e.size;
  }

  lemma OverflowOfPrefix(entries: seq<Entry>, n: nat)
    requires n <= |entries| && Overflows(entries[..n])
    ensures Overflows(entries)
  {
    hide Sum;
    var dir, m :| Sum(entries[..n], dir, m) > MAX_U64;
    SumPrefix(entries, n, dir, m);
  }

  /** Partial sums never exceed the whole. */
  lemma {:induction false} SumPrefix(entries: seq<Entry>, n: nat, dir: Str, m: Measure)
    requires n <= |entries|
    ensures Sum(entries[..n], dir, m) <= Sum(entries, dir, m)
  {
    if n < |entries| {
      var front := entries[..|entries| - 1];
      assert front[..n] == entries[..n];
      SumPrefix(front, n, dir, m);
    } else {
      assert entries[..n] == entries;
    }
  }

  // ---- Choosing the entries ----

  /** The entries of a set of files, in some order: ascending. */
  ghost function FileEntries(store: map<Str, Str>, files: set<Str>): (entries: seq<Entry>)
    requires files <= store.Keys
    ensures |entries| == |files|
  {
    EntriesAlong(store, Sorted(files))
  }

  function EntriesAlong(store: map<Str, Str>, paths: seq<Str>): (entries: seq<Entry>)
    requires forall path :: path in paths ==> path in store
    ensures |entries| == |paths|
    ensures forall i :: 0 <= i < |paths| ==> entries[i] == FileEntry(store, paths[i])
  {
    seq(|paths|, i requires 0 <= i < |paths| => FileEntry(store, paths[i]))
  }

  /** `od_table_du_open`: a glob rolls up what it matches, a directory everything under it, a file
      itself. The outcome depends on the store and the target only, and on whether the service
      could be reached: not on the order of the listing, nor on the directories in it. */
  method DuOpen(ghost store: map<Str, Str>, target: Str, stat: Str -> Metadata, list: (Str, bool) -> Listing)
    returns (result: Result)
    requires NormalStore(store)
    requires Exact(store, GlobRoot(target), list(GlobRoot(target), true))
    requires Exact(store, DirBase(target), list(DirBase(target), true))
    ensures HasWildcard(target) ==>
              result == if list(GlobRoot(target), true).Entries?
                        then Outcome(FileEntries(store, MatchingFiles(store, target))) else RollupFailed
    ensures !HasWildcard(target) ==>
              match stat(target)
              case Unavailable => result == RollupFailed
              case FileOf(size) => result == Outcome([Entry(target, false, size)])
              case DirectoryOf =>
                result == if list(DirBase(target), true).Entries?
                          then Outcome(FileEntries(store, FilesUnder(store, DirBase(target)))) else RollupFailed
  {
    hide Matches, Outcome, Under, FileEntries;
    if HasWildcard(target) {
      var listing := list(GlobRoot(target), true);
      if !listing.Entries? {
        return RollupFailed;
      }
      var kept := Keep(listing.entries, TrimStart(target));
      KeptDescribes(store, target, listing.entries);
      DescribedOutcome(kept, store, MatchingFiles(store, target));
      result := Rollup(kept);
      return;
    }
    match stat(target)
    case Unavailable => return RollupFailed;
    case FileOf(size) => result := Rollup([Entry(target, false, size)]);
    case DirectoryOf =>
      var listing := list(DirBase(target), true);
      if !listing.Entries? {
        return RollupFailed;
      }
      DescribedOutcome(listing.entries, store, FilesUnder(store, DirBase(target)));
      result := Rollup(listing.entries);
  }

  /** The file entries of `entries` are those of `files`, once each. */
  ghost predicate Describes(entries: seq<Entry>, store: map<Str, Str>, files: set<Str>)
  {
    && (forall e :: e in entries && !e.isDir ==> e.path in files && e.path in store && e == FileEntry(store, e.path))
    && (forall path :: path in files ==> path in store && FileEntry(store, path) in entries)
    && DistinctPaths(entries)
  }

  ghost function Kept(entries: seq<Entry>, pattern: Str): seq<Entry>
  {
    if entries == [] then []
    else
      var last := entries[|entries| - 1];
      Kept(entries[..|entries| - 1], pattern) + if Matches(pattern, last.path) then [last] else []
  }

  method Keep(entries: seq<Entry>, pattern: Str) returns (kept: seq<Entry>)
    ensures kept == Kept(entries, pattern)
  {
    hide Matches;
    kept := [];
    for i := 0 to |entries|
      invariant kept == Kept(entries[..i], pattern)
    {
      assert entries[..i + 1][..i] == entries[..i];
      var matched, _ := GlobMatches(pattern, entries[i].path);
      if matched {
        kept := kept + [entries[i]];
      }
    }
    assert entries[..|entries|] == entries;
  }

  lemma {:induction false} KeptMembers(entries: seq<Entry>, pattern: Str, e: Entry)
    ensures e in Kept(entries, pattern) <==> e in entries && Matches(pattern, e.path)
  {
    hide Matches;
    if entries != [] {
      var n := |entries| - 1;
      KeptMembers(entries[..n], pattern, e);
      assert entries == entries[..n] + [entries[n]];
    }
  }

  ghost predicate DistinctPaths(entries: seq<Entry>)
  {
    forall i, j :: 0 <= i < j < |entries| ==> entries[i].path != entries[j].path
  }

  lemma {:induction false} KeptIsDistinct(entries: seq<Entry>, pattern: Str)
    requires DistinctPaths(entries)
    ensures DistinctPaths(Kept(entries, pattern))
  {
    hide Matches;
    if entries != [] {
      var n := |entries| - 1;
      KeptIsDistinct(entries[..n], pattern);
      var kept := Kept(entries[..n], pattern);
      forall i | 0 <= i < |kept| ensures kept[i].path != entries[n].path {
        KeptMembers(entries[..n], pattern, kept[i]);
      }
    }
  }

  lemma KeptDescribes(store: map<Str, Str>, target: Str, entries: seq<Entry>)
    requires NormalStore(store) && Exact(store, GlobRoot(target), Entries(entries))
    ensures Describes(Kept(entries, TrimStart(target)), store, MatchingFiles(store, target))
  {
    hide Matches, Under, Kept, TrimStart;
    var kept := Kept(entries, TrimStart(target));
    forall e | e in kept && !e.isDir
      ensures e.path in MatchingFiles(store, target) && e.path in store && e == FileEntry(store, e.path)
    {
      KeptMembers(entries, TrimStart(target), e);
    }
    forall path | path in MatchingFiles(store, target) ensures path in store && FileEntry(store, path) in kept {
      PruningIsComplete(target, path);
      KeptMembers(entries, TrimStart(target), FileEntry(store, path));
    }
    KeptIsDistinct(entries, TrimStart(target));
  }

  // ---- Conservation ----

  function SumRows(rows: seq<Row>, m: Measure): nat
  {
    if rows == [] then 0
    else (if m.FileCount? then rows[0].files else rows[0].bytes) + SumRows(rows[1..], m)
  }

  function SumDirs(dirs: seq<Str>, entries: seq<Entry>, m: Measure): nat
  {
    if dirs == [] then 0 else Sum(entries, dirs[0], m) + SumDirs(dirs[1..], entries, m)
  }

  lemma {:induction false} SumRowsAlong(dirs: seq<Str>, entries: seq<Entry>, m: Measure)
    ensures SumRows(RowsAlong(dirs, entries), m) == SumDirs(dirs, entries, m)
  {
    hide Sum;
    if dirs != [] {
      SumRowsAlong(dirs[1..], entries, m);
      RowsAlongNext(dirs, entries);
    }
  }

  function SumShares(dirs: seq<Str>, e: Entry, m: Measure): nat
  {
    if dirs == [] then 0 else Share(e, dirs[0], m) + SumShares(dirs[1..], e, m)
  }

  lemma {:induction false} SumDirsAppend(dirs: seq<Str>, entries: seq<Entry>, e: Entry, m: Measure)
    ensures SumDirs(dirs, entries + [e], m) == SumDirs(dirs, entries, m) + SumShares(dirs, e, m)
    decreases |dirs|
  {
    hide Sum, Share;
    if dirs != [] {
      SumAppend(entries, e, dirs[0], m);
      SumDirsAppend(dirs[1..], entries, e, m);
    }
  }

  lemma {:induction false} NoShareElsewhere(dirs: seq<Str>, e: Entry, m: Measure)
    requires Parent(e.path) !in dirs
    ensures SumShares(dirs, e, m) == 0
  {
    hide Parent;
    if dirs != [] {
      NoShareElsewhere(dirs[1..], e, m);
    }
  }

  /** An entry counts in exactly one of distinct directories. */
  lemma {:induction false} OneShare(dirs: seq<Str>, e: Entry, m: Measure)
    requires forall i, j :: 0 <= i < j < |dirs| ==> dirs[i] != dirs[j]
    requires e.isDir || Parent(e.path) in dirs
    ensures SumShares(dirs, e, m) == Amount(e, m)
  {
    hide Parent;
    if dirs != [] {
      if dirs[0] == Parent(e.path) {
        NoShareElsewhere(dirs[1..], e, m);
      } else {
        OneShare(dirs[1..], e, m);
      }
    }
  }

  lemma {:induction false} SumDirsIsTotal(dirs: seq<Str>, entries: seq<Entry>, m: Measure)
    requires forall i, j :: 0 <= i < j < |dirs| ==> dirs[i] != dirs[j]
    requires forall e :: e in entries && !e.isDir ==> Parent(e.path) in dirs
    ensures SumDirs(dirs, entries, m) == Total(entries, m)
    decreases |entries|
  {
    hide Parent, Share, Amount;
    if entries == [] {
      SumOfNothing(dirs, m);
    } else {
      var n := |entries| - 1;
      assert entries == entries[..n] + [entries[n]];
      SumDirsIsTotal(dirs, entries[..n], m);
      SumDirsAppend(dirs, entries[..n], entries[n], m);
      OneShare(dirs, entries[n], m);
    }
  }

  lemma {:induction false} SumOfNothing(dirs: seq<Str>, m: Measure)
    ensures SumDirs(dirs, [], m) == 0
  {
    if dirs != [] {
      SumOfNothing(dirs[1..], m);
    }
  }

  /** Nothing is lost or counted twice: the rows add up to all the files and all the bytes. */
  lemma Conservation(entries: seq<Entry>, m: Measure)
    ensures SumRows(Rows(entries), m) == Total(entries, m)
  {
    hide Parent, Sum;
    var dirs := Sorted(Dirs(entries));
    forall i, j | 0 <= i < j < |dirs| ensures dirs[i] != dirs[j] {
      LessIrreflexive(dirs[i]);
    }
    SumRowsAlong(dirs, entries, m);
    SumDirsIsTotal(dirs, entries, m);
  }

  lemma RowsAscend(entries: seq<Entry>)
    ensures forall i, j :: 0 <= i < j < |Rows(entries)| ==> Less(Rows(entries)[i].directory, Rows(entries)[j].directory)
  {
    hide Sum;
  }

  // ---- Independence of the listing order ----

  lemma {:induction false} SumRemove(entries: seq<Entry>, i: nat, dir: Str, m: Measure)
    requires i < |entries|
    ensures Sum(entries, dir, m) == Sum(entries[..i] + entries[i + 1..], dir, m) + Share(entries[i], dir, m)
    decreases |entries|
  {
    hide Share;
    var n := |entries| - 1;
    if i == n {
      assert entries[..i] + entries[i + 1..] == entries[..n];
    } else {
      var front, rest := entries[..n], entries[..i] + entries[i + 1..];
      assert rest[..|rest| - 1] == front[..i] + front[i + 1..];
      assert rest[|rest| - 1] == entries[n];
      SumRemove(front, i, dir, m);
    }
  }

  lemma WithoutLast(a: seq<Entry>)
    requires a != []
    ensures multiset(a) == multiset(a[..|a| - 1]) + multiset{a[|a| - 1]}
  {
    assert a == a[..|a| - 1] + [a[|a| - 1]];
  }

  lemma WithoutOne(b: seq<Entry>, i: nat)
    requires i < |b|
    ensures multiset(b) == multiset(b[..i] + b[i + 1..]) + multiset{b[i]}
  {
    assert b == b[..i] + ([b[i]] + b[i + 1..]);
  }

  lemma Cancel(x: multiset<Entry>, y: multiset<Entry>, e: Entry)
    requires x + multiset{e} == y + multiset{e}
    ensures x == y
  {
    assert (x + multiset{e}) - multiset{e} == x;
    assert (y + multiset{e}) - multiset{e} == y;
  }

  lemma {:induction false} SumOfPermutation(a: seq<Entry>, b: seq<Entry>, dir: Str, m: Measure)
    requires multiset(a) == multiset(b)
    ensures Sum(a, dir, m) == Sum(b, dir, m)
    decreases |a|
  {
    hide Share;
    assert |multiset(a)| == |a| && |multiset(b)| == |b|;
    if a != [] {
      var last := a[|a| - 1];
      WithoutLast(a);
      assert last in multiset(b);
      var i :| 0 <= i < |b| && b[i] == last;
      WithoutOne(b, i);
      Cancel(multiset(a[..|a| - 1]), multiset(b[..i] + b[i + 1..]), last);
      SumOfPermutation(a[..|a| - 1], b[..i] + b[i + 1..], dir, m);
      SumRemove(b, i, dir, m);
    }
  }

  /** The outcome depends on the files only, not on the order in which they are listed. */
  lemma OrderDoesNotMatter(a: seq<Entry>, b: seq<Entry>)
    requires multiset(a) == multiset(b)
    ensures Rows(a) == Rows(b)
    ensures Overflows(a) <==> Overflows(b)
    ensures Unnameable(a) <==> Unnameable(b)
  {
    hide Sum, Parent;
    forall e ensures e in a <==> e in b {
      assert e in a <==> e in multiset(a);
      assert e in b <==> e in multiset(b);
    }
    assert Dirs(a) == Dirs(b);
    forall dir, m ensures Sum(a, dir, m) == Sum(b, dir, m) {
      SumOfPermutation(a, b, dir, m);
    }
  }

  // ---- Independence of what else is listed ----

  ghost function OnlyFiles(entries: seq<Entry>): seq<Entry>
  {
    if entries == [] then []
    else
      var last := entries[|entries| - 1];
      OnlyFiles(entries[..|entries| - 1]) + if last.isDir then [] else [last]
  }

  lemma {:induction false} OnlyFilesMembers(entries: seq<Entry>, e: Entry)
    ensures e in OnlyFiles(entries) <==> e in entries && !e.isDir
    ensures DistinctPaths(entries) ==> multiset(OnlyFiles(entries))[e] == if e in entries && !e.isDir then 1 else 0
  {
    if entries != [] {
      var n := |entries| - 1;
      var front := entries[..n];
      OnlyFilesMembers(front, e);
      assert entries == front + [entries[n]];
      assert DistinctPaths(entries) ==> DistinctPaths(front);
      assert DistinctPaths(entries) && e == entries[n] ==> e !in front;
    }
  }

  lemma {:induction false} SumOfOnlyFiles(entries: seq<Entry>, dir: Str, m: Measure)
    ensures Sum(OnlyFiles(entries), dir, m) == Sum(entries, dir, m)
  {
    hide Parent;
    if entries != [] {
      var n := |entries| - 1;
      SumOfOnlyFiles(entries[..n], dir, m);
      if !entries[n].isDir {
        SumAppend(OnlyFiles(entries[..n]), entries[n], dir, m);
      } else {
        assert OnlyFiles(entries) == OnlyFiles(entries[..n]);
      }
    }
  }

  lemma OutcomeOfSums(a: seq<Entry>, b: seq<Entry>)
    requires Dirs(a) == Dirs(b)
    requires forall dir, m :: Sum(a, dir, m) == Sum(b, dir, m)
    ensures Outcome(a) == Outcome(b)
  {
    hide Sum, Dirs;
    assert RowsAlong(Sorted(Dirs(a)), a) == RowsAlong(Sorted(Dirs(b)), b);
  }

  lemma OutcomeOfOnlyFiles(entries: seq<Entry>)
    ensures Outcome(OnlyFiles(entries)) == Outcome(entries)
  {
    hide Outcome, Sum, OnlyFiles, Parent;
    forall dir, m ensures Sum(OnlyFiles(entries), dir, m) == Sum(entries, dir, m) {
      SumOfOnlyFiles(entries, dir, m);
    }
    forall e ensures e in OnlyFiles(entries) <==> e in entries && !e.isDir {
      OnlyFilesMembers(entries, e);
    }
    assert Dirs(OnlyFiles(entries)) == Dirs(entries);
    OutcomeOfSums(OnlyFiles(entries), entries);
  }

  lemma OutcomeOfPermutation(a: seq<Entry>, b: seq<Entry>)
    requires multiset(a) == multiset(b)
    ensures Outcome(a) == Outcome(b)
  {
    hide Rows, Overflows, Unnameable;
    OrderDoesNotMatter(a, b);
  }

  lemma FileEntriesCount(store: map<Str, Str>, files: set<Str>, e: Entry)
    requires files <= store.Keys
    ensures multiset(FileEntries(store, files))[e] ==
            if e.path in files && e == FileEntry(store, e.path) then 1 else 0
  {
    hide Less;
    CountAlong(store, Sorted(files), e);
  }

  lemma {:induction false} CountAlong(store: map<Str, Str>, paths: seq<Str>, e: Entry)
    requires Ascending(paths) && forall path :: path in paths ==> path in store
    ensures multiset(EntriesAlong(store, paths))[e] ==
            if e.path in paths && e == FileEntry(store, e.path) then 1 else 0
  {
    hide Less;
    if paths != [] {
      var first, rest := paths[0], paths[1..];
      CountAlong(store, rest, e);
      FirstAlong(store, paths);
      HeadIsAlone(paths);
      assert e.path in paths <==> e.path == first || e.path in rest;
    }
  }

  lemma FirstAlong(store: map<Str, Str>, paths: seq<Str>)
    requires paths != [] && forall path :: path in paths ==> path in store
    ensures multiset(EntriesAlong(store, paths)) ==
            multiset{FileEntry(store, paths[0])} + multiset(EntriesAlong(store, paths[1..]))
  {
    assert EntriesAlong(store, paths) == [FileEntry(store, paths[0])] + EntriesAlong(store, paths[1..]);
  }

  lemma HeadIsAlone(paths: seq<Str>)
    requires paths != [] && Ascending(paths)
    ensures paths[0] !in paths[1..]
  {
    LessIrreflexive(paths[0]);
  }

  /** A listing that describes a set of files has the outcome of those files. */
  lemma DescribedOutcome(entries: seq<Entry>, store: map<Str, Str>, files: set<Str>)
    requires Describes(entries, store, files)
    ensures files <= store.Keys
    ensures Outcome(entries) == Outcome(FileEntries(store, files))
  {
    hide Outcome, OnlyFiles, FileEntries;
    assert files <= store.Keys;
    forall e ensures multiset(OnlyFiles(entries))[e] == multiset(FileEntries(store, files))[e] {
      OnlyFilesMembers(entries, e);
      FileEntriesCount(store, files, e);
    }
    OutcomeOfOnlyFiles(entries);
    OutcomeOfPermutation(OnlyFiles(entries), FileEntries(store, files));
  }

  // ---- What is summed ----

  /** A listing counts its files and adds up their sizes; directories count for nothing. */
  lemma TotalMeans(entries: seq<Entry>, e: Entry)
    ensures Total([], FileCount) == 0 == Total([], ByteCount)
    ensures Total(entries + [e], FileCount) == Total(entries, FileCount) + (if e.isDir then 0 else 1)
    ensures Total(entries + [e], ByteCount) == Total(entries, ByteCount) + (if e.isDir then 0 else e.size)
  {
    assert (entries + [e])[..|entries|] == entries;
  }

  /** A directory's row counts the files in it, and adds up theirs. */
  lemma RowMeans(entries: seq<Entry>, dir: Str, e: Entry)
    ensures RowFor([], dir) == Row(dir, 0, 0)
    ensures var row, next := RowFor(entries, dir), RowFor(entries + [e], dir);
            next == if e.isDir || Parent(e.path) != dir then row else Row(dir, row.files + 1, row.bytes + e.size)
  {
    hide Parent;
    assert (entries + [e])[..|entries|] == entries;
  }

  /** There is a row for exactly the directories that hold a file, with that directory's sums. */
  lemma RowsMean(entries: seq<Entry>, dir: Str)
    ensures (exists row :: row in Rows(entries) && row.directory == dir) <==>
            exists e :: e in entries && !e.isDir && Parent(e.path) == dir
    ensures forall row :: row in Rows(entries) ==> row == RowFor(entries, row.directory)
  {
    hide Parent, RowFor;
    var dirs := Sorted(Dirs(entries));
    assert forall i :: 0 <= i < |dirs| ==> Rows(entries)[i] == RowFor(entries, dirs[i]);
    RowsName(entries);
    if e :| e in entries && !e.isDir && Parent(e.path) == dir {
      assert dir in Dirs(entries);
      var i :| 0 <= i < |dirs| && dirs[i] == dir;
      assert Rows(entries)[i] in Rows(entries);
    }
    if row :| row in Rows(entries) && row.directory == dir {
      var i :| 0 <= i < |dirs| && Rows(entries)[i] == row;
      assert dirs[i] in dirs;
    }
  }

  lemma RowsName(entries: seq<Entry>)
    ensures forall dir :: RowFor(entries, dir).directory == dir
  {
  }

  /** The rollup fails exactly if some directory's count or size does not fit into 64 bits, or its
      name cannot be handed over. */
  lemma OutcomeMeans(entries: seq<Entry>)
    ensures Outcome(entries).RollupFailed? <==>
            exists e :: e in entries && !e.isDir &&
              var row := RowFor(entries, Parent(e.path));
              row.files > MAX_U64 || row.bytes > MAX_U64 || NUL in row.directory
    ensures Outcome(entries).Ok? ==> Outcome(entries).rows == Rows(entries)
  {
    hide Parent, Sum;
    if dir, m :| Sum(entries, dir, m) > MAX_U64 {
      if dir !in Dirs(entries) {
        NoFilesNoSum(entries, dir, m);
      }
      var e :| e in entries && !e.isDir && Parent(e.path) == dir;
      assert RowFor(entries, dir).files == Sum(entries, dir, FileCount);
      assert m == FileCount || m == ByteCount;
    }
  }
}
