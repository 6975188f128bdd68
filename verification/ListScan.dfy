/** `opendal_ls` from the URL to the rows (src/opendal_table_functions.cpp, `EntryInit` and
    `EntryFunc`), and how far it agrees with the file system's expansion of the same URL. */
module ListScan {
  import opened Bytes
  import opened Store
  import opened Glob
  import opened Url
  import opened GlobSearch
  import opened Paging
  import opened TableScan

  // ---- Opening ----

  /** A wildcard in the path, once resolved, makes a listing a glob. */
  function GlobOf(path: Str): Option<Str>
  {
    if HasWildcard(path) then Some(TrimStart(path)) else None
  }

  function ListedDir(path: Str): Str
  {
    if HasWildcard(path) then GlobRoot(path) else path
  }

  function SelfOf(path: Str): Option<Str>
  {
    Some(TrimEnd(TrimStart(ListedDir(path))))
  }

  /** What the lister has for a path; None when there is no lister. */
  function StreamOf(lister: Lister, path: Str, recursive: bool): Option<seq<Item>>
  {
    lister(ListedDir(path), HasWildcard(path) || recursive)
  }

  method OpenUrl(schemes: set<Str>, operatorBuilds: bool, lister: Lister, url: Str, recursive: bool)
    returns (cursor: TableCursor?)
    ensures cursor != null <==>
              && operatorBuilds && Resolve(schemes, url).Ok?
              && StreamOf(lister, Resolve(schemes, url).location.path, recursive).Some?
    ensures cursor != null ==>
              var path := Resolve(schemes, url).location.path;
              && fresh(cursor)
              && cursor.glob == GlobOf(path) && cursor.self == SelfOf(path)
              && cursor.items == StreamOf(lister, path, recursive).value
    ensures operatorBuilds && Resolve(schemes, url).Ok? ==>
              var path := Resolve(schemes, url).location.path;
              var searched := STAR in path || QUESTION in path || LBRACKET in path;
              var stream := if searched then lister(GlobRoot(path), true) else lister(path, recursive);
              && (cursor == null <==> stream.None?)
              && (cursor != null ==>
                    && cursor.glob == (if searched then Some(TrimStart(path)) else None)
                    && cursor.self == Some(TrimEnd(TrimStart(if searched then GlobRoot(path) else path)))
                    && cursor.items == stream.value)
  {
    hide Resolve, TrimStart, TrimEnd, GlobRoot;
    if Resolve(schemes, url).Ok? {
      WildcardInUrl(Resolve(schemes, url).location.path);
    }
    var resolved := Resolve(schemes, url);
    if resolved.Rejected? || !operatorBuilds {
      return null;
    }
    var path := resolved.location.path;
    if HasWildcard(path) {
      cursor := OpenGlob(lister, path);
    } else {
      cursor := OpenList(lister, path, None, recursive);
    }
  }

  // ---- From the URL to the rows ----

  /** A lister that does not break off shows the store. */
  ghost predicate HonestLister(lister: Lister, store: map<Str, Str>)
  {
    && NormalStore(store)
    && forall dir, recursive :: lister(dir, recursive).Some? && Broken !in lister(dir, recursive).value ==>
         Covers(store, dir, recursive, EntriesOf(lister(dir, recursive).value))
  }

  ghost function FilesIn(rows: seq<Entry>): set<Str>
  {
    set row | row in rows && !row.isDir :: row.path
  }

  ghost predicate NoPathTwice(rows: seq<Entry>)
  {
    forall i, j :: 0 <= i < j < |rows| ==> rows[i].path != rows[j].path
  }

  /** What a listing shows: everything the lister has but the directory itself and, for a glob,
      what does not match. */
  ghost function Shown(lister: Lister, path: Str, recursive: bool): seq<Item>
    requires StreamOf(lister, path, recursive).Some?
  {
    Visible(GlobOf(path), SelfOf(path), StreamOf(lister, path, recursive).value)
  }

  /** A listing opened and scanned to its end with vectors of any size. It fails exactly when it
      cannot be opened or the lister breaks off; the rows returned until then are those in front of
      the error. Otherwise it returns what is shown, in the order of the lister: for a glob every
      matching file and no other, once each if the lister repeats nothing. */
  method ListUrl(schemes: set<Str>, operatorBuilds: bool, lister: Lister, ghost store: map<Str, Str>, url: Str,
                 recursive: bool, size: nat) returns (rows: seq<Entry>, failed: bool)
    requires HonestLister(lister, store) && 0 < size
    ensures (!operatorBuilds || Resolve(schemes, url).Rejected?
             || StreamOf(lister, Resolve(schemes, url).location.path, recursive).None?) ==> failed && rows == []
    ensures operatorBuilds && Resolve(schemes, url).Ok?
            && StreamOf(lister, Resolve(schemes, url).location.path, recursive).Some? ==>
              var path := Resolve(schemes, url).location.path;
              var shown := Shown(lister, path, recursive);
              && (failed <==> Broken in StreamOf(lister, path, recursive).value)
              && (failed ==> rows <= EntriesOf(shown)[..FirstError(shown)])
              && (!failed ==> rows == EntriesOf(shown))
              && (!failed && HasWildcard(path) ==> FilesIn(rows) == MatchingFiles(store, path))
              && (!failed && NoPathTwice(EntriesOf(StreamOf(lister, path, recursive).value)) ==> NoPathTwice(rows))
  {
    hide Resolve, Matches, Visible, FirstError, Start, Chunks, EntriesOf, HasWildcard, ListedDir, SelfOf, GlobOf, Covers;
    var cursor := OpenUrl(schemes, operatorBuilds, lister, url, recursive);
    if cursor == null {
      return [], true;
    }
    ghost var path := Resolve(schemes, url).location.path;
    ghost var items := StreamOf(lister, path, recursive).value;
    ghost var shown := Shown(lister, path, recursive);
    var scan := new EntryScan(cursor);
    var calls := |cursor.items|;
    var chunks;
    chunks, failed := ScanRun(scan, size, calls);
    rows := Flatten(chunks);
    VisibleIsShorter(GlobOf(path), SelfOf(path), items);
    Drained(size, calls, |shown|);
    ErrorIsVisible(GlobOf(path), SelfOf(path), items);
    PagingIsExact(EntriesOf(shown), size, |chunks|);
    if failed {
      assert EntriesOf(shown)[..Start(|chunks|, size, |shown|)] <= EntriesOf(shown)[..FirstError(shown)];
    } else {
      ChunksCount(EntriesOf(shown), size, calls);
      assert EntriesOf(shown)[..|shown|] == EntriesOf(shown);
      VisibleRepeatsNothing(GlobOf(path), SelfOf(path), items);
      if HasWildcard(path) {
        ShownFilesMatch(lister, store, path, recursive);
      }
    }
  }

  /** A plain listing of a lister that keeps to what it was asked for shows the files under the
      directory, directly or at any depth, but never the listed path itself. */
  lemma PlainListing(lister: Lister, store: map<Str, Str>, path: Str, recursive: bool)
    requires HonestLister(lister, store) && STAR !in path && QUESTION !in path && LBRACKET !in path
    requires lister(path, recursive).Some? && Broken !in lister(path, recursive).value
    requires forall e :: e in EntriesOf(lister(path, recursive).value) && !e.isDir ==> Under(path, recursive, e.path)
    ensures StreamOf(lister, path, recursive) == lister(path, recursive)
    ensures forall file :: file in FilesIn(EntriesOf(Shown(lister, path, recursive))) <==>
              file in store && Under(path, recursive, file) && file != TrimEnd(TrimStart(path))
  {
    hide Under, EntriesOf, Visible, TrimStart, TrimEnd, Normal;
    WildcardInUrl(path);
    var items, self := lister(path, recursive).value, TrimEnd(TrimStart(path));
    var entries, shown := EntriesOf(items), Visible(None, Some(self), items);
    VisibleMembers(None, Some(self), items, Broken);
    SameFiles(shown);
    NoPlaceholder(items);
    forall file
      ensures file in FilesOf(shown) <==> file in store && Under(path, recursive, file) && file != self
    {
      if file in FilesOf(shown) {
        var item :| item in shown && item.Row? && !item.entry.isDir && item.entry.path == file;
        VisibleMembers(None, Some(self), items, item);
        SelfMeans(self, file);
        EntryOf(items, item);
      }
      if file in store && Under(path, recursive, file) && file != self {
        var item := Row(FileEntry(store, file));
        assert FileEntry(store, file) in entries;
        ItemOf(items, FileEntry(store, file));
        VisibleMembers(None, Some(self), items, item);
        SelfMeans(self, file);
        NoSlashAtEnd(file);
      }
    }
  }

  lemma EntryOf(items: seq<Item>, item: Item)
    requires item in items && item.Row?
    ensures item.entry in EntriesOf(items)
  {
    hide EntriesOf;
    var i :| 0 <= i < |items| && items[i] == item;
    assert EntriesOf(items)[i] == item.entry;
  }

  lemma ItemOf(items: seq<Item>, e: Entry)
    requires Broken !in items && e in EntriesOf(items)
    ensures Row(e) in items
  {
    hide EntriesOf;
    var i :| 0 <= i < |items| && EntriesOf(items)[i] == e;
    assert items[i] in items;
  }

  lemma NoSlashAtEnd(file: Str)
    requires Normal(file)
    ensures file[|file| - 1] != SLASH
  {
  }

  lemma Drained(size: nat, calls: nat, total: nat)
    requires 0 < size && total <= calls
    ensures Start(calls, size, total) == total
  {
    assert calls * size >= calls;
  }

  lemma {:induction false} VisibleIsShorter(glob: Option<Str>, self: Option<Str>, items: seq<Item>)
    ensures |Visible(glob, self, items)| <= |items|
  {
    hide Wanted;
    if items != [] {
      VisibleIsShorter(glob, self, items[1..]);
    }
  }

  lemma ErrorIsVisible(glob: Option<Str>, self: Option<Str>, items: seq<Item>)
    ensures FirstError(Visible(glob, self, items)) < |Visible(glob, self, items)| <==> Broken in items
  {
    hide Visible, FirstError;
    VisibleMembers(glob, self, items, Broken);
    var visible := Visible(glob, self, items);
    assert forall k :: 0 <= k < |visible| ==> visible[k] in visible;
    if Broken in visible {
      var i :| 0 <= i < |visible| && visible[i] == Broken;
      assert FirstError(visible) <= i;
    }
  }

  lemma {:induction false} VisibleRepeatsNothing(glob: Option<Str>, self: Option<Str>, items: seq<Item>)
    requires Broken !in items
    ensures NoPathTwice(EntriesOf(items)) ==> NoPathTwice(EntriesOf(Visible(glob, self, items)))
  {
    hide Wanted, EntriesOf, NoPathTwice;
    if items == [] {
      assert items == Visible(glob, self, items);
    } else {
      var rest := Visible(glob, self, items[1..]);
      assert items == [items[0]] + items[1..];
      VisibleRepeatsNothing(glob, self, items[1..]);
      ConsRepeatsNothing(items[0], items[1..]);
      if Visible(glob, self, items) != rest {
        forall item | item in rest ensures item in items[1..] {
          VisibleMembers(glob, self, items[1..], item);
        }
        ConsRepeatsNothing(items[0], rest);
      }
    }
  }

  lemma EntriesOfCons(first: Item, items: seq<Item>)
    requires first.Row?
    ensures EntriesOf([first] + items) == [first.entry] + EntriesOf(items)
  {
  }

  /** One item in front of others. */
  lemma ConsRepeatsNothing(first: Item, items: seq<Item>)
    requires first.Row? && Broken !in items
    ensures NoPathTwice(EntriesOf([first] + items)) <==>
              NoPathTwice(EntriesOf(items)) && forall item :: item in items ==> item.entry.path != first.entry.path
  {
    hide EntriesOf, NoPathTwice;
    EntriesOfCons(first, items);
    NoPathTwiceCons(first.entry, EntriesOf(items));
    forall item | item in items ensures item.entry in EntriesOf(items) {
      EntryOf(items, item);
    }
    forall e | e in EntriesOf(items) ensures Row(e) in items {
      ItemOf(items, e);
    }
  }

  lemma NoPathTwiceCons(first: Entry, rows: seq<Entry>)
    ensures NoPathTwice([first] + rows) <==> NoPathTwice(rows) && forall e :: e in rows ==> e.path != first.path
  {
    var all := [first] + rows;
    if NoPathTwice(all) {
      forall i, j | 0 <= i < j < |rows| ensures rows[i].path != rows[j].path {
        assert all[i + 1].path != all[j + 1].path;
      }
      forall e | e in rows ensures e.path != first.path {
        var k :| 0 <= k < |rows| && rows[k] == e;
        assert all[0].path != all[k + 1].path;
      }
    }
  }

  lemma ShownFilesMatch(lister: Lister, store: map<Str, Str>, path: Str, recursive: bool)
    requires HonestLister(lister, store) && HasWildcard(path)
    requires StreamOf(lister, path, recursive).Some? && Broken !in StreamOf(lister, path, recursive).value
    ensures FilesIn(EntriesOf(Shown(lister, path, recursive))) == MatchingFiles(store, path)
    ensures FilesOf(Shown(lister, path, recursive)) == MatchingFiles(store, path)
  {
    hide *;
    var items := StreamOf(lister, path, recursive).value;
    var shown := Shown(lister, path, recursive);
    GlobStream(lister, store, path, recursive);
    NoPlaceholder(items);
    GlobPathsAgree(store, path, EntriesOf(items));
    VisibleMembers(Some(TrimStart(path)), Some(TrimEnd(TrimStart(GlobRoot(path)))), items, Broken);
    SameFiles(shown);
  }

  lemma GlobStream(lister: Lister, store: map<Str, Str>, path: Str, recursive: bool)
    requires HonestLister(lister, store) && HasWildcard(path)
    requires StreamOf(lister, path, recursive).Some? && Broken !in StreamOf(lister, path, recursive).value
    ensures NormalStore(store)
    ensures var items := StreamOf(lister, path, recursive).value;
            && Covers(store, GlobRoot(path), true, EntriesOf(items))
            && Shown(lister, path, recursive) ==
                 Visible(Some(TrimStart(path)), Some(TrimEnd(TrimStart(GlobRoot(path)))), items)
  {
    hide Covers, Visible, EntriesOf, TrimStart, TrimEnd, GlobRoot, HasWildcard, Normal;
    assert ListedDir(path) == GlobRoot(path);
    assert lister(GlobRoot(path), true) == StreamOf(lister, path, recursive);
  }

  lemma NoPlaceholder(items: seq<Item>)
    requires Broken !in items
    ensures TableScan.Rows(EntriesOf(items)) == items
  {
    hide EntriesOf;
    forall i | 0 <= i < |items| ensures TableScan.Rows(EntriesOf(items))[i] == items[i] {
      assert items[i] in items;
    }
  }

  lemma SameFiles(items: seq<Item>)
    requires Broken !in items
    ensures FilesIn(EntriesOf(items)) == FilesOf(items)
  {
    hide EntriesOf;
    forall path ensures path in FilesIn(EntriesOf(items)) <==> path in FilesOf(items) {
      if path in FilesIn(EntriesOf(items)) {
        var i :| 0 <= i < |items| && !EntriesOf(items)[i].isDir && EntriesOf(items)[i].path == path;
        assert items[i] in items;
      }
      if path in FilesOf(items) {
        var i :| 0 <= i < |items| && items[i].Row? && !items[i].entry.isDir && items[i].entry.path == path;
        assert EntriesOf(items)[i] in EntriesOf(items);
      }
    }
  }

  // ---- The two globs ----

  /** For an accepted URL the raw wildcards are `*` and `[`: a raw `?` is never accepted. */
  lemma RawWildcards(schemes: set<Str>, url: Str)
    requires Resolve(schemes, url).Ok?
    ensures HasWildcard(url) <==> STAR in url || LBRACKET in url
  {
    hide Resolve;
    var i := FirstWildcard(url);
    if i < |url| && url[i] == QUESTION {
      RawQuestionMarkRejected(schemes, url);
      assert false;
    }
  }

  /** Where a wildcard in the path is searched for. The table function always searches; the file
      system does so exactly when the URL as written has a wildcard, and then both find the same
      files. Otherwise the file system takes the path literally. */
  lemma TheTwoGlobs(service: Service, store: map<Str, Str>, lister: Lister, url: Str, hasContext: bool)
    requires HonestService(service, store) && HonestLister(lister, store)
    requires Resolve(service.schemes, url).Ok? && service.operatorBuilds
    requires var path := Resolve(service.schemes, url).location.path;
             && HasWildcard(path)
             && !service.list(ListDir(path), NeedsRecursion(path)).Failed?
             && StreamOf(lister, path, false).Some? && Broken !in StreamOf(lister, path, false).value
    ensures var location := Resolve(service.schemes, url).location;
            var files := FilesIn(EntriesOf(Shown(lister, location.path, false)));
            && files == MatchingFiles(store, location.path)
            && (STAR in url || LBRACKET in url ==>
                  Globbed(service, store, url, hasContext) == Paths(Sorted(Urls(location, files))))
            && (!(STAR in url || LBRACKET in url) && !hasContext ==>
                  Globbed(service, store, url, hasContext) == Paths([url]))
            && (!(STAR in url || LBRACKET in url) && hasContext && service.stat(location.path) != StatFailed ==>
                  Globbed(service, store, url, hasContext) == Paths(if Key(location.path) in store then [url] else []))
  {
    hide Resolve, Matches, Shown, EntriesOf, MatchingFiles, Covers, HasWildcard, Sorted, Urls;
    var path := Resolve(service.schemes, url).location.path;
    RawWildcards(service.schemes, url);
    ShownFilesMatch(lister, store, path, false);
  }

  const S3: Str := [115, 51]                                                             // s3
  const ESCAPED_URL: Str := S3 + SEPARATOR + [98, SLASH, 97, PERCENT, 51, 70]             // s3://b/a%3F
  const ESCAPED_PATH: Str := [97, QUESTION]                                              // a?
  const MATCHING_PATH: Str := [97, 120]                                                  // ax

  /** `?` can only be written as `%3F`, which the table function takes for a wildcard and the file
      system does not: `s3://b/a%3F` lists `ax`, and is globbed by asking for a file named `a?`. */
  lemma EscapedQuestionMark(schemes: set<Str>, content: Str)
    requires S3 in schemes
    ensures Resolve(schemes, ESCAPED_URL) == Ok(Location(S3, [98], ESCAPED_PATH))
    ensures !HasWildcard(ESCAPED_URL) && HasWildcard(ESCAPED_PATH)
    ensures MatchingFiles(map[MATCHING_PATH := content], ESCAPED_PATH) == {MATCHING_PATH}
  {
    hide *;
    EscapedUrlIsBuilt();
    RoundTripExactly(schemes, S3, [98], ESCAPED_PATH);
    OnlyMatch(content);
  }

  lemma OnlyMatch(content: Str)
    ensures MatchingFiles(map[MATCHING_PATH := content], ESCAPED_PATH) == {MATCHING_PATH}
  {
    hide Matches;
    QuestionMatches();
  }

  lemma EscapedUrlIsBuilt()
    ensures GoodScheme(S3) && GoodAuthority([98]) && GoodPath(ESCAPED_PATH) && BACKSLASH !in ESCAPED_PATH
    ensures Build(S3, [98], ESCAPED_PATH) == Some(ESCAPED_URL)
    ensures !HasWildcard(ESCAPED_URL) && HasWildcard(ESCAPED_PATH)
  {
    hide Utf8, Split, Join, EncodeAll;
    AsciiIsUtf8(S3);
    AsciiIsUtf8([98]);
    AsciiIsUtf8(ESCAPED_PATH);
    EncodeBySegment(ESCAPED_PATH);
    assert ESCAPED_PATH[1..] == [QUESTION] && [QUESTION][1..] == [];
    assert Encode([QUESTION]) == [PERCENT, 51, 70];
    assert Encode(ESCAPED_PATH) == [97, PERCENT, 51, 70];
    assert S3 + SEPARATOR + [98] + [SLASH] + [97, PERCENT, 51, 70] == ESCAPED_URL;
    assert forall k :: 0 <= k < |ESCAPED_URL| ==> !Wildcard(ESCAPED_URL[k]);
    assert Wildcard(ESCAPED_PATH[1]);
  }

  lemma QuestionMatches()
    ensures TrimStart(ESCAPED_PATH) == ESCAPED_PATH && Matches(ESCAPED_PATH, MATCHING_PATH)
  {
    hide Matches;
    LiteralCase(ESCAPED_PATH, MATCHING_PATH);
    assert ESCAPED_PATH[1..] == [QUESTION] && MATCHING_PATH[1..] == [120];
    QuestionCase([QUESTION], [120]);
    assert [QUESTION][1..] == [] && [120][1..] == [];
    NothingMatchesNothing();
  }

  lemma NothingMatchesNothing()
    ensures Matches([], [])
  {
    EmptyLanguage([]);
  }
}
