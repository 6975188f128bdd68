/** Table scans over listings: the cursor that filters what a lister yields
    (opendal/src/table.rs, `od_table_glob_open` and `od_table_cursor_next`) and the callback
    that drains it into output vectors (src/opendal_table_functions.cpp, `EntryFunc`). */
module TableScan {
  import opened Bytes
  import opened Spaces
  import opened Store
  import opened Glob
  import opened GlobSearch
  import opened Paging

  /** What the lister yields next: an entry, or an error (its own, or a row that cannot be
      represented). */
  datatype Item = Row(entry: Entry) | Broken

  datatype Next = Yield(entry: Entry) | End | Error

  /** The listed directory itself, with or without its closing slash. */
  predicate IsSelf(self: Option<Str>, path: Str)
  {
    self.Some? && (path == self.value || (path != [] && path[|path| - 1] == SLASH && path[..|path| - 1] == self.value))
  }

  ghost predicate Wanted(glob: Option<Str>, self: Option<Str>, path: Str)
  {
    !IsSelf(self, path) && (glob.Some? ==> Matches(glob.value, path))
  }

  /** The items that reach the caller, in lister order. */
  ghost function Visible(glob: Option<Str>, self: Option<Str>, items: seq<Item>): seq<Item>
  {
    if items == [] then []
    else if items[0].Row? && !Wanted(glob, self, items[0].entry.path) then Visible(glob, self, items[1..])
    else [items[0]] + Visible(glob, self, items[1..])
  }

  class TableCursor {
    var items: seq<Item>          // what the lister has still to yield
    const glob: Option<Str>
    const self: Option<Str>

    constructor (items: seq<Item>, glob: Option<Str>, self: Option<Str>)
      ensures this.items == items && this.glob == glob && this.self == self
    {
      this.items, this.glob, this.self := items, glob, self;
    }

    ghost function Rest(): seq<Item>
      reads this
    {
      Visible(glob, self, items)
    }

    /** Skips to the first visible item and takes it. */
    method Next() returns (next: Next)
      modifies this
      ensures old(Rest()) == [] ==> next == End && items == []
      ensures old(Rest()) != [] ==> Rest() == old(Rest())[1..]
      ensures old(Rest()) != [] ==>
                next == match old(Rest())[0] case Broken => Error case Row(entry) => Yield(entry)
    {
      while true
        invariant Rest() == old(Rest())
        decreases |items|
      {
        if items == [] {
          return End;
        }
        var item := items[0];
        items := items[1..];
        match item
        case Broken => return Error;
        case Row(entry) =>
          if IsSelf(self, entry.path) {
            continue;
          }
          if glob.Some? {
            var matched, _ := GlobMatches(glob.value, entry.path);
            if !matched {
              continue;
            }
          }
          return Yield(entry);
      }
    }
  }

  // ---- Opening a cursor ----

  /** What a lister yields for a directory, one item after the other; None if it cannot be had. */
  type Lister = (Str, bool) -> Option<seq<Item>>

  /** `od_table_list_open`: the directory itself is left out. */
  method OpenList(lister: Lister, path: Str, glob: Option<Str>, recursive: bool) returns (cursor: TableCursor?)
    ensures cursor == null <==> lister(path, recursive).None?
    ensures cursor != null ==>
              && fresh(cursor)
              && cursor.glob == glob && cursor.self == Some(TrimEnd(TrimStart(path)))
              && cursor.items == lister(path, recursive).value
  {
    hide *;
    var items := lister(path, recursive);
    if items.None? {
      return null;
    }
    cursor := new TableCursor(items.value, glob, Some(TrimEnd(TrimStart(path))));
  }

  /** `od_table_glob_open`: always recursive from the static directory. None is the error for
      a pattern without wildcards or for a failed listing. */
  method OpenGlob(lister: Lister, pattern: Str) returns (cursor: TableCursor?)
    ensures cursor == null <==> !HasWildcard(pattern) || lister(GlobRoot(pattern), true).None?
    ensures cursor != null ==>
              && fresh(cursor)
              && cursor.glob == Some(TrimStart(pattern))
              && cursor.self == Some(TrimEnd(TrimStart(GlobRoot(pattern))))
              && cursor.items == lister(GlobRoot(pattern), true).value
  {
    hide TrimStart, TrimEnd, HasWildcard, GlobRoot;
    if !HasWildcard(pattern) {
      return null;
    }
    cursor := OpenList(lister, GlobRoot(pattern), Some(TrimStart(pattern)), true);
  }

  function Rows(entries: seq<Entry>): (items: seq<Item>)
    ensures |items| == |entries| && forall i :: 0 <= i < |items| ==> items[i] == Row(entries[i])
  {
    seq(|entries|, i requires 0 <= i < |entries| => Row(entries[i]))
  }

  /** The files among the items a cursor yields. */
  ghost function FilesOf(items: seq<Item>): set<Str>
  {
    set item | item in items && item.Row? && !item.entry.isDir :: item.entry.path
  }

  lemma {:induction false} VisibleMembers(glob: Option<Str>, self: Option<Str>, items: seq<Item>, item: Item)
    ensures item in Visible(glob, self, items) <==>
            item in items && (item.Row? ==> Wanted(glob, self, item.entry.path))
  {
    if items != [] {
      VisibleMembers(glob, self, items[1..], item);
      assert items == [items[0]] + items[1..];
    }
  }

  /** Nothing is left out but the listed directory, under its name with or without a slash, and what
      does not match; the order is kept. */
  lemma {:induction false} VisibleMeans(glob: Option<Str>, self: Option<Str>, items: seq<Item>, item: Item)
    ensures Visible(glob, self, []) == []
    ensures var left :=
              && item.Row?
              && (|| (self.Some? && (item.entry.path == self.value || item.entry.path == self.value + [SLASH]))
                  || (glob.Some? && !Matches(glob.value, item.entry.path)));
            Visible(glob, self, items + [item]) == Visible(glob, self, items) + if left then [] else [item]
  {
    hide Matches;
    if items == [] {
      assert items + [item] == [item] && [item][1..] == [];
      if item.Row? && self.Some? {
        SelfMeans(self.value, item.entry.path);
      }
    } else {
      assert (items + [item])[1..] == items[1..] + [item];
      VisibleMeans(glob, self, items[1..], item);
    }
  }

  lemma SelfMeans(self: Str, path: Str)
    ensures IsSelf(Some(self), path) <==> path == self || path == self + [SLASH]
  {
    if path != [] && path[|path| - 1] == SLASH {
      assert path == path[..|path| - 1] + [SLASH];
    }
  }

  /** A matching file is never mistaken for the listed directory. */
  lemma SelfIsNoMatch(pattern: Str, path: Str)
    requires Normal(path) && Matches(TrimStart(pattern), path)
    ensures !IsSelf(Some(TrimEnd(TrimStart(GlobRoot(pattern)))), path)
  {
    hide Matches, TrimStart, TrimEnd, GlobRoot, SpaceInFront, SpaceAtEnd;
    MatchIsUnderRoot(pattern, path);
    var key := TrimStart(GlobRoot(pattern));
    var self := TrimEnd(key);
    assert self <= key <= path;
    KeyEndsInSlash(pattern);
    if key != [] {
      assert |self| < |key|;
    }
  }

  lemma KeyEndsInSlash(pattern: Str)
    ensures var key := TrimStart(GlobRoot(pattern)); key != [] ==> key[|key| - 1] == SLASH
  {
    hide TrimStart, StaticSlash;
  }

  /** The recursive cursor and the C++ search agree: on every store the files the cursor yields
      are exactly the matching ones. */
  lemma GlobPathsAgree(store: map<Str, Str>, pattern: Str, entries: seq<Entry>)
    requires NormalStore(store) && Covers(store, GlobRoot(pattern), true, entries)
    ensures FilesOf(Visible(Some(TrimStart(pattern)), Some(TrimEnd(TrimStart(GlobRoot(pattern)))), Rows(entries))) ==
            MatchingFiles(store, pattern)
  {
    hide *;
    var glob, self := Some(TrimStart(pattern)), Some(TrimEnd(TrimStart(GlobRoot(pattern))));
    var visible := Visible(glob, self, Rows(entries));
    forall path ensures path in FilesOf(visible) <==> path in MatchingFiles(store, pattern) {
      if path in FilesOf(visible) {
        YieldedMatches(store, pattern, entries, path);
      }
      if path in MatchingFiles(store, pattern) {
        MatchIsYielded(store, pattern, entries, path);
      }
    }
  }

  lemma YieldedMatches(store: map<Str, Str>, pattern: Str, entries: seq<Entry>, path: Str)
    requires Covers(store, GlobRoot(pattern), true, entries)
    requires path in FilesOf(Visible(Some(TrimStart(pattern)), Some(TrimEnd(TrimStart(GlobRoot(pattern)))), Rows(entries)))
    ensures path in MatchingFiles(store, pattern)
  {
    hide Matches, Under, IsSelf, Visible, TrimStart, TrimEnd, GlobRoot;
    var glob, self := Some(TrimStart(pattern)), Some(TrimEnd(TrimStart(GlobRoot(pattern))));
    var item :| item in Visible(glob, self, Rows(entries)) && item.Row? && !item.entry.isDir && item.entry.path == path;
    VisibleMembers(glob, self, Rows(entries), item);
    assert item.entry in entries;
  }

  lemma MatchIsYielded(store: map<Str, Str>, pattern: Str, entries: seq<Entry>, path: Str)
    requires NormalStore(store) && Covers(store, GlobRoot(pattern), true, entries)
    requires path in MatchingFiles(store, pattern)
    ensures path in FilesOf(Visible(Some(TrimStart(pattern)), Some(TrimEnd(TrimStart(GlobRoot(pattern)))), Rows(entries)))
  {
    hide Matches, Under, IsSelf, Visible, TrimStart, TrimEnd, GlobRoot;
    var glob, self := Some(TrimStart(pattern)), Some(TrimEnd(TrimStart(GlobRoot(pattern))));
    PruningIsComplete(pattern, path);
    SelfIsNoMatch(pattern, path);
    var entry := FileEntry(store, path);
    var i :| 0 <= i < |entries| && entries[i] == entry;
    assert Rows(entries)[i] == Row(entry);
    VisibleMembers(glob, self, Rows(entries), Row(entry));
  }

  // ---- Draining a cursor into output vectors ----

  datatype Chunk = Chunk(rows: seq<Entry>) | ScanError

  /** How many of the first `size` items come before the first error. */
  ghost function CleanRun(items: seq<Item>, size: nat): (n: nat)
    ensures n <= size && n <= |items|
    ensures forall i :: 0 <= i < n ==> items[i].Row?
    ensures n < size && n < |items| ==> items[n] == Broken
  {
    if size == 0 || items == [] || items[0].Broken? then 0 else 1 + CleanRun(items[1..], size - 1)
  }

  const NO_ENTRY := Entry([], false, 0)

  /** The entries of the items, with a placeholder for an error. */
  function EntriesOf(items: seq<Item>): (entries: seq<Entry>)
    ensures |entries| == |items|
    ensures forall i :: 0 <= i < |items| ==> entries[i] == if items[i].Row? then items[i].entry else NO_ENTRY
  {
    seq(|items|, i requires 0 <= i < |items| => if items[i].Row? then items[i].entry else NO_ENTRY)
  }

  /** Index of the first error, or the length when there is none. */
  ghost function FirstError(items: seq<Item>): (n: nat)
    ensures n <= |items|
    ensures forall i :: 0 <= i < n ==> items[i].Row?
    ensures n < |items| ==> items[n] == Broken
  {
    CleanRun(items, |items|)
  }

  class EntryScan {
    const cursor: TableCursor
    var finished: bool

    constructor (cursor: TableCursor)
      ensures this.cursor == cursor && !finished
    {
      this.cursor, finished := cursor, false;
    }

    ghost function Pending(): seq<Item>
      reads this, cursor
    {
      if finished then [] else cursor.Rest()
    }

    /** One scan callback with output vectors of `size` rows. */
    method Scan(size: nat) returns (chunk: Chunk)
      modifies this, cursor
      ensures var n := CleanRun(old(Pending()), size);
              if n < size && n < |old(Pending())| then
                chunk == ScanError && Pending() == old(Pending())[n + 1..]
              else
                chunk == Chunk(EntriesOf(old(Pending())[..n])) && Pending() == old(Pending())[n..]
      ensures old(finished) ==> finished && cursor.items == old(cursor.items)
    {
      if finished {
        return Chunk([]);
      }
      ghost var all := cursor.Rest();
      var rows: seq<Entry> := [];
      while |rows| < size
        invariant !finished && |rows| <= size && |rows| <= |all|
        invariant cursor.Rest() == all[|rows|..]
        invariant forall i :: 0 <= i < |rows| ==> all[i] == Row(rows[i])
      {
        var next := cursor.Next();
        CleanRunUnique(all, size, |rows|);
        match next
        case Error => return ScanError;
        case End =>
          finished := true;
          break;
        case Yield(entry) =>
          rows := rows + [entry];
      }
      CleanRunUnique(all, size, |rows|);
      chunk := Chunk(rows);
    }
  }

  lemma {:induction false} CleanRunUnique(items: seq<Item>, size: nat, n: nat)
    requires n <= size && n <= |items| && forall i :: 0 <= i < n ==> items[i].Row?
    ensures n == size || n == |items| || items[n].Broken? ==> CleanRun(items, size) == n
  {
    var m := CleanRun(items, size);
    assert n < m ==> items[n].Row?;
  }

  lemma CleanRunClips(items: seq<Item>, size: nat)
    ensures CleanRun(items, size) == Clip(size, FirstError(items))
  {
    CleanRunUnique(items, size, Clip(size, FirstError(items)));
  }

  lemma ErrorBehind(items: seq<Item>, n: nat)
    requires n <= FirstError(items)
    ensures FirstError(items) == n + FirstError(items[n..])
    ensures EntriesOf(items)[n..] == EntriesOf(items[n..]) && EntriesOf(items)[..n] == EntriesOf(items[..n])
  {
    CleanRunUnique(items, |items|, n + FirstError(items[n..]));
  }

  /** Any number of callbacks, up to the first that fails. As long as the first error is not
      reached they return the entries chunk by chunk; the callback that reaches it fails, and those
      before it have returned their chunks. */
  method ScanRun(scan: EntryScan, size: nat, calls: nat) returns (chunks: seq<seq<Entry>>, failed: bool)
    modifies scan, scan.cursor
    ensures var all := old(scan.Pending());
            var n, last := FirstError(all), Start(calls, size, |all|);
            && last <= |all|
            && (failed <==> n < last)
            && (!failed ==> chunks == Chunks(EntriesOf(all), size, calls) && scan.Pending() == all[last..])
            && (failed ==>
                  && chunks == Chunks(EntriesOf(all), size, |chunks|)
                  && Start(|chunks|, size, |all|) <= n < Start(|chunks| + 1, size, |all|))
    decreases calls
  {
    hide Start, Chunks, FirstError, CleanRun, Clip, EntriesOf;
    ghost var all := scan.Pending();
    ghost var n := Clip(size, |all|);
    StartNext(0, size, |all|);
    ClipIsFirst(size, |all|);
    ChunksNext(EntriesOf(all), size, 0);
    if calls == 0 {
      return [], false;
    }
    StartNext(calls - 1, size, |all|);
    StartOrder(calls - 1, size, |all| - n);
    FirstChunk(all, size);
    var chunk := scan.Scan(size);
    if chunk == ScanError {
      return [], true;
    }
    ErrorBehind(all, n);
    var rest;
    rest, failed := ScanRun(scan, size, calls - 1);
    chunks := [chunk.rows] + rest;
    ChunksNext(EntriesOf(all), size, |rest|);
    ChunksNext(EntriesOf(all), size, calls - 1);
    StartNext(|rest|, size, |all|);
    StartNext(|rest| + 1, size, |all|);
  }

  lemma FirstChunk(items: seq<Item>, size: nat)
    ensures var n, error := Clip(size, |items|), FirstError(items);
            && error <= |items|
            && CleanRun(items, size) == (if error < n then error else n)
            && (CleanRun(items, size) < size && CleanRun(items, size) < |items| <==> error < n)
  {
    CleanRunClips(items, size);
  }
}
