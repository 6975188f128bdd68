/** What the extension relies on from the storage layer: an object store as a finite map from
    paths to bytes, and listings of it in whatever order the service returns them. */
module Store {
  import opened Bytes
  import opened Spaces

  /** A path without empty segments. */
  ghost predicate Segmented(path: Str)
  {
    && path != [] && path[0] != SLASH && path[|path| - 1] != SLASH
    && forall i :: 0 <= i < |path| - 1 ==> !(path[i] == SLASH && path[i + 1] == SLASH)
  }

  /** An object path as the storage library keeps it: relative, without empty segments, and
      without whitespace at its ends. */
  ghost predicate Normal(path: Str)
  {
    Segmented(path) && SpaceInFront(path) == 0 && SpaceAtEnd(path) == 0
  }

  datatype Entry = Entry(path: Str, isDir: bool, size: nat)

  datatype Listing = Entries(entries: seq<Entry>) | NotFound | Failed

  ghost predicate NormalStore(store: map<Str, Str>)
  {
    forall path :: path in store ==> Normal(path)
  }

  // ---- How the storage library reads a path ----

  /** Empty segments are dropped. */
  function Fold(dir: Str): Str
  {
    if dir == [] then []
    else
      var n := |dir| - 1;
      var front := Fold(dir[..n]);
      if dir[n] == SLASH && (front == [] || front[|front| - 1] == SLASH) then front else front + [dir[n]]
  }

  /** The object a path names, or the prefix a listed directory stands for: whitespace is trimmed,
      then empty segments are dropped. `/` and the empty path are the root. */
  function Key(path: Str): Str
  {
    Fold(Trim(path))
  }

  lemma FoldSnoc(dir: Str, b: Byte)
    ensures Fold(dir + [b]) ==
            if b == SLASH && (Fold(dir) == [] || Fold(dir)[|Fold(dir)| - 1] == SLASH) then Fold(dir) else Fold(dir) + [b]
  {
    assert (dir + [b])[..|dir|] == dir;
  }

  /** The beginnings of paths have no empty segments to drop. */
  lemma {:induction false} FoldOfPrefix(prefix: Str, path: Str)
    requires Segmented(path) && prefix <= path
    ensures Fold(prefix) == prefix
  {
    if prefix != [] {
      var n := |prefix| - 1;
      assert prefix[n] == path[n] && (n > 0 ==> prefix[n - 1] == path[n - 1]);
      FoldOfPrefix(prefix[..n], path);
      assert prefix == prefix[..n] + [prefix[n]];
    }
  }

  lemma {:induction false} FoldOfRooted(dir: Str)
    ensures Fold(TrimStart(dir)) == Fold(dir)
  {
    if dir != [] && dir[0] == SLASH {
      FoldAfterSlash(dir[1..]);
      assert dir == [SLASH] + dir[1..];
      FoldOfRooted(dir[1..]);
    }
  }

  lemma {:induction false} FoldAfterSlash(dir: Str)
    ensures Fold([SLASH] + dir) == Fold(dir)
  {
    var s := [SLASH] + dir;
    var n := |s| - 1;
    if dir == [] {
      assert s[..n] == [];
    } else {
      assert s[..n] == [SLASH] + dir[..n - 1];
      FoldAfterSlash(dir[..n - 1]);
    }
  }

  /** Of two slashes side by side one is dropped, */
  lemma {:induction false} FoldOfTwoSlashes(a: Str, b: Str)
    ensures Fold(a + [SLASH, SLASH] + b) == Fold(a + [SLASH] + b)
    decreases |b|
  {
    hide Fold;
    if b == [] {
      assert a + [SLASH, SLASH] + b == (a + [SLASH]) + [SLASH] && a + [SLASH] + b == a + [SLASH];
      FoldSnoc(a, SLASH);
      FoldSnoc(a + [SLASH], SLASH);
    } else {
      var n := |b| - 1;
      FoldOfTwoSlashes(a, b[..n]);
      assert a + [SLASH, SLASH] + b == (a + [SLASH, SLASH] + b[..n]) + [b[n]];
      assert a + [SLASH] + b == (a + [SLASH] + b[..n]) + [b[n]];
      FoldSnoc(a + [SLASH, SLASH] + b[..n], b[n]);
      FoldSnoc(a + [SLASH] + b[..n], b[n]);
    }
  }

  /** and where there are none, nothing is. */
  lemma FoldOfSegmented(path: Str)
    requires Segmented(path)
    ensures Fold(path) == path && Fold(path + [SLASH]) == path + [SLASH]
  {
    hide Fold;
    FoldOfPrefix(path, path);
    FoldSnoc(path, SLASH);
  }

  lemma FoldKeepsSlash(dir: Str)
    ensures EndsInSlash(dir) ==> Fold(dir) == [] || EndsInSlash(Fold(dir))
  {
  }

  /** Paths, and the directories they lie in, are read as they stand. */
  lemma KeyOfPrefix(prefix: Str, path: Str)
    requires Normal(path) && prefix <= path && (prefix == [] || prefix == path || EndsInSlash(prefix))
    ensures Key(prefix) == prefix
  {
    hide Segmented, Fold, SpaceInFront, SpaceAtEnd, Trim;
    FoldOfPrefix(prefix, path);
    NoSpaceInPrefix(prefix, path);
    if prefix == [] {
      EmptyHasNoSpace();
    } else if prefix != path {
      NoSpaceAfterSlash(prefix);
    }
    NothingToTrim(prefix);
  }

  lemma EmptyHasNoSpace()
    ensures SpaceInFront([]) == 0 && SpaceAtEnd([]) == 0
  {
  }

  /** Leading slashes in front of such a directory change nothing. */
  lemma KeyOfRooted(dir: Str, path: Str)
    requires Normal(path) && TrimStart(dir) <= path && (dir == [] || EndsInSlash(dir))
    ensures Key(dir) == TrimStart(dir)
  {
    hide Segmented, Fold, SpaceInFront, SpaceAtEnd, Trim;
    FoldOfRooted(dir);
    FoldOfPrefix(TrimStart(dir), path);
    if dir == [] {
      EmptyHasNoSpace();
    } else {
      NoSpaceAfterSlash(dir);
      if dir[0] == SLASH {
        NoSpaceBeforeSlash(dir);
      } else {
        NoSpaceInPrefix(dir, path);
      }
    }
    NothingToTrim(dir);
  }

  lemma KeyOfDoubledSlash(dir: Str)
    requires dir == [] || EndsInSlash(dir)
    ensures Key(dir + [SLASH]) == Key(dir)
  {
    hide Trim, TrimFront, SpaceInFront, SpaceAtEnd;
    if dir == [] {
      NoSpaceBeforeSlash([SLASH]);
      NoSpaceAfterSlash([SLASH]);
      NothingToTrim([SLASH]);
      EmptyHasNoSpace();
      NothingToTrim([]);
      assert [SLASH][..0] == [] && dir + [SLASH] == [SLASH];
    } else {
      var trimmed := TrimFront(dir);
      TrimOfJoin(dir, []);
      assert dir + [] == dir && trimmed + [] == trimmed;
      TrimBeforeSlash(dir, [SLASH]);
      TrimOfJoin(dir + [SLASH], []);
      assert dir + [SLASH] + [] == dir + [SLASH] && (trimmed + [SLASH]) + [] == trimmed + [SLASH];
      FoldSnoc(trimmed, SLASH);
      FoldKeepsSlash(trimmed);
    }
  }

  /** `path` lies under `dir`, directly under it unless the listing is recursive. */
  ghost predicate Under(dir: Str, recursive: bool, path: Str)
  {
    Key(dir) <= path && (recursive || SLASH !in path[|Key(dir)|..])
  }

  function FileEntry(store: map<Str, Str>, path: Str): Entry
    requires path in store
  {
    Entry(path, false, |store[path]|)
  }

  /** The least a listing must do: list every file under the directory, and no file that does
      not exist. It may list more than was asked, in any order and more than once, and any
      directory entries. */
  ghost predicate Covers(store: map<Str, Str>, dir: Str, recursive: bool, entries: seq<Entry>)
  {
    && (forall e :: e in entries && !e.isDir ==> e.path in store && e == FileEntry(store, e.path))
    && (forall path :: path in store && Under(dir, recursive, path) ==> FileEntry(store, path) in entries)
  }

  ghost predicate Honest(store: map<Str, Str>, dir: Str, recursive: bool, listing: Listing)
  {
    match listing
    case Entries(entries) => Covers(store, dir, recursive, entries)
    case NotFound => forall path :: path in store ==> !Under(dir, recursive, path)
    case Failed => true
  }

  /** A recursive listing that keeps to its directory and repeats no file. */
  ghost predicate Exact(store: map<Str, Str>, dir: Str, listing: Listing)
  {
    listing.Entries? ==>
      && Covers(store, dir, true, listing.entries)
      && (forall e :: e in listing.entries && !e.isDir ==> Under(dir, true, e.path))
      && (forall i, j :: 0 <= i < j < |listing.entries| ==> listing.entries[i].path != listing.entries[j].path)
  }

  ghost function FilesUnder(store: map<Str, Str>, dir: Str): set<Str>
  {
    set path | path in store && Under(dir, true, path)
  }

  function DirBase(source: Str): Str
  {
    if source != [] && source[|source| - 1] == SLASH then source else source + [SLASH]
  }

  /** What a stat on a path reports. */
  datatype Metadata = FileOf(size: nat) | DirectoryOf | Unavailable
}
