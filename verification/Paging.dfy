/** Rows in output vectors: what a table function returns callback by callback. */
module Paging {
  function Clip(n: nat, limit: nat): nat
  {
    if n <= limit then n else limit
  }

  /** What repeated callbacks return on a stream without errors. */
  ghost function Chunks<T>(rows: seq<T>, size: nat, calls: nat): seq<seq<T>>
  {
    if calls == 0 then []
    else
      var n := Clip(size, |rows|);
      [rows[..n]] + Chunks(rows[n..], size, calls - 1)
  }

  lemma ChunksNext<T>(rows: seq<T>, size: nat, calls: nat)
    ensures Chunks(rows, size, 0) == []
    ensures var n := Clip(size, |rows|); Chunks(rows, size, calls + 1) == [rows[..n]] + Chunks(rows[n..], size, calls)
  {
  }

  lemma {:induction false} ChunksCount<T>(rows: seq<T>, size: nat, calls: nat)
    ensures |Chunks(rows, size, calls)| == calls
    decreases calls
  {
    hide Chunks, Clip;
    if calls == 0 {
      ChunksNext(rows, size, 0);
    } else {
      ChunksNext(rows, size, calls - 1);
      ClipIsFirst(size, |rows|);
      ChunksCount(rows[Clip(size, |rows|)..], size, calls - 1);
    }
  }

  function Flatten<T>(chunks: seq<seq<T>>): seq<T>
  {
    if chunks == [] then [] else chunks[0] + Flatten(chunks[1..])
  }

  /** How many of `total` rows come before chunk `k`. */
  function Start(k: nat, size: nat, total: nat): nat
  {
    Clip(k * size, total)
  }

  lemma StartNext(k: nat, size: nat, total: nat)
    ensures Start(0, size, total) == 0
    ensures var n := Clip(size, total); Start(k + 1, size, total) == n + Start(k, size, total - n)
  {
    assert (k + 1) * size == k * size + size;
  }

  lemma StartOrder(k: nat, size: nat, total: nat)
    ensures Start(k, size, total) <= Start(k + 1, size, total) <= total
  {
    assert (k + 1) * size == k * size + size;
  }

  lemma ClipIsFirst(size: nat, total: nat)
    ensures Clip(size, total) <= total && Start(1, size, total) == Clip(size, total)
  {
    StartNext(0, size, total);
    StartNext(0, size, total - Clip(size, total));
  }

  /** Chunk `k` is the slice of the rows from `k * size` to `(k + 1) * size`: full until the rows
      run out, empty afterwards. */
  lemma {:induction false} ChunkIsSlice<T>(rows: seq<T>, size: nat, calls: nat, k: nat)
    requires k < calls
    ensures |Chunks(rows, size, calls)| == calls
    ensures Start(k, size, |rows|) <= Start(k + 1, size, |rows|) <= |rows|
    ensures Chunks(rows, size, calls)[k] == rows[Start(k, size, |rows|)..Start(k + 1, size, |rows|)]
    decreases calls
  {
    hide Start;
    ChunksCount(rows, size, calls);
    StartOrder(k, size, |rows|);
    StartNext(k, size, |rows|);
    var n := Clip(size, |rows|);
    if k == 0 {
      StartNext(0, size, |rows| - n);
    } else {
      ChunkIsSlice(rows[n..], size, calls - 1, k - 1);
      StartNext(k - 1, size, |rows|);
    }
  }

  /** Paging neither loses, repeats nor reorders a row. */
  lemma {:induction false} PagingIsExact<T>(rows: seq<T>, size: nat, calls: nat)
    ensures Start(calls, size, |rows|) <= |rows|
    ensures Flatten(Chunks(rows, size, calls)) == rows[..Start(calls, size, |rows|)]
    decreases calls
  {
    hide Start, Clip, Chunks;
    StartOrder(calls, size, |rows|);
    if calls == 0 {
      StartNext(0, size, |rows|);
      ChunksNext(rows, size, 0);
    } else {
      var n := Clip(size, |rows|);
      ChunksNext(rows, size, calls - 1);
      ClipIsFirst(size, |rows|);
      PagingIsExact(rows[n..], size, calls - 1);
      StartNext(calls - 1, size, |rows|);
      var m := Start(calls - 1, size, |rows| - n);
      assert rows[..n] + rows[n..][..m] == rows[..n + m];
      assert Chunks(rows, size, calls)[1..] == Chunks(rows[n..], size, calls - 1);
    }
  }
}
