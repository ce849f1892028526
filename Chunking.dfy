/** Chunk planning: `chunkPages` (node-ocr) and `_chunk_pages` (python-ocr) cut the
    pages `1..totalPages` into consecutive inclusive ranges of `chunkSize` pages,
    the last one possibly shorter. */
module Chunking {
  import opened Wrappers
  import opened ClassifyTypes

  function Min(a: int, b: int): int {
    if a <= b then a else b
  }

  /** The number of ranges, `ceil(totalPages / chunkSize)`. */
  function ChunkCount(totalPages: nat, chunkSize: int): nat
    requires chunkSize >= 1
  {
    (totalPages + chunkSize - 1) / chunkSize
  }

  /** Reference definition: range `i` starts at `1 + i * chunkSize` and ends
      `chunkSize - 1` pages later, clipped to `totalPages`. */
  function PlannedChunks(totalPages: nat, chunkSize: int): seq<PageRange>
    requires chunkSize >= 1
  {
    seq(ChunkCount(totalPages, chunkSize),
        i requires 0 <= i < ChunkCount(totalPages, chunkSize) =>
          (1 + i * chunkSize, Min(i * chunkSize + chunkSize, totalPages)))
  }

  lemma MulMonotone(a: int, b: int, c: int)
    requires a <= b && c >= 0
    ensures a * c <= b * c
  {
    assert b * c - a * c == (b - a) * c;
  }

  /** `k` is below the count exactly when range `k` still starts inside the document. */
  lemma BelowCount(k: nat, totalPages: nat, chunkSize: int)
    requires chunkSize >= 1
    ensures k < ChunkCount(totalPages, chunkSize) <==> k * chunkSize < totalPages
  {
    var x := totalPages + chunkSize - 1;
    var q, r := x / chunkSize, x % chunkSize;
    assert x == q * chunkSize + r && 0 <= r < chunkSize;
    if k < q {
      MulMonotone(k + 1, q, chunkSize);
    } else {
      MulMonotone(q, k, chunkSize);
    }
  }

  /** The count is the least number of full-size ranges that reach `totalPages`. */
  lemma CountReaches(totalPages: nat, chunkSize: int)
    requires chunkSize >= 1
    ensures ChunkCount(totalPages, chunkSize) * chunkSize >= totalPages
  {
    var x := totalPages + chunkSize - 1;
    assert x == (x / chunkSize) * chunkSize + x % chunkSize;
  }

  /** The loop of `chunkPages`: starting at page 1, emit `[start, min(start + chunkSize - 1,
      totalPages)]` and advance `start` by `chunkSize` while `start <= totalPages`. An
      empty document stops at once whatever the size; a non-empty one needs a
      positive size for the loop to end. */
  method ChunkPages(totalPages: nat, chunkSize: int) returns (chunks: seq<PageRange>)
    requires chunkSize >= 1 || totalPages == 0
    ensures chunkSize >= 1 ==> chunks == PlannedChunks(totalPages, chunkSize)
    ensures totalPages == 0 ==> chunks == []
  {
    chunks := [];
    var start := 1;
    while start <= totalPages
      invariant chunkSize >= 1 || (start == 1 && chunks == [])
      invariant chunkSize >= 1 ==> start == 1 + |chunks| * chunkSize
      invariant chunkSize >= 1 ==> |chunks| <= ChunkCount(totalPages, chunkSize)
      invariant chunkSize >= 1 ==> chunks == PlannedChunks(totalPages, chunkSize)[..|chunks|]
      decreases totalPages - start
    {
      BelowCount(|chunks|, totalPages, chunkSize);
      var end := Min(start + chunkSize - 1, totalPages);
      chunks := chunks + [(start, end)];
      start := start + chunkSize;
    }
    if chunkSize >= 1 {
      BelowCount(|chunks|, totalPages, chunkSize);
    }
  }

  /** What the plan promises: no ranges for an empty document; otherwise the first
      range starts at page 1, each next range starts right after the previous one
      ends, the last one ends at `totalPages`; every range is non-empty and at most
      `chunkSize` long, and all but the last are exactly `chunkSize` long. */
  ghost predicate Tiles(chunks: seq<PageRange>, totalPages: nat, chunkSize: int) {
    && (chunks == [] <==> totalPages == 0)
    && (chunks != [] ==> chunks[0].0 == 1 && chunks[|chunks| - 1].1 == totalPages)
    && (forall i :: 0 <= i < |chunks| - 1 ==> chunks[i + 1].0 == chunks[i].1 + 1)
    && (forall i :: 0 <= i < |chunks| ==> chunks[i].0 <= chunks[i].1 && chunks[i].1 - chunks[i].0 + 1 <= chunkSize)
    && (forall i :: 0 <= i < |chunks| - 1 ==> chunks[i].1 - chunks[i].0 + 1 == chunkSize)
  }

  lemma PlannedChunksTile(totalPages: nat, chunkSize: int)
    requires chunkSize >= 1
    ensures Tiles(PlannedChunks(totalPages, chunkSize), totalPages, chunkSize)
  {
    var r, n := PlannedChunks(totalPages, chunkSize), ChunkCount(totalPages, chunkSize);
    BelowCount(0, totalPages, chunkSize);
    forall i | 0 <= i < n
      ensures r[i].0 <= r[i].1 && r[i].1 - r[i].0 + 1 <= chunkSize
      ensures i < n - 1 ==> r[i].1 == (i + 1) * chunkSize
    {
      BelowCount(i, totalPages, chunkSize);
      BelowCount(i + 1, totalPages, chunkSize);
    }
    if n > 0 {
      CountReaches(totalPages, chunkSize);
      assert r[n - 1].1 == totalPages;
    }
  }

  /** The number of ranges is `ceil(totalPages / chunkSize)`: all but the last range
      fall short of `totalPages`, and the ranges together reach it. */
  lemma ChunkCountIsCeiling(totalPages: nat, chunkSize: int)
    requires chunkSize >= 1
    ensures var n := |PlannedChunks(totalPages, chunkSize)|;
      (n - 1) * chunkSize < totalPages <= n * chunkSize || (n == 0 && totalPages == 0)
  {
    var n := ChunkCount(totalPages, chunkSize);
    CountReaches(totalPages, chunkSize);
    if n > 0 {
      BelowCount(n - 1, totalPages, chunkSize);
    } else {
      BelowCount(0, totalPages, chunkSize);
    }
  }

  /** Page `p` lies in one of the ranges. */
  ghost predicate Covered(chunks: seq<PageRange>, p: int) {
    exists i :: 0 <= i < |chunks| && chunks[i].0 <= p <= chunks[i].1
  }

  /** Page `p` of the document lies in range `(p - 1) / chunkSize`. */
  lemma RangeOfPage(p: int, totalPages: nat, chunkSize: int)
    requires chunkSize >= 1 && 1 <= p <= totalPages
    ensures var i := (p - 1) / chunkSize;
      0 <= i < ChunkCount(totalPages, chunkSize)
      && 1 + i * chunkSize <= p <= Min(i * chunkSize + chunkSize, totalPages)
  {
    var i := (p - 1) / chunkSize;
    assert p - 1 == i * chunkSize + (p - 1) % chunkSize;
    BelowCount(i, totalPages, chunkSize);
  }

  /** The ranges cover exactly the pages `1..totalPages`. */
  lemma PlannedChunksCover(totalPages: nat, chunkSize: int)
    requires chunkSize >= 1
    ensures forall p :: Covered(PlannedChunks(totalPages, chunkSize), p) <==> 1 <= p <= totalPages
  {
    var r := PlannedChunks(totalPages, chunkSize);
    forall p
      ensures Covered(r, p) <==> 1 <= p <= totalPages
    {
      if 1 <= p <= totalPages {
        var i := (p - 1) / chunkSize;
        RangeOfPage(p, totalPages, chunkSize);
        assert r[i].0 <= p <= r[i].1;
      }
      if Covered(r, p) {
        var i :| 0 <= i < |r| && r[i].0 <= p <= r[i].1;
        MulMonotone(0, i, chunkSize);
      }
    }
  }

  /** The ranges do not overlap: each ends before any later one starts. */
  lemma PlannedChunksDisjoint(totalPages: nat, chunkSize: int)
    requires chunkSize >= 1
    ensures var r := PlannedChunks(totalPages, chunkSize);
      forall i, j :: 0 <= i < j < |r| ==> r[i].1 < r[j].0
  {
    var r := PlannedChunks(totalPages, chunkSize);
    forall i, j | 0 <= i < j < |r|
      ensures r[i].1 < r[j].0
    {
      MulMonotone(i + 1, j, chunkSize);
    }
  }

  /** A document no longer than one chunk is planned as the single range `[1, totalPages]`. */
  lemma SmallDocumentOneChunk(totalPages: nat, chunkSize: int)
    requires 1 <= totalPages <= chunkSize
    ensures PlannedChunks(totalPages, chunkSize) == [(1, totalPages)]
  {
    BelowCount(1, totalPages, chunkSize);
    BelowCount(0, totalPages, chunkSize);
  }

  /** `_chunk_pages` iterates `range(1, totalPages + 1, chunkSize)`: a zero step is an
      error, a negative step gives an empty range (it counts down from 1 and never
      reaches `totalPages + 1`), and a positive step gives the same ranges as `chunkPages`. */
  method ChunkPagesPy(totalPages: nat, chunkSize: int) returns (r: Result<seq<PageRange>>)
    ensures chunkSize == 0 <==> r == Err("range() arg 3 must not be zero")
    ensures chunkSize < 0 ==> r == Ok([])
    ensures chunkSize >= 1 ==> r == Ok(PlannedChunks(totalPages, chunkSize))
  {
    if chunkSize == 0 {
      return Err("range() arg 3 must not be zero");
    } else if chunkSize < 0 {
      return Ok([]);
    }
    var chunks := ChunkPages(totalPages, chunkSize);
    r := Ok(chunks);
  }

  /** A 150-page document in chunks of 75 is planned as `[1, 75]` and `[76, 150]`. */
  lemma TwoChunkPlan()
    ensures PlannedChunks(150, 75) == [(1, 75), (76, 150)]
  {
    assert ChunkCount(150, 75) == 2;
  }
}
