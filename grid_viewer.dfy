// The pure parts of the grid view: which directory entries are shown, and
// how the list of image paths is cut into batches of 16 for thumbnail
// loading.  The supported extensions are a parameter.
module GridViewer {
  import opened Common

  datatype DirEntry = DirEntry(name: string, isFile: bool)

  const ChunkSize: nat := 16

  // ---------------------------------------------------------------------
  // Chunking

  function Min(a: nat, b: nat): nat {
    if a <= b then a else b
  }

  /**
   * `createChunks`: consecutive slices of `chunkSize` elements, the last one
   * possibly shorter; the i-th chunk is `array.slice(i * k, (i + 1) * k)`.
   */
  function CreateChunks<T>(items: seq<T>, k: nat): (chunks: seq<seq<T>>)
    requires k > 0
    ensures |items| == 0 <==> |chunks| == 0
    decreases |items|
  {
    if |items| == 0 then []
    else [items[..Min(k, |items|)]] + CreateChunks(items[Min(k, |items|)..], k)
  }

  function Flatten<T>(chunks: seq<seq<T>>): seq<T> {
    if |chunks| == 0 then [] else chunks[0] + Flatten(chunks[1..])
  }

  /** Concatenating the chunks gives the items back. */
  lemma {:induction false} FlattenChunks<T>(items: seq<T>, k: nat)
    requires k > 0
    ensures Flatten(CreateChunks(items, k)) == items
    decreases |items|
  {
    if |items| > 0 {
      var m := Min(k, |items|);
      FlattenChunks(items[m..], k);
      assert CreateChunks(items, k)[1..] == CreateChunks(items[m..], k);
      assert items == items[..m] + items[m..];
    }
  }

  /** Every chunk but the last is full; the last is non-empty and at most full. */
  lemma {:induction false} ChunkLengths<T>(items: seq<T>, k: nat)
    requires k > 0
    ensures var chunks := CreateChunks(items, k);
      (forall i :: 0 <= i < |chunks| - 1 ==> |chunks[i]| == k) &&
      (|chunks| > 0 ==> 0 < |chunks[|chunks| - 1]| <= k)
    decreases |items|
  {
    if |items| > 0 {
      var m := Min(k, |items|);
      var chunks := CreateChunks(items, k);
      var rest := CreateChunks(items[m..], k);
      ChunkLengths(items[m..], k);
      assert chunks[1..] == rest;
      forall i | 0 <= i < |chunks| - 1 ensures |chunks[i]| == k {
        if i > 0 {
          assert chunks[i] == rest[i - 1];
        } else {
          assert |rest| > 0;
        }
      }
    }
  }

  /** There are ceil(|items| / k) chunks: enough to hold the items, one fewer would not be. */
  lemma {:induction false} ChunkCount<T>(items: seq<T>, k: nat)
    requires k > 0
    ensures var n := |CreateChunks(items, k)|;
      (n - 1) * k < |items| <= n * k || (n == 0 && |items| == 0)
    decreases |items|
  {
    if |items| > 0 {
      var m := Min(k, |items|);
      var n := |CreateChunks(items, k)|;
      ChunkCount(items[m..], k);
      assert n == 1 + |CreateChunks(items[m..], k)|;
      assert n * k == k + (n - 1) * k;
      assert (n - 1) * k == k + (n - 2) * k || n == 1;
    }
  }

  /** The i-th chunk is the slice the source takes with `slice(i * k, (i + 1) * k)`. */
  lemma {:induction false} ChunkIsSlice<T>(items: seq<T>, k: nat, i: nat)
    requires k > 0 && i < |CreateChunks(items, k)|
    ensures i * k <= |items|
    ensures CreateChunks(items, k)[i] == items[i * k..Min((i + 1) * k, |items|)]
    decreases |items|
  {
    var m := Min(k, |items|);
    if i > 0 {
      ChunkIsSlice(items[m..], k, i - 1);
      assert CreateChunks(items, k)[i] == CreateChunks(items[m..], k)[i - 1];
      assert i * k == k + (i - 1) * k;
      assert (i + 1) * k == k + i * k;
      assert m == k;
      assert items[m..][(i - 1) * k..Min(i * k, |items| - m)] == items[i * k..Min((i + 1) * k, |items|)];
    }
  }

  // ---------------------------------------------------------------------
  // Entry filter

  /** The text after the last '.', the whole name when there is none (`split(".").at(-1)`). */
  function LastDotPiece(name: string): string {
    var parts := Split(name, ".");
    parts[|parts| - 1]
  }

  /** The filter of `connectedCallback`: a file whose lower-cased last piece is a non-empty supported extension. */
  predicate IsGridImageEntry(e: DirEntry, supportedExts: seq<string>) {
    var ext := ToLower(LastDotPiece(e.name));
    e.isFile && ext != "" && exists k :: 0 <= k < |supportedExts| && supportedExts[k] == ext
  }

  /** The last piece is the text after the last dot, or the whole name without a dot. */
  lemma LastDotPieceIs(name: string)
    ensures LastIndexOf(name, '.').None? ==> LastDotPiece(name) == name
    ensures LastIndexOf(name, '.').Some? ==> LastDotPiece(name) == name[LastIndexOf(name, '.').value + 1..]
  {
    SplitAtLast(name, '.');
  }

  /** A dotted name passes iff it is a file whose lower-cased extension is supported. */
  lemma GridFilterDotted(stem: string, ext: string, isFile: bool, supportedExts: seq<string>)
    requires forall k :: 0 <= k < |ext| ==> ext[k] != '.'
    ensures IsGridImageEntry(DirEntry(stem + "." + ext, isFile), supportedExts) <==>
      isFile && ext != "" && ToLower(ext) in supportedExts
  {
    var name := stem + "." + ext;
    LastIndexOfIs(name, '.', |stem|);
    LastDotPieceIs(name);
    assert name[|stem| + 1..] == ext;
  }

  /** A name without a dot counts as its own extension. */
  lemma GridFilterDotless(name: string, isFile: bool, supportedExts: seq<string>)
    requires forall k :: 0 <= k < |name| ==> name[k] != '.'
    ensures IsGridImageEntry(DirEntry(name, isFile), supportedExts) <==>
      isFile && name != "" && ToLower(name) in supportedExts
  {
    LastDotPieceIs(name);
  }

  /** The batches the grid loads: chunks of 16 paths that together are the path list. */
  lemma GridBatches(paths: seq<string>)
    ensures Flatten(CreateChunks(paths, ChunkSize)) == paths
    ensures forall i :: 0 <= i < |CreateChunks(paths, ChunkSize)| ==> 0 < |CreateChunks(paths, ChunkSize)[i]| <= 16
  {
    FlattenChunks(paths, ChunkSize);
    ChunkLengths(paths, ChunkSize);
  }
}
