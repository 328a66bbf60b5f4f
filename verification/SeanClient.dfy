/** lab6/others/Sean/client.cpp: all files are read into one buffer, end to end, and padded. A file size is kept
    in 16 bits, and no more bytes than that are read. */
module SeanClient {
  import opened SeanCodec
  import opened SeanLayout

  const SIZE_LIMIT: nat := 0x1_0000

  /** The size field of the metadata: the size of the file modulo 2^16. */
  function Sizes(files: seq<seq<int>>): (sizes: seq<nat>)
    ensures |sizes| == |files| + 1
  {
    seq(|files|, i requires 0 <= i < |files| => |files[i]| % SIZE_LIMIT) + [CHUNK_BUF]
  }

  /** The bytes of a file that are sent. */
  function Kept(file: seq<int>): seq<int> {
    file[..|file| % SIZE_LIMIT]
  }

  lemma KeptWhole(file: seq<int>)
    ensures Kept(file) == file <==> |file| < SIZE_LIMIT
  {
  }

  function Merge(files: seq<seq<int>>): seq<int> {
    if files == [] then [] else Merge(files[..|files| - 1]) + Kept(files[|files| - 1])
  }

  lemma {:induction false} MergeEnds(files: seq<seq<int>>, k: nat)
    requires k <= |files|
    ensures |Merge(files[..k])| == End(Sizes(files), k)
  {
    if k > 0 {
      MergeEnds(files, k - 1);
      assert files[..k][..k - 1] == files[..k - 1];
    }
  }

  lemma {:induction false} MergePrintable(files: seq<seq<int>>)
    requires forall f :: 0 <= f < |files| ==> Printable(files[f])
    ensures Printable(Merge(files))
  {
    if files != [] {
      MergePrintable(files[..|files| - 1]);
    }
  }

  lemma {:induction false} MergeSlice(files: seq<seq<int>>, f: nat)
    requires f < |files|
    ensures End(Sizes(files), f + 1) <= |Merge(files)|
    ensures Merge(files)[End(Sizes(files), f)..End(Sizes(files), f + 1)] == Kept(files[f])
    decreases |files|
  {
    MergeEnds(files, f);
    MergeEnds(files, |files| - 1);
    var front := files[..|files| - 1];
    if f < |files| - 1 {
      MergeSlice(front, f);
      SizesPrefix(files, f);
      SizesPrefix(files, f + 1);
      assert Merge(files)[..|Merge(front)|] == Merge(front);
    }
  }

  lemma {:induction false} SizesPrefix(files: seq<seq<int>>, k: nat)
    requires 0 < |files| && k <= |files| - 1
    ensures End(Sizes(files[..|files| - 1]), k) == End(Sizes(files), k)
  {
    if k > 0 {
      SizesPrefix(files, k - 1);
    }
  }

  const PAD: int := 0x41

  /** What the client has in its buffer: the files end to end, CHUNK_BUF letters, and old contents after them. */
  ghost predicate ClientBuffer(files: seq<seq<int>>, source: seq<int>) {
    && |files| == FILES - 1
    && |source| == ChunkCount(Sizes(files)) * CHUNK_BUF
    && Merge(files) + seq(CHUNK_BUF, _ => PAD) <= source
  }

  /** With printable files the buffer is a source as the server needs it, and its pieces are the files as
      far as they were kept. */
  lemma ClientBufferIsSource(files: seq<seq<int>>, source: seq<int>)
    requires ClientBuffer(files, source) && forall f :: 0 <= f < |files| ==> Printable(files[f])
    ensures IsSource(Sizes(files), source)
    ensures forall f :: 0 <= f < FILES - 1 ==> FileContent(Sizes(files), source, f) == Kept(files[f])
  {
    var sizes, merged, padding := Sizes(files), Merge(files), seq(CHUNK_BUF, _ => PAD);
    MergeEnds(files, |files|);
    assert files[..|files|] == files;
    MergePrintable(files);
    assert source[..End(sizes, FILES)] == merged + padding;
    forall f | 0 <= f < FILES - 1 ensures FileContent(sizes, source, f) == Kept(files[f]) {
      MergeSlice(files, f);
      EndMonotone(sizes, f, f + 1);
      assert merged <= source;
      assert source[End(sizes, f)..End(sizes, f + 1)] == merged[End(sizes, f)..End(sizes, f + 1)];
    }
  }

  lemma NextFile(files: seq<seq<int>>, k: nat)
    requires k < |files|
    ensures Sizes(files)[..k + 1] == Sizes(files)[..k] + [|files[k]| % SIZE_LIMIT]
    ensures End(Sizes(files), k + 1) == End(Sizes(files), k) + |files[k]| % SIZE_LIMIT
    ensures Merge(files[..k + 1]) == Merge(files[..k]) + files[k][..|files[k]| % SIZE_LIMIT]
  {
    assert files[..k + 1][..k] == files[..k];
  }

  /** The client's loop that reads all files into the buffer. */
  method ReadFiles(files: seq<seq<int>>, buffer: array<int>) returns (sizes: seq<nat>, p: nat)
    requires |files| == FILES - 1 && End(Sizes(files), FILES - 1) <= buffer.Length
    modifies buffer
    ensures sizes == Sizes(files)[..FILES - 1]
    ensures p == End(Sizes(files), FILES - 1) && buffer[..p] == Merge(files)
  {
    sizes := [];
    p := 0;
    for k := 0 to FILES - 1
      invariant sizes == Sizes(files)[..k]
      invariant p == End(Sizes(files), k) && p <= buffer.Length && buffer[..p] == Merge(files[..k])
    {
      EndMonotone(Sizes(files), k + 1, FILES - 1);
      NextFile(files, k);
      var size := |files[k]| % SIZE_LIMIT;
      sizes := sizes + [size];
      CopyTo(files[k][..size], buffer, p);
      p := p + size;
    }
    assert files[..FILES - 1] == files;
  }

  /** All files, and then the padding. */
  method MergeFiles(files: seq<seq<int>>, buffer: array<int>) returns (sizes: seq<nat>, chunks: nat)
    requires |files| == FILES - 1 && ChunkCount(Sizes(files)) * CHUNK_BUF <= buffer.Length
    modifies buffer
    ensures sizes == Sizes(files) && chunks == ChunkCount(sizes)
    ensures ClientBuffer(files, buffer[..chunks * CHUNK_BUF])
  {
    var p: nat;
    sizes, p := ReadFiles(files, buffer);
    sizes := sizes + [CHUNK_BUF];
    ghost var merged := buffer[..p];
    CopyTo(seq(CHUNK_BUF, _ => PAD), buffer, p);
    p := p + CHUNK_BUF;
    assert buffer[..p] == merged + seq(CHUNK_BUF, _ => PAD);
    chunks := p / CHUNK_BUF + 1;
    assert buffer[..p] <= buffer[..chunks * CHUNK_BUF];
  }

  /** One file of 65536 letters and 999 empty ones. */
  function LongFile(): (files: seq<seq<int>>)
    ensures |files| == FILES - 1
  {
    [seq(65536, _ => PAD)] + seq(FILES - 2, _ => [])
  }

  /** They meet every demand of the transfer, fit in two chunks, and nothing of the letters is sent. */
  lemma LongFileIsCut(source: seq<int>)
    requires source == seq(2 * CHUNK_BUF, _ => PAD)
    ensures ClientBuffer(LongFile(), source) && forall f :: 0 <= f < FILES - 1 ==> Printable(LongFile()[f])
    ensures ChunkCount(Sizes(LongFile())) == 2
    ensures Kept(LongFile()[0]) == [] != LongFile()[0]
  {
    var files := LongFile();
    NothingKept(files, FILES - 1);
    MergeEnds(files, FILES - 1);
    assert files[..FILES - 1] == files;
  }

  lemma {:induction false} NothingKept(files: seq<seq<int>>, k: nat)
    requires k <= |files| && forall f :: 0 <= f < |files| ==> |files[f]| % SIZE_LIMIT == 0
    ensures End(Sizes(files), k) == 0
    decreases k, files
  {
    if k > 0 {
      NothingKept(files, k - 1);
    }
  }

  method CopyTo(data: seq<int>, buffer: array<int>, at: nat)
    requires at + |data| <= buffer.Length
    modifies buffer
    ensures buffer[..at + |data|] == old(buffer[..at]) + data
  {
    for i := 0 to |data|
      invariant forall j :: 0 <= j < at ==> buffer[j] == old(buffer[j])
      invariant forall j :: 0 <= j < i ==> buffer[at + j] == data[j]
    {
      buffer[at + i] := data[i];
    }
  }
}
