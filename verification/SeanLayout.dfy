/** How lab6/others/Sean lays 1000 files and a padding out in chunks: the two index tables, the countdown of
    each file and what the padding protects. */
module SeanLayout {
  import opened SeanCodec

  const FILES: nat := 1001
  const TABLE: nat := 10010

  /** The buffer position where file k starts, which is where file k - 1 ends. */
  function End(sizes: seq<nat>, k: nat): nat
    requires k <= |sizes|
  {
    if k == 0 then 0 else End(sizes, k - 1) + sizes[k - 1]
  }

  /** The first and the last chunk of file f. */
  function First(sizes: seq<nat>, f: nat): nat
    requires f < |sizes|
  {
    End(sizes, f) / CHUNK_BUF
  }

  function Last(sizes: seq<nat>, f: nat): nat
    requires f < |sizes|
  {
    End(sizes, f + 1) / CHUNK_BUF
  }

  /** No later file ends in the same chunk. */
  predicate LastEnder(sizes: seq<nat>, f: nat)
    requires f < |sizes|
  {
    f + 1 < |sizes| ==> Last(sizes, f + 1) != Last(sizes, f)
  }

  /** Every chunk of the interval of file f is in. */
  ghost predicate IntervalIn(sizes: seq<nat>, arrived: set<nat>, f: nat)
    requires f < |sizes|
  {
    forall i :: First(sizes, f) <= i <= Last(sizes, f) ==> i in arrived
  }

  /** Chunks in lo..hi-1 that have not arrived. */
  function MissingBetween(lo: nat, hi: nat, arrived: set<nat>): nat {
    if lo >= hi then 0 else MissingBetween(lo, hi - 1, arrived) + (if hi - 1 in arrived then 0 else 1)
  }

  /** The countdown of file f: its chunks before the last one still missing, and one more that only goes
      when the last chunk arrives and no later file ends in it. */
  function Remaining(sizes: seq<nat>, arrived: set<nat>, f: nat): nat
    requires f < |sizes|
  {
    MissingBetween(First(sizes, f), Last(sizes, f), arrived)
    + (if Last(sizes, f) in arrived && LastEnder(sizes, f) then 0 else 1)
  }

  lemma {:induction false} EndMonotone(sizes: seq<nat>, j: nat, k: nat)
    requires j <= k <= |sizes|
    ensures End(sizes, j) <= End(sizes, k) && End(sizes, j) / CHUNK_BUF <= End(sizes, k) / CHUNK_BUF
    decreases k
  {
    if j < k {
      EndMonotone(sizes, j, k - 1);
    }
  }

  lemma {:induction false} NoneMissing(lo: nat, hi: nat, arrived: set<nat>)
    ensures MissingBetween(lo, hi, arrived) == 0 <==> forall i :: lo <= i < hi ==> i in arrived
    decreases hi
  {
    if lo < hi {
      NoneMissing(lo, hi - 1, arrived);
      if forall i :: lo <= i < hi - 1 ==> i in arrived {
        assert hi - 1 in arrived <==> forall i :: lo <= i < hi ==> i in arrived;
      }
    }
  }

  lemma {:induction false} MissingAfter(lo: nat, hi: nat, arrived: set<nat>, i: nat)
    requires i !in arrived
    ensures MissingBetween(lo, hi, arrived + {i})
         == MissingBetween(lo, hi, arrived) - (if lo <= i < hi then 1 else 0)
    decreases hi
  {
    if lo < hi {
      MissingAfter(lo, hi - 1, arrived, i);
    }
  }

  /** Main result on the countdown: it is zero exactly when every chunk of the file's interval is in and no
      later file ends in the last of them. */
  lemma ZeroIffComplete(sizes: seq<nat>, arrived: set<nat>, f: nat)
    requires f < |sizes|
    ensures Remaining(sizes, arrived, f) == 0 <==> LastEnder(sizes, f) && IntervalIn(sizes, arrived, f)
  {
    EndMonotone(sizes, f, f + 1);
    NoneMissing(First(sizes, f), Last(sizes, f), arrived);
  }

  /** A layout where it matters: two small files end in one chunk, everything is in, and the first countdown is
      not zero. */
  lemma SmallFileWaits(sizes: seq<nat>)
    requires sizes == [10, 20] + seq(FILES - 3, _ => 0) + [CHUNK_BUF]
    ensures ChunkCount(sizes) == 2 && IntervalIn(sizes, {0, 1}, 0) && Remaining(sizes, {0, 1}, 0) != 0
  {
    assert End(sizes, 1) == 10 && End(sizes, 2) == 30;
    NothingAdded(sizes, 2, FILES - 1);
    ZeroIffComplete(sizes, {0, 1}, 0);
  }

  lemma {:induction false} NothingAdded(sizes: seq<nat>, j: nat, k: nat)
    requires j <= k <= |sizes| && forall f :: j <= f < k ==> sizes[f] == 0
    ensures End(sizes, k) == End(sizes, j)
    decreases k, j, sizes
  {
    if j < k {
      NothingAdded(sizes, j, k - 1);
    }
  }

  ghost predicate BigFiles(sizes: seq<nat>) {
    forall k :: 0 <= k < |sizes| ==> sizes[k] >= CHUNK_BUF
  }

  /** When every file has at least CHUNK_BUF bytes no two files end in one chunk, and the countdown is the number
      of missing chunks. */
  lemma BigFilesCountExactly(sizes: seq<nat>, arrived: set<nat>, f: nat)
    requires f < |sizes| && BigFiles(sizes)
    ensures LastEnder(sizes, f)
    ensures Remaining(sizes, arrived, f) == MissingBetween(First(sizes, f), Last(sizes, f) + 1, arrived)
  {
    EndMonotone(sizes, f, f + 1);
    if f + 1 < |sizes| {
      assert End(sizes, f + 2) >= End(sizes, f + 1) + CHUNK_BUF;
    }
  }

  lemma RemainingAfter(sizes: seq<nat>, arrived: set<nat>, f: nat, i: nat)
    requires f < |sizes| && i !in arrived
    ensures Remaining(sizes, arrived + {i}, f)
         == Remaining(sizes, arrived, f) - (if First(sizes, f) <= i < Last(sizes, f) then 1 else 0)
                                         - (if i == Last(sizes, f) && LastEnder(sizes, f) then 1 else 0)
  {
    MissingAfter(First(sizes, f), Last(sizes, f), arrived, i);
  }

  // ---- the two index tables ----

  /** idx2file[i][0] after k files: 1 + the file that runs past the end of chunk i. */
  function Spanner(sizes: seq<nat>, k: nat, i: nat): nat
    requires k <= |sizes|
  {
    if k == 0 then 0
    else if First(sizes, k - 1) <= i < Last(sizes, k - 1) then k
    else Spanner(sizes, k - 1, i)
  }

  /** idx2file[i][1] after k files: 1 + the last file that ends in chunk i. */
  function Ender(sizes: seq<nat>, k: nat, i: nat): nat
    requires k <= |sizes|
  {
    if k == 0 then 0 else if Last(sizes, k - 1) == i then k else Ender(sizes, k - 1, i)
  }

  lemma {:induction false} SpannerFinds(sizes: seq<nat>, k: nat, i: nat, f: nat)
    requires k <= |sizes| && f < |sizes|
    ensures Spanner(sizes, k, i) <= k
    ensures Spanner(sizes, k, i) == f + 1 <==> f < k && First(sizes, f) <= i < Last(sizes, f)
    decreases k
  {
    if k > 0 {
      SpannerFinds(sizes, k - 1, i, f);
      if f < k - 1 {
        EndMonotone(sizes, f + 1, k - 1);
      }
    }
  }

  lemma {:induction false} EnderFinds(sizes: seq<nat>, k: nat, i: nat, f: nat)
    requires k <= |sizes| && f < |sizes|
    ensures Ender(sizes, k, i) <= k
    ensures Ender(sizes, k, i) == f + 1 <==>
      f < k && Last(sizes, f) == i && (f + 1 < k ==> Last(sizes, f + 1) != i)
    decreases k
  {
    if k > 0 {
      EnderFinds(sizes, k - 1, i, f);
      if f + 1 < k {
        EndMonotone(sizes, f + 1, f + 2);
        EndMonotone(sizes, f + 2, k);
      }
    }
  }

  // ---- the buffer ----

  /** Bytes of the 1000 real files; the last entry of the metadata is the padding. */
  function RealBytes(sizes: seq<nat>): nat
    requires |sizes| == FILES
  {
    End(sizes, FILES - 1)
  }

  function ChunkCount(sizes: seq<nat>): (n: nat)
    requires |sizes| == FILES
    ensures n > 0
  {
    End(sizes, FILES) / CHUNK_BUF + 1
  }

  /** The client's buffer: printable file bytes, CHUNK_BUF letters, and nothing known after them. */
  ghost predicate IsSource(sizes: seq<nat>, source: seq<int>) {
    && |sizes| == FILES && sizes[FILES - 1] == CHUNK_BUF
    && |source| == ChunkCount(sizes) * CHUNK_BUF
    && Printable(source[..End(sizes, FILES)])
  }

  /** The padding keeps every real byte out of the last chunk, and every earlier chunk is printable. */
  lemma PaddingProtects(sizes: seq<nat>, source: seq<int>, k: nat)
    requires IsSource(sizes, source) && k < ChunkCount(sizes)
    ensures (k + 1) * CHUNK_BUF <= |source|
    ensures k < ChunkCount(sizes) - 1 ==> Printable(source[k * CHUNK_BUF..(k + 1) * CHUNK_BUF])
    ensures k == ChunkCount(sizes) - 1 ==> RealBytes(sizes) < k * CHUNK_BUF
  {
    var total := End(sizes, FILES);
    assert total == RealBytes(sizes) + CHUNK_BUF;
    if k < ChunkCount(sizes) - 1 {
      assert (k + 1) * CHUNK_BUF <= total;
      assert forall p :: k * CHUNK_BUF <= p < (k + 1) * CHUNK_BUF ==> source[p] == source[..total][p];
    }
  }

  /** The bytes of file f in the client's buffer. */
  ghost function FileContent(sizes: seq<nat>, source: seq<int>, f: nat): seq<int>
    requires IsSource(sizes, source) && f < FILES
  {
    EndMonotone(sizes, f, f + 1);
    EndMonotone(sizes, f + 1, FILES);
    source[End(sizes, f)..End(sizes, f + 1)]
  }
}
