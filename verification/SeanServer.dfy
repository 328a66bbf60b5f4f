/** lab6/others/Sean/server.cpp: chunks of one long buffer arrive in any order; two index tables and one
    countdown per file decide when a file is written. Both metadata packets have come first. */
module SeanServer {
  import opened Counting
  import opened SeanCodec
  import opened SeanLayout
  import opened SeanSender

  /** Real bytes of arrived chunks are in place. */
  ghost predicate BufferHolds(sizes: seq<nat>, source: seq<int>, arrived: set<nat>, buffer: seq<int>)
    requires IsSource(sizes, source) && |buffer| >= |source|
  {
    RealBytes(sizes) <= |source|
    && forall p: nat :: p < RealBytes(sizes) && p / CHUNK_BUF in arrived ==> buffer[p] == source[p]
  }

  lemma CompleteContent(sizes: seq<nat>, source: seq<int>, arrived: set<nat>, buffer: seq<int>, f: nat)
    requires IsSource(sizes, source) && |buffer| >= |source| && BufferHolds(sizes, source, arrived, buffer)
    requires f < FILES - 1 && IntervalIn(sizes, arrived, f)
    ensures End(sizes, f) <= End(sizes, f + 1) <= |buffer|
    ensures buffer[End(sizes, f)..End(sizes, f + 1)] == FileContent(sizes, source, f)
  {
    EndMonotone(sizes, f, f + 1);
    EndMonotone(sizes, f + 1, FILES - 1);
    forall p: nat | End(sizes, f) <= p < End(sizes, f + 1) ensures buffer[p] == source[p] {
      assert p / CHUNK_BUF in arrived;
    }
  }

  /** The unpacked chunk k agrees with the source at every real byte. */
  ghost predicate ChunkRight(sizes: seq<nat>, source: seq<int>, k: nat, chunk: seq<int>)
    requires |sizes| == FILES
  {
    && |chunk| == CHUNK_BUF && (k + 1) * CHUNK_BUF <= |source|
    && forall i :: 0 <= i < CHUNK_BUF && k * CHUNK_BUF + i < RealBytes(sizes) ==> chunk[i] == source[k * CHUNK_BUF + i]
  }

  lemma CopiedChunkRight(sizes: seq<nat>, source: seq<int>, k: nat, chunk: seq<int>)
    requires IsSource(sizes, source) && k < ChunkCount(sizes) && |chunk| == CHUNK_BUF
    requires (k + 1) * CHUNK_BUF <= |source|
    requires k < ChunkCount(sizes) - 1 ==> chunk == source[k * CHUNK_BUF..(k + 1) * CHUNK_BUF]
    ensures ChunkRight(sizes, source, k, chunk)
  {
    PaddingProtects(sizes, source, k);
  }

  lemma GenuineDecodes(sizes: seq<nat>, source: seq<int>, p: Packet)
    requires IsSource(sizes, source) && Genuine(sizes, source, p) && p.index < ChunkCount(sizes) - 1
    ensures DecodeChunk(p.content) == source[p.index * CHUNK_BUF..(p.index + 1) * CHUNK_BUF]
  {
    PaddingProtects(sizes, source, p.index);
    EncodedComesBack(p.content, source[p.index * CHUNK_BUF..(p.index + 1) * CHUNK_BUF]);
  }

  lemma EncodedComesBack(content: seq<int>, chunk: seq<int>)
    requires |chunk| == CHUNK_BUF && Printable(chunk) && content == EncodeChunk(chunk)
    ensures DecodeChunk(content) == chunk
  {
    ChunkRoundTrip(chunk);
  }

  /** The packet unpacks to the real bytes of its chunk in `source`. */
  ghost predicate Brings(sizes: seq<nat>, source: seq<int>, p: Packet)
    requires |sizes| == FILES
  {
    && p.index < ChunkCount(sizes)
    && |p.content| == CHUNK_PKT && AreDigits(256, p.content)
    && ChunkRight(sizes, source, p.index, DecodeChunk(p.content))
  }

  lemma GenuineBrings(sizes: seq<nat>, source: seq<int>, p: Packet)
    requires IsSource(sizes, source) && Genuine(sizes, source, p)
    ensures Brings(sizes, source, p)
  {
    if p.index < ChunkCount(sizes) - 1 {
      GenuineDecodes(sizes, source, p);
    }
    CopiedChunkRight(sizes, source, p.index, DecodeChunk(p.content));
  }

  lemma UnpackedHolds(sizes: seq<nat>, source: seq<int>, arrived: set<nat>, before: seq<int>, k: nat, chunk: seq<int>)
    requires IsSource(sizes, source) && |before| >= |source| && BufferHolds(sizes, source, arrived, before)
    requires ChunkRight(sizes, source, k, chunk)
    ensures BufferHolds(sizes, source, arrived + {k}, Spliced(before, chunk, k * CHUNK_BUF))
  {
    var after := Spliced(before, chunk, k * CHUNK_BUF);
    forall q: nat | q < RealBytes(sizes) && q / CHUNK_BUF in arrived + {k} ensures after[q] == source[q] {
      var i := q - k * CHUNK_BUF;
      if 0 <= i < CHUNK_BUF {
        assert chunk[i] == source[k * CHUNK_BUF + i];
      } else {
        assert q / CHUNK_BUF != k;
      }
    }
  }

  lemma StartCountdowns(sizes: seq<nat>)
    ensures forall f :: 0 <= f < |sizes| ==> Remaining(sizes, {}, f) == Last(sizes, f) - First(sizes, f) + 1 > 0
  {
    forall f | 0 <= f < |sizes| ensures Remaining(sizes, {}, f) == Last(sizes, f) - First(sizes, f) + 1 > 0 {
      EndMonotone(sizes, f, f + 1);
      NothingArrived(First(sizes, f), Last(sizes, f));
    }
  }

  /** The countdowns, the files written, and how often each was written. */
  datatype Tally = Tally(rem: seq<int>, disk: map<nat, seq<int>>, writes: multiset<nat>)

  /** All of it follows from the set of arrived chunks. */
  ghost predicate FileTallied(sizes: seq<nat>, source: seq<int>, arrived: set<nat>, t: Tally, f: nat)
    requires IsSource(sizes, source) && f < FILES == |t.rem|
  {
    && t.rem[f] == Remaining(sizes, arrived, f)
    && (f in t.disk <==> t.rem[f] == 0)
    && (f in t.disk && f < FILES - 1 ==> t.disk[f] == FileContent(sizes, source, f))
    && t.writes[f] == (if t.rem[f] == 0 then 1 else 0)
  }

  ghost predicate TallyRight(sizes: seq<nat>, source: seq<int>, arrived: set<nat>, t: Tally)
    requires IsSource(sizes, source)
  {
    |t.rem| == FILES && forall f :: 0 <= f < FILES ==> FileTallied(sizes, source, arrived, t, f)
  }

  /** What a right tally says about file f: written at most once, right, and exactly when all its chunks are in
      and no later file ends in its last one; for big files, exactly when all its chunks are in. */
  ghost predicate WrittenInTime(sizes: seq<nat>, source: seq<int>, arrived: set<nat>, t: Tally, f: nat)
    requires IsSource(sizes, source) && f < FILES
  {
    && (f in t.disk <==> LastEnder(sizes, f) && IntervalIn(sizes, arrived, f))
    && (BigFiles(sizes) ==> (f in t.disk <==> IntervalIn(sizes, arrived, f)))
    && t.writes[f] == (if f in t.disk then 1 else 0)
    && (f in t.disk && f < FILES - 1 ==> t.disk[f] == FileContent(sizes, source, f))
  }

  lemma TallyTells(sizes: seq<nat>, source: seq<int>, arrived: set<nat>, t: Tally)
    requires IsSource(sizes, source) && TallyRight(sizes, source, arrived, t)
    ensures forall f :: 0 <= f < FILES ==> WrittenInTime(sizes, source, arrived, t, f)
  {
    forall f | 0 <= f < FILES ensures WrittenInTime(sizes, source, arrived, t, f) {
      assert FileTallied(sizes, source, arrived, t, f);
      ZeroIffComplete(sizes, arrived, f);
      if BigFiles(sizes) {
        BigFilesCountExactly(sizes, arrived, f);
      }
    }
  }

  /** One table entry: the countdown of the file it names falls, and the file is written at zero. */
  ghost function CountedDown(sizes: seq<nat>, pos: seq<nat>, buffer: seq<int>, t: Tally, entry: nat): Tally
    requires entry <= |sizes| == |t.rem| == |pos|
    requires entry > 0 ==> pos[entry - 1] + sizes[entry - 1] <= |buffer|
  {
    if entry == 0 then t
    else
      var f := entry - 1;
      var rem := t.rem[f := t.rem[f] - 1];
      if rem[f] != 0 then t.(rem := rem)
      else Tally(rem, t.disk[f := buffer[pos[f]..pos[f] + sizes[f]]], t.writes + multiset{f})
  }

  lemma ChunkTallied(sizes: seq<nat>, source: seq<int>, arrived: set<nat>, pos: seq<nat>, buffer: seq<int>,
                     t: Tally, i: nat)
    requires IsSource(sizes, source) && |buffer| >= |source| && i < ChunkCount(sizes) && i !in arrived
    requires BufferHolds(sizes, source, arrived + {i}, buffer) && TallyRight(sizes, source, arrived, t)
    requires |pos| == FILES && forall f :: 0 <= f < FILES ==> pos[f] == End(sizes, f) && pos[f] + sizes[f] <= |buffer|
    ensures Spanner(sizes, FILES, i) <= FILES && Ender(sizes, FILES, i) <= FILES
    ensures TallyRight(sizes, source, arrived + {i},
              CountedDown(sizes, pos, buffer,
                CountedDown(sizes, pos, buffer, t, Spanner(sizes, FILES, i)), Ender(sizes, FILES, i)))
  {
    SpannerFinds(sizes, FILES, i, 0);
    EnderFinds(sizes, FILES, i, 0);
    var mid := CountedDown(sizes, pos, buffer, t, Spanner(sizes, FILES, i));
    var end := CountedDown(sizes, pos, buffer, mid, Ender(sizes, FILES, i));
    assert |mid.rem| == FILES;
    forall f | 0 <= f < FILES ensures FileTallied(sizes, source, arrived + {i}, end, f) {
      assert FileTallied(sizes, source, arrived, t, f);
      FileStaysTallied(sizes, source, arrived, pos, buffer, t, i, f);
    }
  }

  lemma FileStaysTallied(sizes: seq<nat>, source: seq<int>, arrived: set<nat>, pos: seq<nat>, buffer: seq<int>,
                         t: Tally, i: nat, f: nat)
    requires IsSource(sizes, source) && |buffer| >= |source| && i !in arrived && f < FILES == |t.rem|
    requires BufferHolds(sizes, source, arrived + {i}, buffer) && FileTallied(sizes, source, arrived, t, f)
    requires |pos| == FILES && forall g :: 0 <= g < FILES ==> pos[g] == End(sizes, g) && pos[g] + sizes[g] <= |buffer|
    requires Spanner(sizes, FILES, i) <= FILES && Ender(sizes, FILES, i) <= FILES
    requires |CountedDown(sizes, pos, buffer, t, Spanner(sizes, FILES, i)).rem| == FILES
    ensures var end := CountedDown(sizes, pos, buffer,
                         CountedDown(sizes, pos, buffer, t, Spanner(sizes, FILES, i)), Ender(sizes, FILES, i));
      |end.rem| == FILES && FileTallied(sizes, source, arrived + {i}, end, f)
  {
    var mid := CountedDown(sizes, pos, buffer, t, Spanner(sizes, FILES, i));
    var end := CountedDown(sizes, pos, buffer, mid, Ender(sizes, FILES, i));
    SpannerFinds(sizes, FILES, i, f);
    EnderFinds(sizes, FILES, i, f);
    CountedDownAt(sizes, pos, buffer, t, Spanner(sizes, FILES, i), f);
    CountedDownAt(sizes, pos, buffer, mid, Ender(sizes, FILES, i), f);
    if First(sizes, f) <= i < Last(sizes, f) || (i == Last(sizes, f) && LastEnder(sizes, f)) {
      FileHit(sizes, source, arrived, buffer, t, end, f, i);
    } else {
      RemainingAfter(sizes, arrived, f, i);
    }
  }

  lemma CountedDownAt(sizes: seq<nat>, pos: seq<nat>, buffer: seq<int>, t: Tally, entry: nat, f: nat)
    requires entry <= |sizes| == |t.rem| == |pos| && f < |sizes|
    requires entry > 0 ==> pos[entry - 1] + sizes[entry - 1] <= |buffer|
    ensures var u := CountedDown(sizes, pos, buffer, t, entry);
      && |u.rem| == |t.rem|
      && (if entry == f + 1 then
            && u.rem[f] == t.rem[f] - 1
            && (u.rem[f] == 0 ==> f in u.disk && u.disk[f] == buffer[pos[f]..pos[f] + sizes[f]] && u.writes[f] == t.writes[f] + 1)
            && (u.rem[f] != 0 ==> u.disk == t.disk && u.writes == t.writes)
          else
            && u.rem[f] == t.rem[f] && u.writes[f] == t.writes[f]
            && (f in u.disk <==> f in t.disk) && (f in t.disk ==> u.disk[f] == t.disk[f]))
  {
  }

  /** A file whose countdown falls: it was not written before, and is written right if it reaches zero. */
  lemma FileHit(sizes: seq<nat>, source: seq<int>, arrived: set<nat>, buffer: seq<int>, t: Tally, u: Tally, f: nat, i: nat)
    requires IsSource(sizes, source) && |buffer| >= |source| && f < FILES == |t.rem| == |u.rem| && i !in arrived
    requires First(sizes, f) <= i < Last(sizes, f) || (i == Last(sizes, f) && LastEnder(sizes, f))
    requires BufferHolds(sizes, source, arrived + {i}, buffer) && FileTallied(sizes, source, arrived, t, f)
    requires u.rem[f] == t.rem[f] - 1 && End(sizes, f) + sizes[f] <= |buffer|
    requires u.rem[f] == 0 ==>
      f in u.disk && u.disk[f] == buffer[End(sizes, f)..End(sizes, f) + sizes[f]] && u.writes[f] == t.writes[f] + 1
    requires u.rem[f] != 0 ==> u.writes[f] == t.writes[f] && (f in u.disk <==> f in t.disk)
    ensures FileTallied(sizes, source, arrived + {i}, u, f)
  {
    RemainingAfter(sizes, arrived, f, i);
    ZeroIffComplete(sizes, arrived + {i}, f);
    if f < FILES - 1 && u.rem[f] == 0 {
      CompleteContent(sizes, source, arrived + {i}, buffer, f);
    }
  }

  /** The bytes of file f can be read from the buffer, and are right if it is a real file. */
  ghost predicate Readable(sizes: seq<nat>, source: seq<int>, pos: seq<nat>, buffer: seq<int>, f: nat)
    requires IsSource(sizes, source) && |pos| == FILES && f < FILES
  {
    && pos[f] + sizes[f] <= |buffer|
    && (f < FILES - 1 ==> buffer[pos[f]..pos[f] + sizes[f]] == FileContent(sizes, source, f))
  }

  ghost predicate AllReadable(sizes: seq<nat>, source: seq<int>, pos: seq<nat>, buffer: seq<int>)
    requires IsSource(sizes, source) && |pos| == FILES
  {
    forall f :: 0 <= f < FILES ==> Readable(sizes, source, pos, buffer, f)
  }

  lemma WholeBufferRight(sizes: seq<nat>, source: seq<int>, arrived: set<nat>, pos: seq<nat>, buffer: seq<int>, t: Tally)
    requires IsSource(sizes, source) && |buffer| >= |source| && TallyRight(sizes, source, arrived, t)
    requires |pos| == FILES && forall f :: 0 <= f < FILES ==> pos[f] == End(sizes, f)
    requires BufferHolds(sizes, source, arrived, buffer) && forall i :: 0 <= i < ChunkCount(sizes) ==> i in arrived
    ensures AllReadable(sizes, source, pos, buffer)
    ensures forall f :: 0 <= f < FILES - 1 && t.rem[f] == 0 ==> f in t.disk && t.disk[f] == FileContent(sizes, source, f)
    ensures forall f :: 0 <= f < FILES ==> t.writes[f] == if t.rem[f] == 0 then 1 else 0
  {
    FilesFit(sizes, source);
    forall f | 0 <= f < FILES
      ensures Readable(sizes, source, pos, buffer, f)
      ensures f < FILES - 1 && t.rem[f] == 0 ==> f in t.disk && t.disk[f] == FileContent(sizes, source, f)
      ensures t.writes[f] == if t.rem[f] == 0 then 1 else 0
    {
      assert FileTallied(sizes, source, arrived, t, f);
      EndMonotone(sizes, f + 1, FILES);
      if f < FILES - 1 {
        CompleteContent(sizes, source, arrived, buffer, f);
      }
    }
  }

  /** Everything the server keeps, as functions of the metadata and of the set of chunks that have arrived. */
  class Server {
    const sizes: seq<nat>
    const chunks: nat
    const buffer: array<int>
    var completed: set<nat>
    var idx2file0: seq<nat>
    var idx2file1: seq<nat>
    var file2rem: seq<int>
    var file2pos: seq<nat>
    var disk: map<nat, seq<int>>
    ghost const source: seq<int>
    ghost var writes: multiset<nat>

    ghost function Arrived(): set<nat>
      reads this`completed
    {
      completed - META
    }

    ghost predicate Valid()
      reads this, buffer
    {
      && IsSource(sizes, source) && chunks == ChunkCount(sizes) <= 10001 && |source| <= buffer.Length
      && META <= completed && (forall i :: i in Arrived() ==> i < chunks)
      && TablesFilled() && TallyRight(sizes, source, Arrived(), Counts()) && BufferHolds(sizes, source, Arrived(), buffer[..])
    }

    ghost predicate TablesFilled()
      reads this`idx2file0, this`idx2file1, this`file2pos
      requires |sizes| == FILES
    {
      && |idx2file0| == |idx2file1| == TABLE && |file2pos| == FILES
      && (forall i :: 0 <= i < TABLE ==> idx2file0[i] == Spanner(sizes, FILES, i) && idx2file1[i] == Ender(sizes, FILES, i))
      && (forall f :: 0 <= f < FILES ==> file2pos[f] == End(sizes, f))
    }

    ghost function Counts(): Tally
      reads this
    {
      Tally(file2rem, disk, writes)
    }

    /** The state after both metadata packets, before any chunk. */
    constructor (fileSizes: seq<nat>, size: nat, ghost original: seq<int>)
      requires IsSource(fileSizes, original) && ChunkCount(fileSizes) <= 10001
      requires |original| <= size
      ensures Valid() && sizes == fileSizes && source == original && Arrived() == {} && fresh(buffer)
    {
      sizes, chunks, source := fileSizes, End(fileSizes, FILES) / CHUNK_BUF + 1, original;
      buffer := new int[size];
      completed, disk, writes := META, map[], multiset{};
      idx2file0, idx2file1 := seq(TABLE, _ => 0), seq(TABLE, _ => 0);
      file2rem, file2pos := seq(FILES, _ => 0), seq(FILES, _ => 0);
      new;
      FillTables();
      StartCountdowns(sizes);
      assert Arrived() == {};
    }

    /** After k files of the metadata. */
    ghost predicate FilledUpTo(k: nat)
      reads this
      requires k <= FILES == |sizes|
    {
      && |idx2file0| == |idx2file1| == TABLE && |file2rem| == |file2pos| == FILES
      && (forall i :: 0 <= i < TABLE ==> idx2file0[i] == Spanner(sizes, k, i) && idx2file1[i] == Ender(sizes, k, i))
      && (forall f :: 0 <= f < k ==> file2pos[f] == End(sizes, f))
      && (forall f :: 0 <= f < k ==> file2rem[f] == Last(sizes, f) - First(sizes, f) + 1)
    }

    /** The loop over the metadata. */
    method FillTables()
      requires |sizes| == FILES && ChunkCount(sizes) <= 10001 && FilledUpTo(0)
      modifies this`idx2file0, this`idx2file1, this`file2rem, this`file2pos
      ensures FilledUpTo(FILES)
    {
      var a, b, c, d := 0, 0, 0, 0;
      for k := 0 to FILES
        invariant b == End(sizes, k) && d == b / CHUNK_BUF && FilledUpTo(k)
      {
        a := b;
        b := b + sizes[k];
        c := d;
        d := b / CHUNK_BUF;
        FillFile(k, a, c, d);
      }
    }

    method FillFile(k: nat, a: nat, c: nat, d: nat)
      requires |sizes| == FILES && k < FILES && ChunkCount(sizes) <= 10001 && FilledUpTo(k)
      requires a == End(sizes, k) && c == First(sizes, k) && d == Last(sizes, k)
      modifies this`idx2file0, this`idx2file1, this`file2rem, this`file2pos
      ensures FilledUpTo(k + 1)
    {
      EndMonotone(sizes, k, k + 1);
      EndMonotone(sizes, k + 1, FILES);
      ghost var before := idx2file0;
      for i := c to d
        modifies this`idx2file0
        invariant |idx2file0| == TABLE
        invariant forall j :: 0 <= j < TABLE ==> idx2file0[j] == if c <= j < i then k + 1 else before[j]
      {
        idx2file0 := idx2file0[i := k + 1];
      }
      idx2file1 := idx2file1[d := k + 1];
      file2rem := file2rem[k := d - c + 1];
      file2pos := file2pos[k := a];
    }

    method WriteFile(f: nat)
      requires f < FILES == |file2pos| == |sizes| && file2pos[f] + sizes[f] <= buffer.Length
      modifies this`disk, this`writes
      ensures disk == old(disk)[f := buffer[..][file2pos[f]..file2pos[f] + sizes[f]]]
      ensures writes == old(writes) + multiset{f}
    {
      disk := disk[f := buffer[..][file2pos[f]..file2pos[f] + sizes[f]]];
      writes := writes + multiset{f};
    }

    /** Lowers the countdown of one table entry and writes the file when it reaches zero; entry 0 names no file. */
    method CountDown(entry: nat)
      requires entry <= FILES == |file2rem| == |file2pos| == |sizes|
      requires entry > 0 ==> file2pos[entry - 1] + sizes[entry - 1] <= buffer.Length
      modifies this`file2rem, this`disk, this`writes
      ensures Counts() == CountedDown(sizes, file2pos, buffer[..], old(Counts()), entry)
    {
      if entry == 0 {
        return;
      }
      var f := entry - 1;
      file2rem := file2rem[f := file2rem[f] - 1];
      if file2rem[f] != 0 {
        return;
      }
      WriteFile(f);
    }

    /** Decodes a chunk to its place in the buffer. */
    method StoreChunk(p: Packet, ghost before: set<nat>)
      requires IsSource(sizes, source) && buffer.Length >= |source| && Brings(sizes, source, p)
      requires BufferHolds(sizes, source, before, buffer[..])
      modifies buffer
      ensures BufferHolds(sizes, source, before + {p.index}, buffer[..])
    {
      UnpackedHolds(sizes, source, before, buffer[..], p.index, DecodeChunk(p.content));
      UnpackChunk(p.content, buffer, p.index);
    }

    /** The loop over the two table entries of a chunk that has just come in. */
    method CountChunk(index: nat, ghost before: set<nat>)
      requires IsSource(sizes, source) && TablesFilled() && buffer.Length >= |source|
      requires index < ChunkCount(sizes) <= 10001 && index !in before
      requires BufferHolds(sizes, source, before + {index}, buffer[..]) && TallyRight(sizes, source, before, Counts())
      modifies this`file2rem, this`disk, this`writes
      ensures TallyRight(sizes, source, before + {index}, Counts())
    {
      FilesFit(sizes, source);
      ChunkTallied(sizes, source, before, file2pos, buffer[..], Counts(), index);
      CountDown(idx2file0[index]);
      CountDown(idx2file1[index]);
    }

    /** Whether `rem`, the packets still to come, is zero. */
    method AllIn() returns (done: bool)
      requires META <= completed && (forall i :: i in Arrived() ==> i < chunks) && chunks <= 10001
      ensures done <==> forall i :: 0 <= i < chunks ==> i in Arrived()
    {
      assert Arrived() == completed - META;
      assert forall i :: 0 <= i < chunks ==> (i in completed <==> i in Arrived());
      AllInWhenCounted(chunks, completed);
      var rem := chunks + 2 - |completed|;
      return rem == 0;
    }

    /** One packet. A duplicate changes nothing, whatever its content; a new chunk is decoded and counted, and every
        file whose countdown reaches zero is written, which happens once, on its last chunk. `done` says that nothing
        is missing any more. */
    method Receive(p: Packet) returns (done: bool)
      requires Valid() && (p.index in completed || Brings(sizes, source, p))
      modifies this, buffer
      ensures Valid() && completed == old(completed) + {p.index}
      ensures p.index in old(completed) ==>
        buffer[..] == old(buffer[..]) && disk == old(disk) && writes == old(writes) && file2rem == old(file2rem)
      ensures forall f :: 0 <= f < FILES ==> WrittenInTime(sizes, source, Arrived(), Counts(), f)
      ensures done <==> p.index !in old(completed) && forall i :: 0 <= i < chunks ==> i in Arrived()
    {
      if p.index in completed {
        TallyTells(sizes, source, Arrived(), Counts());
        return false;
      }
      completed := completed + {p.index};
      StoreChunk(p, old(Arrived()));
      ghost var now, bytes := old(Arrived()) + {p.index}, buffer[..];
      assert Arrived() == now && TablesFilled();
      CountChunk(p.index, old(Arrived()));
      assert buffer[..] == bytes && Arrived() == now && TablesFilled();
      TallyTells(sizes, source, now, Counts());
      done := AllIn();
    }

    ghost predicate OnDisk(f: nat)
      reads this`disk
      requires IsSource(sizes, source) && f < FILES
    {
      f in disk && disk[f] == FileContent(sizes, source, f)
    }

    /** After the main loop: every file whose countdown never reached zero is written, once. */
    method WriteRest(ghost bytes: seq<int>)
      requires IsSource(sizes, source) && |file2rem| == |file2pos| == FILES && buffer[..] == bytes
      requires AllReadable(sizes, source, file2pos, bytes)
      requires forall f :: 0 <= f < FILES - 1 && file2rem[f] == 0 ==> OnDisk(f)
      modifies this`disk, this`writes
      ensures forall f :: 0 <= f < FILES - 1 ==> OnDisk(f)
      ensures forall f :: 0 <= f < FILES ==> writes[f] == old(writes[f]) + if file2rem[f] == 0 then 0 else 1
    {
      for i := 0 to FILES
        invariant buffer[..] == bytes
        invariant forall f :: 0 <= f < FILES - 1 && (f < i || file2rem[f] == 0) ==> OnDisk(f)
        invariant forall f :: 0 <= f < FILES ==>
          writes[f] == old(writes[f]) + if f < i && file2rem[f] != 0 then 1 else 0
      {
        assert Readable(sizes, source, file2pos, bytes, i);
        label turn:
        if file2rem[i] != 0 {
          WriteFile(i);
          assert buffer[..] == bytes;
        }
        forall f | 0 <= f < FILES - 1 && (f <= i || file2rem[f] == 0) ensures OnDisk(f) {
          assert f != i ==> old@turn(OnDisk(f));
        }
      }
    }

    /** The whole reception, whatever the order and the duplicates: it ends exactly when every chunk has come
        at least once; then all real files are on disk with the bytes of `source`, which is what the first packets
        of the chunks bring, and each file was written exactly once, in the loop or after it. */
    method Run(packets: seq<Packet>) returns (done: bool)
      requires Valid() && Arrived() == {}
      requires forall k :: 0 <= k < |packets| ==> Expected(sizes, source, packets, k)
      modifies this, buffer
      ensures done <==> forall i :: 0 <= i < chunks ==> Comes(packets, i)
      ensures done ==> forall f :: 0 <= f < FILES - 1 ==> OnDisk(f)
      ensures done ==> forall f :: 0 <= f < FILES ==> writes[f] == 1
      ensures !done ==> Valid()
    {
      assert 0 !in Arrived();
      for k := 0 to |packets|
        invariant Valid()
        invariant forall i: nat :: i in completed <==> i in META || Comes(packets[..k], i)
        invariant exists i :: 0 <= i < chunks && i !in Arrived()
      {
        ComesNext(packets, k);
        assert Expected(sizes, source, packets, k);
        label turn:
        done := Receive(packets[k]);
        assert packets[k].index in old@turn(completed) ==> Arrived() == old@turn(Arrived());
        if done {
          ComesInAll(packets, k + 1);
          forall i: nat | i < chunks ensures Comes(packets, i) {
            assert i in Arrived();
          }
          WholeBufferRight(sizes, source, Arrived(), file2pos, buffer[..], Counts());
          WriteRest(buffer[..]);
          return;
        }
      }
      assert packets[..|packets|] == packets;
      return false;
    }
  }

  /** Packet k is metadata again, a repeated chunk, or the first of its chunk and brings its bytes. */
  ghost predicate Expected(sizes: seq<nat>, source: seq<int>, packets: seq<Packet>, k: nat)
    requires |sizes| == FILES && k < |packets|
  {
    packets[k].index in META || Comes(packets[..k], packets[k].index) || Brings(sizes, source, packets[k])
  }

  ghost predicate Comes(packets: seq<Packet>, i: nat) {
    exists k :: 0 <= k < |packets| && packets[k].index == i
  }

  lemma ComesNext(packets: seq<Packet>, k: nat)
    requires k < |packets|
    ensures forall i: nat :: Comes(packets[..k + 1], i) <==> Comes(packets[..k], i) || packets[k].index == i
  {
    forall i: nat ensures Comes(packets[..k + 1], i) <==> Comes(packets[..k], i) || packets[k].index == i {
      assert packets[..k + 1][k] == packets[k];
      if j: nat :| j < k && packets[..k][j].index == i {
        assert packets[..k + 1][j].index == i;
      }
    }
  }

  lemma ComesInAll(packets: seq<Packet>, k: nat)
    requires k <= |packets|
    ensures forall i: nat :: Comes(packets[..k], i) ==> Comes(packets, i)
  {
  }

  lemma FilesFit(sizes: seq<nat>, source: seq<int>)
    requires IsSource(sizes, source)
    ensures forall f :: 0 <= f < FILES ==> End(sizes, f) + sizes[f] <= |source|
  {
    forall f | 0 <= f < FILES ensures End(sizes, f) + sizes[f] <= |source| {
      EndMonotone(sizes, f + 1, FILES);
      assert End(sizes, f + 1) == End(sizes, f) + sizes[f];
    }
  }

  /** Counting the received packets against chunks + 2 tells whether everything is in. */
  lemma AllInWhenCounted(chunks: nat, completed: set<nat>)
    requires META <= completed && (forall i :: i in completed - META ==> i < chunks)
    requires chunks <= 10001
    ensures |completed| <= chunks + 2
    ensures |completed| == chunks + 2 <==> forall i :: 0 <= i < chunks ==> i in completed
  {
    var all := UpTo(chunks) + META;
    assert |META| == 2 && UpTo(chunks) !! META;
    forall i | i in completed ensures i in all {
      assert i in META || i in completed - META;
    }
    assert |all| == chunks + 2;
    SubsetSize(completed, all);
  }

  lemma {:induction false} NothingArrived(lo: nat, hi: nat)
    requires lo <= hi
    ensures MissingBetween(lo, hi, {}) == hi - lo
    decreases hi
  {
    if lo < hi {
      NothingArrived(lo, hi - 1);
    }
  }
}
