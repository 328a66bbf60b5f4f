/** lab6/others/Star: all files packed behind small headers, compressed, cut into chunks, put together and
    unpacked again. Compression is any pair of functions in which decompressing undoes compressing. */
module Star {
  import opened Counting

  /** Bytes, as numbers. */
  type Bytes = seq<int>

  const DATA_SIZE: nat := 1168
  const UINT_MAX: nat := 0xFFFF_FFFF
  const CHUNK_LIMIT: nat := 8 * DATA_SIZE

  // ---- packing ----

  /** A uint32_t in memory. */
  function Word(n: nat): (bytes: Bytes)
    ensures |bytes| == 4
  {
    [n % 256, n / 256 % 256, n / 65536 % 256, n / 16777216 % 256]
  }

  function ReadWord(bytes: Bytes): int
    requires |bytes| == 4
  {
    bytes[0] + 256 * bytes[1] + 65536 * bytes[2] + 16777216 * bytes[3]
  }

  lemma WordRoundTrip(n: nat)
    requires n <= UINT_MAX
    ensures ReadWord(Word(n)) == n
  {
    var a, b, c := n / 256, n / 65536, n / 16777216;
    assert a / 256 == b && b / 256 == c;
    assert n == 256 * a + n % 256 && a == 256 * b + a % 256 && b == 256 * c + b % 256;
  }

  /** init_t followed by the file's bytes, file after file. */
  function Pack(files: seq<Bytes>): Bytes {
    if files == [] then []
    else
      var last := |files| - 1;
      Pack(files[..last]) + Word(last) + Word(|files[last]|) + files[last]
  }

  predicate Packable(files: seq<Bytes>) {
    |files| <= UINT_MAX && forall k :: 0 <= k < |files| ==> |files[k]| <= UINT_MAX
  }

  method PackFiles(files: seq<Bytes>) returns (data: Bytes)
    ensures data == Pack(files)
  {
    data := [];
    for k := 0 to |files|
      invariant data == Pack(files[..k])
    {
      assert files[..k + 1][..k] == files[..k];
      data := data + (Word(k) + Word(|files[k]|));
      data := data + files[k];
    }
    assert files[..|files|] == files;
  }

  /** Two small files, byte by byte: number and size, each as four bytes with the low one first, then the contents. */
  lemma TwoFilesPacked(files: seq<Bytes>)
    requires files == [[7], [8, 9]]
    ensures Pack(files) == [0, 0, 0, 0, 1, 0, 0, 0, 7, 1, 0, 0, 0, 2, 0, 0, 0, 8, 9]
  {
    assert files[..1] == [[7]] && files[..1][..0] == [];
    assert Word(0) == [0, 0, 0, 0] && Word(1) == [1, 0, 0, 0] && Word(2) == [2, 0, 0, 0];
    assert Pack(files[..1]) == [0, 0, 0, 0, 1, 0, 0, 0, 7];
  }

  lemma WordLittleEndian()
    ensures Word(0x04030201) == [1, 2, 3, 4]
  {
  }

  /** Where the header of file k starts. */
  function Offset(files: seq<Bytes>, k: nat): nat
    requires k <= |files|
  {
    |Pack(files[..k])|
  }

  /** The bytes at `at` are the header of file k and its contents. */
  ghost predicate FileAt(bytes: Bytes, at: nat, k: nat, file: Bytes) {
    && at + 8 + |file| <= |bytes|
    && bytes[at..at + 4] == Word(k) && bytes[at + 4..at + 8] == Word(|file|)
    && bytes[at + 8..at + 8 + |file|] == file
  }

  lemma FileStays(front: Bytes, rest: Bytes, at: nat, k: nat, file: Bytes)
    requires FileAt(front, at, k, file)
    ensures FileAt(front + rest, at, k, file)
  {
    var whole := front + rest;
    assert whole[at..at + 4] == front[at..at + 4] && whole[at + 4..at + 8] == front[at + 4..at + 8];
    assert whole[at + 8..at + 8 + |file|] == front[at + 8..at + 8 + |file|];
  }

  lemma LastFileAt(front: Bytes, k: nat, file: Bytes)
    ensures FileAt(front + Word(k) + Word(|file|) + file, |front|, k, file)
  {
  }

  lemma {:induction false} PackedAt(files: seq<Bytes>, k: nat)
    requires k < |files|
    ensures FileAt(Pack(files), Offset(files, k), k, files[k])
    decreases |files|
  {
    var front, last := files[..|files| - 1], |files| - 1;
    if k < last {
      PackedAt(front, k);
      assert front[..k] == files[..k];
      var rest := Word(last) + Word(|files[last]|) + files[last];
      FileStays(Pack(front), rest, Offset(files, k), k, files[k]);
      assert Pack(files) == Pack(front) + rest;
    } else {
      LastFileAt(Pack(front), k, files[k]);
    }
  }

  lemma OffsetNext(files: seq<Bytes>, k: nat)
    requires k < |files|
    ensures Offset(files, k + 1) == Offset(files, k) + 8 + |files[k]|
  {
    assert files[..k + 1][..k] == files[..k];
  }

  /** The unpacking loop of save_to_file. The walk over the headers ends on the last byte and gives back the
      list of files. */
  method Unpack(original: Bytes, ghost files: seq<Bytes>) returns (disk: map<nat, Bytes>, count: nat)
    requires Packable(files) && original == Pack(files)
    ensures count == |files| && disk == map k | 0 <= k < |files| :: files[k]
  {
    disk, count := map[], 0;
    var at := 0;
    assert files[..|files|] == files;
    while at < |original|
      invariant count <= |files| && at == Offset(files, count)
      invariant disk == map k | 0 <= k < count :: files[k]
      decreases |files| - count
    {
      PackedAt(files, count);
      OffsetNext(files, count);
      WordRoundTrip(count);
      WordRoundTrip(|files[count]|);
      var name := ReadWord(original[at..at + 4]);
      var size := ReadWord(original[at + 4..at + 8]);
      at := at + 8;
      disk := disk[name := original[at..at + size]];
      at := at + size;
      count := count + 1;
    }
    if count < |files| {
      PackedAt(files, count);
    }
  }

  // ---- chunks ----

  function Min(a: nat, b: nat): nat {
    if a < b then a else b
  }

  /** The number of chunks of n compressed bytes. */
  function ChunkCount(n: nat): nat {
    (n + DATA_SIZE - 1) / DATA_SIZE
  }

  function Zeros(n: nat): Bytes {
    seq(n, _ => 0)
  }

  /** Chunk k, counted from 1, as wrap_send fills the packet: the bytes, then zeros. */
  function ChunkData(data: Bytes, k: nat): (chunk: Bytes)
    requires 1 <= k <= ChunkCount(|data|)
    ensures |chunk| == DATA_SIZE
  {
    var part := data[(k - 1) * DATA_SIZE..Min(k * DATA_SIZE, |data|)];
    part + Zeros(DATA_SIZE - |part|)
  }

  /** Byte j of chunk k is byte (k - 1) * 1168 + j of the data, and zero after its end. */
  lemma ChunkByte(data: Bytes, k: nat, j: nat)
    requires 1 <= k <= ChunkCount(|data|) && j < 1168
    ensures var i := (k - 1) * 1168 + j; ChunkData(data, k)[j] == if i < |data| then data[i] else 0
  {
  }

  datatype Packet = Packet(seqNumber: nat, data: Bytes)

  ghost predicate Genuine(size: nat, chunks: map<nat, Bytes>, p: Packet) {
    && |p.data| == DATA_SIZE
    && if p.seqNumber == 0 then ReadWord(p.data[..4]) == size
       else p.seqNumber in chunks && p.data == chunks[p.seqNumber]
  }

  /** Packet 0: the compressed size as a size_t, here below 2^32, and a pointer that nobody reads. */
  method SizePacket(size: nat, pointer: Bytes, ghost chunks: map<nat, Bytes>) returns (p: Packet)
    requires size <= UINT_MAX && |pointer| == 8
    ensures p.seqNumber == 0 && Genuine(size, chunks, p)
  {
    var data := Word(size) + Zeros(4) + pointer;
    p := Packet(0, data + Zeros(DATA_SIZE - |data|));
    assert p.data[..4] == Word(size);
    WordRoundTrip(size);
  }

  /** The chunks of the compressed data, numbered 1..ceil(size / DATA_SIZE). */
  function Chunks(data: Bytes): map<nat, Bytes> {
    map k | 1 <= k <= ChunkCount(|data|) :: ChunkData(data, k)
  }

  method CutChunks(data: Bytes) returns (chunks: map<nat, Bytes>)
    ensures chunks == Chunks(data)
  {
    chunks := map[];
    var i := 0;
    while i * DATA_SIZE < |data|
      invariant 0 <= i <= ChunkCount(|data|)
      invariant chunks == map k | 1 <= k <= i :: ChunkData(data, k)
      decreases |data| - i * DATA_SIZE
    {
      var part := data[i * DATA_SIZE..i * DATA_SIZE + Min(DATA_SIZE, |data| - i * DATA_SIZE)];
      assert part == data[i * DATA_SIZE..Min((i + 1) * DATA_SIZE, |data|)];
      chunks := chunks[i + 1 := part + Zeros(DATA_SIZE - |part|)];
      i := i + 1;
    }
  }

  // ---- receiving ----

  datatype Progress = Progress(compSize: int, recvSize: int, dataMap: map<nat, Bytes>)

  /** What one packet does, new or repeated. */
  function Take(s: Progress, p: Packet): Progress
    requires |p.data| == DATA_SIZE
  {
    if p.seqNumber == 0 then s.(compSize := ReadWord(p.data[..4]))
    else if p.seqNumber in s.dataMap then s
    else s.(dataMap := s.dataMap[p.seqNumber := p.data], recvSize := s.recvSize + DATA_SIZE)
  }

  /** What has been received when exactly the packets numbered in `got` have come. */
  ghost predicate Holds(size: nat, chunks: map<nat, Bytes>, got: set<nat>, s: Progress) {
    && s.compSize == (if 0 in got then size else UINT_MAX)
    && (forall k :: k in got && k != 0 <==> k in s.dataMap)
    && (forall k :: k in s.dataMap ==> k in chunks && s.dataMap[k] == chunks[k])
    && s.recvSize == |s.dataMap| * DATA_SIZE
  }

  /** The received state is a function of the set of packets that have come, not of their order or number. */
  lemma TakeHolds(size: nat, chunks: map<nat, Bytes>, got: set<nat>, s: Progress, p: Packet)
    requires size < UINT_MAX && Genuine(size, chunks, p) && Holds(size, chunks, got, s)
    ensures Holds(size, chunks, got + {p.seqNumber}, Take(s, p))
    ensures p.seqNumber in got ==> Take(s, p) == s
  {
    var k := p.seqNumber;
    if k != 0 && k !in got {
      assert k !in s.dataMap;
      assert |s.dataMap[k := p.data]| == |s.dataMap| + 1;
    }
  }

  /** The condition of the receive loop. */
  predicate Waiting(s: Progress) {
    s.compSize == UINT_MAX || s.recvSize < s.compSize
  }

  /** The loop's condition says precisely that something is missing. */
  lemma DoneIffComplete(size: nat, chunks: map<nat, Bytes>, got: set<nat>, s: Progress)
    requires 0 < size < UINT_MAX && 0 !in chunks && |chunks| == ChunkCount(size)
    requires Holds(size, chunks, got, s)
    ensures got <= chunks.Keys + {0} && (!Waiting(s) <==> got == chunks.Keys + {0})
    ensures !Waiting(s) ==> s.compSize == size && s.dataMap == chunks
  {
    assert |s.dataMap| == |s.dataMap.Keys| && |chunks| == |chunks.Keys|;
    SubsetSize(s.dataMap.Keys, chunks.Keys);
    assert s.dataMap.Keys == got - {0};
    assert s.recvSize >= size <==> |s.dataMap| >= ChunkCount(size);
    assert got == chunks.Keys + {0} <==> s.dataMap.Keys == chunks.Keys && 0 in got;
  }

  lemma ChunkNumbers(data: Bytes)
    ensures 0 !in Chunks(data) && |Chunks(data)| == ChunkCount(|data|)
    ensures forall k: nat :: k in Chunks(data).Keys + {0} <==> k <= ChunkCount(|data|)
  {
    var chunks, n := Chunks(data), ChunkCount(|data|);
    assert forall k: nat :: k in chunks.Keys <==> 1 <= k <= n;
    assert chunks.Keys == UpTo(n + 1) - {0};
    assert |chunks| == |chunks.Keys|;
  }

  class Receiver {
    var compSize: int
    var recvSize: int
    var dataMap: map<nat, Bytes>

    function State(): Progress
      reads this
    {
      Progress(compSize, recvSize, dataMap)
    }

    constructor ()
      ensures State() == Progress(UINT_MAX, 0, map[])
    {
      compSize, recvSize, dataMap := UINT_MAX, 0, map[];
    }

    /** The body of the receive loop. */
    method Receive(p: Packet)
      requires |p.data| == DATA_SIZE
      modifies this
      ensures State() == Take(old(State()), p)
    {
      if p.seqNumber == 0 {
        compSize := ReadWord(p.data[..4]);
      } else if p.seqNumber !in dataMap {
        dataMap := dataMap[p.seqNumber := p.data];
        recvSize := recvSize + DATA_SIZE;
      }
    }

    /** The receive loop, over the packets as they come; `i` of them are read. */
    method ReceiveLoop(packets: seq<Packet>, ghost size: nat, ghost chunks: map<nat, Bytes>)
      returns (i: nat, ghost got: set<nat>)
      requires size < UINT_MAX && State() == Progress(UINT_MAX, 0, map[])
      requires forall k :: 0 <= k < |packets| ==> Genuine(size, chunks, packets[k])
      modifies this
      ensures i <= |packets| && (Waiting(State()) ==> i == |packets|)
      ensures Tracks(packets, i, size, chunks, got, State())
    {
      got := {};
      i := 0;
      LoopStart(packets, size, chunks);
      while Waiting(State()) && i < |packets|
        invariant i <= |packets| && Tracks(packets, i, size, chunks, got, State())
      {
        LoopStep(packets, i, size, chunks, got, State());
        Receive(packets[i]);
        got := got + {packets[i].seqNumber};
        i := i + 1;
      }
    }

    /** Reception stops exactly when packet 0 and all chunks have come, in any order and with any repetitions.
        Packet numbers stay below the size of the acknowledgement bitmap. */
    method ReceiveAll(packets: seq<Packet>, ghost size: nat, ghost chunks: map<nat, Bytes>) returns (done: bool)
      requires 0 < size < UINT_MAX && 0 !in chunks && |chunks| == ChunkCount(size) < CHUNK_LIMIT
      requires State() == Progress(UINT_MAX, 0, map[])
      requires forall k :: 0 <= k < |packets| ==> Genuine(size, chunks, packets[k])
      modifies this
      ensures done <==> forall k: nat :: k in chunks.Keys + {0} ==> Comes(packets, k)
      ensures done ==> compSize == size && dataMap == chunks
    {
      var i;
      ghost var got;
      i, got := ReceiveLoop(packets, size, chunks);
      DoneIffComplete(size, chunks, got, State());
      done := !Waiting(State());
      StoppedIffAllCame(packets, i, got, chunks.Keys + {0}, done);
    }

    /** The front half of save_to_file: each chunk is copied to its place. */
    method Rebuild(ghost data: Bytes) returns (whole: Bytes)
      requires 0 < |data| < UINT_MAX && compSize == |data| && dataMap == Chunks(data)
      ensures |whole| >= compSize && whole[..compSize] == data
    {
      var n := 1 + (compSize - 1) / DATA_SIZE;
      assert n == ChunkCount(|data|);
      whole := [];
      for k := 0 to n
        invariant |whole| == k * DATA_SIZE
        invariant whole[..Min(k * DATA_SIZE, |data|)] == data[..Min(k * DATA_SIZE, |data|)]
      {
        ghost var before := whole;
        whole := whole + dataMap[k + 1];
        ChunkExtends(data, before, k);
      }
    }
  }

  lemma ChunkExtends(data: Bytes, before: Bytes, k: nat)
    requires k < ChunkCount(|data|) && |before| == k * DATA_SIZE
    requires before[..Min(k * DATA_SIZE, |data|)] == data[..Min(k * DATA_SIZE, |data|)]
    ensures var after := before + ChunkData(data, k + 1); var n := Min((k + 1) * DATA_SIZE, |data|);
      n <= |after| && after[..n] == data[..n]
  {
    var n := Min((k + 1) * DATA_SIZE, |data|);
    assert before == data[..k * DATA_SIZE];
    assert data[..n] == data[..k * DATA_SIZE] + data[k * DATA_SIZE..n];
  }

  ghost predicate Comes(packets: seq<Packet>, k: nat) {
    exists i :: 0 <= i < |packets| && packets[i].seqNumber == k
  }

  /** `got` is the set of packet numbers. */
  ghost predicate Numbers(packets: seq<Packet>, got: set<nat>) {
    forall k: nat :: k in got <==> Comes(packets, k)
  }

  lemma NumbersNext(packets: seq<Packet>, i: nat, got: set<nat>)
    requires i < |packets| && Numbers(packets[..i], got)
    ensures Numbers(packets[..i + 1], got + {packets[i].seqNumber})
  {
    forall k: nat ensures k in got + {packets[i].seqNumber} <==> Comes(packets[..i + 1], k) {
      assert packets[..i + 1][i] == packets[i];
      if j: nat :| j < i && packets[..i][j].seqNumber == k {
        assert packets[..i + 1][j].seqNumber == k;
      }
    }
  }

  ghost predicate Tracks(packets: seq<Packet>, i: nat, size: nat, chunks: map<nat, Bytes>, got: set<nat>, s: Progress)
    requires i <= |packets|
  {
    Holds(size, chunks, got, s) && Numbers(packets[..i], got)
  }

  lemma LoopStart(packets: seq<Packet>, size: nat, chunks: map<nat, Bytes>)
    ensures Tracks(packets, 0, size, chunks, {}, Progress(UINT_MAX, 0, map[]))
  {
  }

  lemma LoopStep(packets: seq<Packet>, i: nat, size: nat, chunks: map<nat, Bytes>, got: set<nat>, s: Progress)
    requires i < |packets| && size < UINT_MAX && Genuine(size, chunks, packets[i])
    requires Tracks(packets, i, size, chunks, got, s)
    ensures Tracks(packets, i + 1, size, chunks, got + {packets[i].seqNumber}, Take(s, packets[i]))
  {
    NumbersNext(packets, i, got);
    TakeHolds(size, chunks, got, s, packets[i]);
  }

  lemma StoppedIffAllCame(packets: seq<Packet>, i: nat, got: set<nat>, all: set<nat>, done: bool)
    requires i <= |packets| && Numbers(packets[..i], got) && got <= all
    requires done <==> got == all
    requires !done ==> i == |packets|
    ensures done <==> forall k: nat :: k in all ==> Comes(packets, k)
  {
    if done {
      forall k: nat | k in all ensures Comes(packets, k) {
        assert Comes(packets[..i], k);
      }
    } else {
      assert packets[..i] == packets;
    }
  }

  // ---- end to end ----

  /** The whole pipeline for one run of the receiver: if it stops, the disk holds the sender's files. */
  method Transfer(files: seq<Bytes>, compress: Bytes -> Bytes, decompress: Bytes -> Bytes, packets: seq<Packet>)
    returns (done: bool, disk: map<nat, Bytes>)
    requires Packable(files) && decompress(compress(Pack(files))) == Pack(files)
    requires 0 < |compress(Pack(files))| < UINT_MAX && ChunkCount(|compress(Pack(files))|) < CHUNK_LIMIT
    requires var data := compress(Pack(files));
      forall i :: 0 <= i < |packets| ==> Genuine(|data|, Chunks(data), packets[i])
    ensures done <==> forall k: nat :: k <= ChunkCount(|compress(Pack(files))|) ==> Comes(packets, k)
    ensures done ==> disk == map k | 0 <= k < |files| :: files[k]
  {
    ghost var data := compress(Pack(files));
    disk := map[];
    ChunkNumbers(data);
    var receiver := new Receiver();
    done := receiver.ReceiveAll(packets, |data|, Chunks(data));
    if done {
      var whole := receiver.Rebuild(data);
      var original := decompress(whole[..receiver.compSize]);
      var count;
      disk, count := Unpack(original, files);
    }
  }
}
