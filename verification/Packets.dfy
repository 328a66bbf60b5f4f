/** Packets of lab6/src: how the client cuts a file, what the checksum covers, and what corruption the
    checksum catches. */
module Packets {
  import opened Crc

  const FILES: nat := 1000
  const PACKET_SIZE: nat := 1200
  const MAX_PACKETS: nat := 48
  const FINISH: nat := 30000

  type Bytes = seq<bv8>

  datatype Packet = Packet(fileNumber: nat, packetNumber: nat, totalPackets: nat,
                           checksum: bv16, length: nat, data: Bytes)

  datatype Ack = Ack(fileNumber: nat, stored: seq<bool>)

  // ---- cutting a file ----

  /** The last chunk is never full. */
  function Total(file: Bytes): (n: nat)
    ensures n > 0 && (n - 1) * 1200 <= |file| < n * 1200
  {
    |file| / PACKET_SIZE + 1
  }

  function Min(a: nat, b: nat): nat {
    if a < b then a else b
  }

  /** What one fread at offset i * PACKET_SIZE returns; the last chunk is short, possibly empty. */
  function Chunk(file: Bytes, i: nat): Bytes
    requires i < Total(file)
  {
    file[i * PACKET_SIZE..Min((i + 1) * PACKET_SIZE, |file|)]
  }

  /** Every chunk but the last is full, and byte j of chunk i is byte 1200 * i + j of the file. */
  lemma ChunkAt(file: Bytes, i: nat, j: nat)
    requires i < Total(file)
    ensures |Chunk(file, i)| == if i < Total(file) - 1 then 1200 else |file| - 1200 * i
    ensures j < |Chunk(file, i)| ==> 1200 * i + j < |file| && Chunk(file, i)[j] == file[1200 * i + j]
  {
  }

  function Chunks(file: Bytes): seq<Bytes> {
    seq(Total(file), i requires 0 <= i < Total(file) => Chunk(file, i))
  }

  function Concat(chunks: seq<Bytes>): Bytes {
    if chunks == [] then [] else Concat(chunks[..|chunks| - 1]) + chunks[|chunks| - 1]
  }

  lemma {:induction false} ConcatPrefix(file: Bytes, n: nat)
    requires n <= Total(file)
    ensures Concat(Chunks(file)[..n]) == file[..Min(n * PACKET_SIZE, |file|)]
  {
    if n > 0 {
      ConcatPrefix(file, n - 1);
      assert Chunks(file)[..n][..n - 1] == Chunks(file)[..n - 1];
      assert file[..(n - 1) * PACKET_SIZE] + Chunk(file, n - 1) == file[..Min(n * PACKET_SIZE, |file|)];
    }
  }

  /** Laying the size/1200 + 1 chunks end to end gives the file back. */
  lemma ChunksRebuildFile(file: Bytes)
    ensures Concat(Chunks(file)) == file
  {
    ConcatPrefix(file, Total(file));
    assert Chunks(file)[..Total(file)] == Chunks(file);
  }

  // ---- the checksum of a packet ----

  function LittleEndian(n: nat): Bytes {
    [(n % 256) as bv8, (n / 256 % 256) as bv8]
  }

  function Header(p: Packet): Bytes {
    LittleEndian(p.fileNumber) + LittleEndian(p.packetNumber) + LittleEndian(p.totalPackets)
  }

  /** The fields under the checksum are uint16_t. */
  predicate FieldsFit(p: Packet) {
    p.fileNumber < 0x1_0000 && p.packetNumber < 0x1_0000 && p.totalPackets < 0x1_0000
  }

  predicate Denotes(b: bv8, n: nat) {
    b as nat == n
  }

  function Doubled(b: bv8, odd: bool): bv8 {
    if odd then (b << 1) | 1 else b << 1
  }

  /** A number below 256 written in binary, digit by digit. */
  function ToByte(n: nat): bv8
    decreases n
  {
    if n == 0 then 0 else Doubled(ToByte(n / 2), n % 2 == 1)
  }

  lemma DoubledValue(b: bv8)
    requires b < 0x80
    ensures (b << 1) as nat == 2 * b as nat
  {
  }

  lemma DoubledPlusOne(b: bv8)
    requires b < 0x80
    ensures ((b << 1) | 1) as nat == 2 * b as nat + 1
  {
  }

  lemma TopBitClear(b: bv8)
    requires b as nat < 0x80
    ensures b < 0x80
  {
  }

  lemma DoubledDenotes(n: nat, b: bv8)
    requires n < 0x100 && Denotes(b, n / 2)
    ensures Denotes(Doubled(b, n % 2 == 1), n)
  {
    TopBitClear(b);
    DoubledValue(b);
    DoubledPlusOne(b);
  }

  lemma {:induction false} ToByteDenotes(n: nat)
    requires n < 0x100
    ensures Denotes(ToByte(n), n)
  {
    if n > 0 {
      ToByteDenotes(n / 2);
      DoubledDenotes(n, ToByte(n / 2));
    }
  }

  lemma ConvertedBack(b: bv8)
    ensures (b as nat) as bv8 == b
  {
  }

  lemma ConvertedAs(n: nat, b: bv8)
    requires n < 0x100 && Denotes(b, n)
    ensures Denotes(n as bv8, n)
  {
    ConvertedBack(b);
  }

  lemma ConvertedDenotes(n: nat)
    requires n < 0x100
    ensures Denotes(n as bv8, n)
  {
    ToByteDenotes(n);
    ConvertedAs(n, ToByte(n));
  }

  /** The number that two bytes write, the low one first. */
  predicate Writes(bytes: Bytes, n: nat) {
    |bytes| == 2 && bytes[0] as nat + 256 * bytes[1] as nat == n
  }

  lemma LittleEndianWrites(n: nat)
    requires n < 0x1_0000
    ensures Writes(LittleEndian(n), n)
  {
    ConvertedDenotes(n % 256);
    ConvertedDenotes(n / 256 % 256);
    SumOfBytes(LittleEndian(n), n % 256, n / 256 % 256, n);
  }

  lemma SumOfBytes(bytes: Bytes, low: nat, high: nat, n: nat)
    requires |bytes| == 2 && Denotes(bytes[0], low) && Denotes(bytes[1], high) && n == low + 256 * high
    ensures Writes(bytes, n)
  {
  }

  /** The bytes under the checksum: the fields before it, then the whole data buffer; not the length. */
  function Covered(p: Packet): Bytes {
    Header(p) + p.data
  }

  const INITIAL_CRC: bv16 := 0xFFFF

  function CrcOf(p: Packet): Register {
    CrcBits(CrcBits(WordBits(INITIAL_CRC), Bits(Header(p))), Bits(p.data))
  }

  predicate Intact(p: Packet) {
    WordBits(p.checksum) == CrcOf(p)
  }

  /** A packet of the client's file; the buffer past `length` holds whatever an earlier read left there. */
  ghost predicate Genuine(files: seq<Bytes>, p: Packet) {
    && p.fileNumber < |files|
    && p.totalPackets == Total(files[p.fileNumber])
    && p.packetNumber < p.totalPackets
    && p.length <= |p.data| == PACKET_SIZE
    && p.data[..p.length] == Chunk(files[p.fileNumber], p.packetNumber)
    && Intact(p)
  }

  /** What the link may do to a packet besides losing, repeating or delaying it: one burst of at most 16
      bits under the checksum, or any change of the checksum field alone. The length stays intact. */
  ghost predicate Corrupted(p: Packet, q: Packet) {
    && q.length == p.length
    && (if q.checksum == p.checksum then Burst(Covered(p), Covered(q)) else Covered(q) == Covered(p))
  }

  lemma CorruptedIsRejected(p: Packet, q: Packet)
    requires Intact(p) && Corrupted(p, q)
    ensures !Intact(q)
  {
    ChainedCalls(WordBits(INITIAL_CRC), Header(p), p.data);
    ChainedCalls(WordBits(INITIAL_CRC), Header(q), q.data);
    SameWordBits(p.checksum, q.checksum);
    if q.checksum == p.checksum {
      BurstDetected(WordBits(INITIAL_CRC), Covered(p), Covered(q));
    }
  }

  // ---- every field counts ----

  lemma SameWritten(a: Bytes, b: Bytes, m: nat, n: nat)
    requires Writes(a, m) && Writes(b, n)
    ensures a == b ==> m == n
  {
  }

  /** The six bytes of the header write the three fields, each low byte first. */
  lemma HeaderWrites(p: Packet)
    requires FieldsFit(p)
    ensures |Header(p)| == 6
    ensures Writes(Header(p)[0..2], p.fileNumber) && Writes(Header(p)[2..4], p.packetNumber)
    ensures Writes(Header(p)[4..6], p.totalPackets)
  {
    assert Header(p)[0..2] == LittleEndian(p.fileNumber);
    assert Header(p)[2..4] == LittleEndian(p.packetNumber);
    assert Header(p)[4..6] == LittleEndian(p.totalPackets);
    LittleEndianWrites(p.fileNumber);
    LittleEndianWrites(p.packetNumber);
    LittleEndianWrites(p.totalPackets);
  }

  lemma SameHeader(p: Packet, q: Packet)
    requires FieldsFit(p) && FieldsFit(q)
    ensures Header(p) == Header(q) <==>
      p.fileNumber == q.fileNumber && p.packetNumber == q.packetNumber && p.totalPackets == q.totalPackets
  {
    HeaderWrites(p);
    HeaderWrites(q);
    SameWritten(Header(p)[0..2], Header(q)[0..2], p.fileNumber, q.fileNumber);
    SameWritten(Header(p)[2..4], Header(q)[2..4], p.packetNumber, q.packetNumber);
    SameWritten(Header(p)[4..6], Header(q)[4..6], p.totalPackets, q.totalPackets);
  }

  lemma BitsOfThree(front: Bytes, a: Bytes, rest: Bytes)
    ensures Bits(front + a + rest) == Bits(front) + Bits(a) + Bits(rest)
  {
    BitsConcat(front + a, rest);
    BitsConcat(front, a);
  }

  /** Two messages that differ in two neighbouring bytes differ in a burst. */
  lemma TwoBytesAreABurst(front: Bytes, a: Bytes, b: Bytes, rest: Bytes)
    requires |a| == |b| == 2 && a != b
    ensures Burst(front + a + rest, front + b + rest)
  {
    var x, y := front + a + rest, front + b + rest;
    BitsOfThree(front, a, rest);
    BitsOfThree(front, b, rest);
    assert x[|front|..|front| + 2] == a && y[|front|..|front| + 2] == b;
    if Bits(x) == Bits(y) {
      BitsInjective(x, y);
    }
    assert BurstAt(Bits(x), Bits(y), 8 * |front|);
  }

  /** One of the three fields is different, and nothing else. */
  predicate OneFieldChanged(p: Packet, q: Packet) {
    || (q == p.(fileNumber := q.fileNumber) && q.fileNumber != p.fileNumber)
    || (q == p.(packetNumber := q.packetNumber) && q.packetNumber != p.packetNumber)
    || (q == p.(totalPackets := q.totalPackets) && q.totalPackets != p.totalPackets)
  }

  lemma FieldIsBurst(p: Packet, q: Packet, front: Bytes, m: nat, n: nat, rest: Bytes)
    requires m < 0x1_0000 && n < 0x1_0000 && m != n
    requires Covered(p) == front + LittleEndian(m) + rest && Covered(q) == front + LittleEndian(n) + rest
    ensures Burst(Covered(p), Covered(q))
  {
    LittleEndianWrites(m);
    LittleEndianWrites(n);
    SameWritten(LittleEndian(m), LittleEndian(n), m, n);
    TwoBytesAreABurst(front, LittleEndian(m), LittleEndian(n), rest);
  }

  lemma FileNumberIsBurst(p: Packet, n: nat)
    requires FieldsFit(p) && n < 0x1_0000 && n != p.fileNumber
    ensures Burst(Covered(p), Covered(p.(fileNumber := n)))
  {
    var rest := LittleEndian(p.packetNumber) + LittleEndian(p.totalPackets) + p.data;
    assert Covered(p) == [] + LittleEndian(p.fileNumber) + rest;
    assert Covered(p.(fileNumber := n)) == [] + LittleEndian(n) + rest;
    FieldIsBurst(p, p.(fileNumber := n), [], p.fileNumber, n, rest);
  }

  lemma PacketNumberIsBurst(p: Packet, n: nat)
    requires FieldsFit(p) && n < 0x1_0000 && n != p.packetNumber
    ensures Burst(Covered(p), Covered(p.(packetNumber := n)))
  {
    var front, rest := LittleEndian(p.fileNumber), LittleEndian(p.totalPackets) + p.data;
    assert Covered(p) == front + LittleEndian(p.packetNumber) + rest;
    assert Covered(p.(packetNumber := n)) == front + LittleEndian(n) + rest;
    FieldIsBurst(p, p.(packetNumber := n), front, p.packetNumber, n, rest);
  }

  lemma TotalIsBurst(p: Packet, n: nat)
    requires FieldsFit(p) && n < 0x1_0000 && n != p.totalPackets
    ensures Burst(Covered(p), Covered(p.(totalPackets := n)))
  {
    var front := LittleEndian(p.fileNumber) + LittleEndian(p.packetNumber);
    FieldIsBurst(p, p.(totalPackets := n), front, p.totalPackets, n, p.data);
  }

  /** A changed field is damage that the checksum catches. */
  lemma ChangedFieldIsRejected(p: Packet, q: Packet)
    requires FieldsFit(p) && FieldsFit(q) && Intact(p) && OneFieldChanged(p, q)
    ensures !Intact(q)
  {
    if q.fileNumber != p.fileNumber {
      FileNumberIsBurst(p, q.fileNumber);
    } else if q.packetNumber != p.packetNumber {
      PacketNumberIsBurst(p, q.packetNumber);
    } else {
      TotalIsBurst(p, q.totalPackets);
    }
    CorruptedIsRejected(p, q);
  }

  /** A packet of file 256 whose number arrives as 0. */
  lemma WrongFileIsRejected(p: Packet)
    requires FieldsFit(p) && Intact(p) && p.fileNumber == 256
    ensures !Intact(p.(fileNumber := 0))
  {
    ChangedFieldIsRejected(p, p.(fileNumber := 0));
  }

  // ---- send_file ----

  /** The packet numbers below n that the bitmap does not report as stored. */
  function Unsent(bits: seq<bool>, n: nat): seq<nat>
    requires n <= |bits|
  {
    if n == 0 then [] else Unsent(bits, n - 1) + (if bits[n - 1] then [] else [n - 1])
  }

  lemma {:induction false} UnsentMembers(bits: seq<bool>, n: nat, i: nat)
    requires n <= |bits|
    ensures i in Unsent(bits, n) <==> i < n && !bits[i]
  {
    if n > 0 {
      UnsentMembers(bits, n - 1, i);
    }
  }

  lemma {:induction false} UnsentIncreasing(bits: seq<bool>, n: nat)
    requires n <= |bits|
    ensures forall j, k :: 0 <= j < k < |Unsent(bits, n)| ==> Unsent(bits, n)[j] < Unsent(bits, n)[k]
  {
    if n > 0 {
      UnsentIncreasing(bits, n - 1);
      var front := Unsent(bits, n - 1);
      forall k | 0 <= k < |front| ensures front[k] < n - 1 {
        UnsentMembers(bits, n - 1, front[k]);
      }
    }
  }

  /** The packets sent for one acknowledgement: the chunks not reported as stored, in order. */
  ghost predicate Reply(files: seq<Bytes>, f: nat, bits: seq<bool>, sent: seq<Packet>) {
    && f < |files| && Total(files[f]) <= |bits|
    && SentFor(files, f, Unsent(bits, Total(files[f])), sent)
  }

  lemma ReplyCovers(files: seq<Bytes>, f: nat, bits: seq<bool>, sent: seq<Packet>, i: nat)
    requires Reply(files, f, bits, sent) && i < Total(files[f]) && !bits[i]
    ensures exists p :: p in sent && p.fileNumber == f && p.packetNumber == i
  {
    UnsentMembers(bits, Total(files[f]), i);
    var k :| 0 <= k < |sent| && Unsent(bits, Total(files[f]))[k] == i;
    assert sent[k] in sent;
  }

  /** fread into the packet's buffer: the bytes read replace the front, the rest stays. */
  method ReadChunk(buffer: array<bv8>, chunk: Bytes)
    requires |chunk| <= buffer.Length
    modifies buffer
    ensures buffer[..|chunk|] == chunk && buffer[|chunk|..] == old(buffer[|chunk|..])
  {
    for i := 0 to |chunk|
      invariant forall k :: 0 <= k < i ==> buffer[k] == chunk[k]
      invariant forall k :: i <= k < buffer.Length ==> buffer[k] == old(buffer[k])
    {
      buffer[i] := chunk[i];
    }
  }

  /** The two chained calls of calculateCRC, on the header and on the data. */
  method Checksum(header: Bytes, data: Bytes) returns (checksum: bv16)
    ensures WordBits(checksum) == CrcBits(CrcBits(WordBits(0xFFFF), Bits(header)), Bits(data))
  {
    checksum := CalculateCRC(header, INITIAL_CRC);
    checksum := CalculateCRC(data, checksum);
  }

  /** One turn: chunk i is read over what the buffer holds, and the packet is completed. */
  method MakePacket(ghost files: seq<Bytes>, file: Bytes, f: nat, i: nat, total: nat, buffer: array<bv8>)
    returns (packet: Packet)
    requires f < |files| && files[f] == file && i < total == Total(file) && buffer.Length == PACKET_SIZE
    modifies buffer
    ensures Genuine(files, packet) && packet.fileNumber == f && packet.packetNumber == i
  {
    var chunk := Chunk(file, i);
    ReadChunk(buffer, chunk);
    var data := buffer[..];
    assert data[..|chunk|] == buffer[..|chunk|];
    var header := LittleEndian(f) + LittleEndian(i) + LittleEndian(total);
    var checksum := Checksum(header, data);
    packet := Packet(f, i, total, checksum, |chunk|, data);
  }

  ghost predicate SentFor(files: seq<Bytes>, f: nat, numbers: seq<nat>, sent: seq<Packet>) {
    && |sent| == |numbers|
    && forall k :: 0 <= k < |sent| ==>
         sent[k].fileNumber == f && sent[k].packetNumber == numbers[k] && Genuine(files, sent[k])
  }

  /** send_file: one buffer serves all packets of the file. */
  method SendFile(ghost files: seq<Bytes>, file: Bytes, f: nat, bits: seq<bool>, buffer: array<bv8>)
    returns (sent: seq<Packet>)
    requires f < |files| && files[f] == file && Total(file) <= |bits| && buffer.Length == PACKET_SIZE
    modifies buffer
    ensures Reply(files, f, bits, sent)
    ensures InOrder(sent) && forall i: nat :: Numbered(sent, i) <==> i < Total(file) && !bits[i]
  {
    sent := [];
    var total := |file| / PACKET_SIZE + 1;
    for i := 0 to total
      invariant SentFor(files, f, Unsent(bits, i), sent)
    {
      if bits[i] {
        continue;
      }
      var packet := MakePacket(files, file, f, i, total, buffer);
      sent := sent + [packet];
    }
    ReplyIsExact(files, f, bits, sent);
  }

  ghost predicate Numbered(sent: seq<Packet>, i: nat) {
    exists k :: 0 <= k < |sent| && sent[k].packetNumber == i
  }

  ghost predicate InOrder(sent: seq<Packet>) {
    forall j, k :: 0 <= j < k < |sent| ==> sent[j].packetNumber < sent[k].packetNumber
  }

  /** A reply has exactly the chunks of the file that the bitmap does not report, in increasing order. */
  lemma ReplyIsExact(files: seq<Bytes>, f: nat, bits: seq<bool>, sent: seq<Packet>)
    requires Reply(files, f, bits, sent)
    ensures InOrder(sent) && forall i: nat :: Numbered(sent, i) <==> i < Total(files[f]) && !bits[i]
  {
    var numbers := Unsent(bits, Total(files[f]));
    UnsentIncreasing(bits, Total(files[f]));
    forall i: nat ensures Numbered(sent, i) <==> i < Total(files[f]) && !bits[i] {
      UnsentMembers(bits, Total(files[f]), i);
      if k :| 0 <= k < |numbers| && numbers[k] == i {
        assert sent[k].packetNumber == i;
      }
    }
  }
}
