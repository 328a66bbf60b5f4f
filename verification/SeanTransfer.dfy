/** lab6/others/Sean, both sides together: which files arrive, for every order, loss and repetition of what the client
    can send, the unfilled table entry included. */
module SeanTransfer {
  import opened SeanCodec
  import opened SeanLayout
  import opened SeanClient
  import opened SeanSender
  import opened SeanServer

  /** The first packet that claims to be chunk 0 is chunk 0. */
  ghost predicate ZeroComesFirst(sizes: seq<nat>, source: seq<int>, packets: seq<Packet>)
    requires |sizes| == FILES
  {
    forall k :: 0 <= k < |packets| && packets[k].index == 0 && !Comes(packets[..k], 0) ==>
      Genuine(sizes, source, packets[k])
  }

  /** The buffer with blanks for chunk 0. */
  ghost function Blanked(source: seq<int>): (blanked: seq<int>)
    ensures |blanked| == |source|
  {
    seq(|source|, i requires 0 <= i < |source| => if i < CHUNK_BUF then 0x20 else source[i])
  }

  /** The buffer as the first packets of the chunks bring it. */
  ghost function Seen(sizes: seq<nat>, source: seq<int>, packets: seq<Packet>): seq<int>
    requires |sizes| == FILES
  {
    if ZeroComesFirst(sizes, source, packets) then source else Blanked(source)
  }

  lemma SeenIsSource(sizes: seq<nat>, source: seq<int>, packets: seq<Packet>)
    requires IsSource(sizes, source)
    ensures IsSource(sizes, Seen(sizes, source, packets))
  {
    var total := End(sizes, FILES);
    assert forall i :: 0 <= i < total ==> source[i] == source[..total][i];
  }

  lemma BlankBrings(sizes: seq<nat>, source: seq<int>, p: Packet)
    requires IsSource(sizes, source) && p == Blank()
    ensures Brings(sizes, Blanked(source), p)
  {
    ZeroChunk(p.content);
    var chunk := DecodeChunk(p.content);
    assert forall i :: 0 <= i < CHUNK_BUF ==> chunk[i] == 0x20;
  }

  lemma RightWithBlanks(sizes: seq<nat>, source: seq<int>, k: nat, chunk: seq<int>)
    requires |sizes| == FILES && k > 0 && ChunkRight(sizes, source, k, chunk)
    ensures ChunkRight(sizes, Blanked(source), k, chunk)
  {
  }

  lemma LaterChunkBrings(sizes: seq<nat>, source: seq<int>, p: Packet)
    requires IsSource(sizes, source) && Genuine(sizes, source, p) && p.index > 0
    ensures Brings(sizes, Blanked(source), p)
  {
    GenuineBrings(sizes, source, p);
    RightWithBlanks(sizes, source, p.index, DecodeChunk(p.content));
  }

  lemma SeenExpected(sizes: seq<nat>, source: seq<int>, packets: seq<Packet>, k: nat)
    requires IsSource(sizes, source) && k < |packets| && Sendable(sizes, source, packets[k])
    ensures Expected(sizes, Seen(sizes, source, packets), packets, k)
  {
    var p := packets[k];
    if p.index !in META && !Comes(packets[..k], p.index) {
      if p.index > 0 {
        GenuineBrings(sizes, source, p);
        LaterChunkBrings(sizes, source, p);
      } else if Genuine(sizes, source, p) {
        FirstZeroDecides(sizes, source, packets, k);
        GenuineBrings(sizes, source, p);
      } else {
        assert !ZeroComesFirst(sizes, source, packets);
        BlankBrings(sizes, source, p);
      }
    }
  }

  lemma FirstZeroDecides(sizes: seq<nat>, source: seq<int>, packets: seq<Packet>, k: nat)
    requires |sizes| == FILES && k < |packets| && packets[k].index == 0 && !Comes(packets[..k], 0)
    ensures ZeroComesFirst(sizes, source, packets) <==> Genuine(sizes, source, packets[k])
  {
    forall i, j | 0 <= i < j < |packets| ensures Comes(packets[..j], packets[i].index) {
      assert packets[..j][i] == packets[i];
    }
  }

  // ---- what arrives ----

  /** The bytes of file f that the server writes. */
  ghost function Arriving(files: seq<seq<int>>, source: seq<int>, packets: seq<Packet>, f: nat): seq<int>
    requires |files| == FILES - 1 && f < |files|
  {
    var kept := Kept(files[f]);
    if ZeroComesFirst(Sizes(files), source, packets) then kept
    else
      seq(|kept|, j requires 0 <= j < |kept| => if End(Sizes(files), f) + j < CHUNK_BUF then 0x20 else kept[j])
  }

  /** The bytes of file f that lie in chunk 0 are blanks, if there are any. */
  ghost predicate BlankStart(files: seq<seq<int>>, f: nat)
    requires f < |files|
  {
    forall j :: 0 <= j < |Kept(files[f])| && End(Sizes(files), f) + j < CHUNK_BUF ==> Kept(files[f])[j] == 0x20
  }

  lemma ContentAt(sizes: seq<nat>, source: seq<int>, f: nat, j: nat)
    requires IsSource(sizes, source) && f < FILES && j < sizes[f]
    ensures |FileContent(sizes, source, f)| == sizes[f] && End(sizes, f) + j < |source|
    ensures FileContent(sizes, source, f)[j] == source[End(sizes, f) + j]
  {
    EndMonotone(sizes, f + 1, FILES);
    assert End(sizes, f + 1) == End(sizes, f) + sizes[f];
  }

  lemma ContentSize(sizes: seq<nat>, source: seq<int>, f: nat)
    requires IsSource(sizes, source) && f < FILES
    ensures |FileContent(sizes, source, f)| == sizes[f]
  {
    EndMonotone(sizes, f + 1, FILES);
    assert End(sizes, f + 1) == End(sizes, f) + sizes[f];
  }

  lemma SeenContent(files: seq<seq<int>>, source: seq<int>, packets: seq<Packet>, f: nat)
    requires |files| == FILES - 1 && f < |files| && IsSource(Sizes(files), source)
    requires FileContent(Sizes(files), source, f) == Kept(files[f])
    ensures IsSource(Sizes(files), Seen(Sizes(files), source, packets))
    ensures FileContent(Sizes(files), Seen(Sizes(files), source, packets), f) == Arriving(files, source, packets, f)
  {
    var sizes := Sizes(files);
    SeenIsSource(sizes, source, packets);
    if !ZeroComesFirst(sizes, source, packets) {
      var content := FileContent(sizes, Blanked(source), f);
      ContentSize(sizes, Blanked(source), f);
      forall j | 0 <= j < |content| ensures content[j] == Arriving(files, source, packets, f)[j] {
        ContentAt(sizes, source, f, j);
        ContentAt(sizes, Blanked(source), f, j);
      }
    }
  }

  /** A file arrives whole exactly when its size fits 16 bits, and the first packet that claims to be chunk 0 is
      chunk 0 or finds nothing but blanks there. */
  lemma ArrivesWhole(files: seq<seq<int>>, source: seq<int>, packets: seq<Packet>, f: nat)
    requires |files| == FILES - 1 && f < |files|
    ensures Arriving(files, source, packets, f) == files[f]
       <==> |files[f]| < 65536 && (ZeroComesFirst(Sizes(files), source, packets) || BlankStart(files, f))
  {
    KeptWhole(files[f]);
    var kept, arriving := Kept(files[f]), Arriving(files, source, packets, f);
    assert |arriving| == |kept|;
    if |files[f]| < 65536 && !ZeroComesFirst(Sizes(files), source, packets) {
      assert BlankStart(files, f) <==> forall j :: 0 <= j < |kept| ==> arriving[j] == kept[j];
    }
  }

  /** If every chunk comes at least once, the reception ends, and the server's disk holds of each file what arrives. */
  method Transfer(files: seq<seq<int>>, ghost source: seq<int>, packets: seq<Packet>, size: nat)
    returns (done: bool, disk: map<nat, seq<int>>)
    requires ClientBuffer(files, source) && forall f :: 0 <= f < |files| ==> Printable(files[f])
    requires ChunkCount(Sizes(files)) <= 10001 && |source| <= size
    requires forall k :: 0 <= k < |packets| ==> Sendable(Sizes(files), source, packets[k])
    ensures done <==> forall i :: 0 <= i < ChunkCount(Sizes(files)) ==> Comes(packets, i)
    ensures done ==> forall f :: 0 <= f < |files| ==> f in disk && disk[f] == Arriving(files, source, packets, f)
    ensures done ==> forall f :: 0 <= f < |files| ==>
      (disk[f] == files[f]
       <==> |files[f]| < 65536 && (ZeroComesFirst(Sizes(files), source, packets) || BlankStart(files, f)))
  {
    ghost var sizes := Sizes(files);
    ghost var seen := Seen(sizes, source, packets);
    ClientBufferIsSource(files, source);
    SeenIsSource(sizes, source, packets);
    var server := new Server(Sizes(files), size, seen);
    forall k | 0 <= k < |packets| ensures Expected(sizes, seen, packets, k) {
      SeenExpected(sizes, source, packets, k);
    }
    done := server.Run(packets);
    disk := server.disk;
    if done {
      forall f | 0 <= f < |files|
        ensures f in disk && disk[f] == Arriving(files, source, packets, f)
        ensures disk[f] == files[f]
           <==> |files[f]| < 65536 && (ZeroComesFirst(sizes, source, packets) || BlankStart(files, f))
      {
        assert server.OnDisk(f);
        SeenContent(files, source, packets, f);
        ArrivesWhole(files, source, packets, f);
      }
    }
  }

  // ---- a run that goes wrong ----

  /** One letter in file 0, nothing in the others. */
  function OneLetter(): (files: seq<seq<int>>)
    ensures |files| == FILES - 1
  {
    [[PAD]] + seq(FILES - 2, _ => [])
  }

  lemma OneLetterSizes(files: seq<seq<int>>)
    requires files == OneLetter()
    ensures ChunkCount(Sizes(files)) == 2 && forall f :: 0 <= f < |files| ==> Printable(files[f])
  {
    NothingAdded(Sizes(files), 1, FILES - 1);
  }

  lemma LetterIsNotBlank(sizes: seq<nat>, source: seq<int>, p: Packet)
    requires IsSource(sizes, source) && ChunkCount(sizes) == 2 && source[0] == PAD && p == Blank()
    ensures !Genuine(sizes, source, p)
  {
    if Genuine(sizes, source, p) {
      GenuineDecodes(sizes, source, p);
      ZeroChunk(p.content);
    }
  }

  /** The client's side: chunk 0 is lost in the first round and in the second, in which the report of chunk 1 makes
      it send an unfilled entry. Chunk 1 and that entry get through. */
  method ChunkZeroLost(meta1: seq<int>, meta2: seq<int>) returns (packets: seq<Packet>, ghost source: seq<int>)
    ensures ClientBuffer(OneLetter(), source) && |packets| == 2
    ensures packets[0].index == 1 && Genuine(Sizes(OneLetter()), source, packets[0]) && packets[1] == Blank()
  {
    var files := OneLetter();
    OneLetterSizes(files);
    var buffer := new int[2 * CHUNK_BUF];
    var sizes, chunks := MergeFiles(files, buffer);
    source := buffer[..chunks * CHUNK_BUF];
    var rup := FillTable(sizes, buffer, chunks, meta1, meta2);
    var turns := [Turn(true, META + {1}), Turn(true, {})];
    StrayInSecondTurn(sizes, source, rup, turns);
    var completed, sent := ResendRound(rup, chunks, {}, turns);
    assert EntryRight(sizes, source, 1, rup[1]);
    packets := [rup[1], sent[1]];
  }

  lemma LetterArrivesBlank(files: seq<seq<int>>, source: seq<int>, packets: seq<Packet>)
    requires files == OneLetter() && ClientBuffer(files, source) && |packets| == 2
    requires packets[0].index == 1 && packets[1] == Blank()
    ensures Arriving(files, source, packets, 0) == [0x20]
  {
    OneLetterSizes(files);
    ClientBufferIsSource(files, source);
    ContentAt(Sizes(files), source, 0, 0);
    LetterIsNotBlank(Sizes(files), source, packets[1]);
    FirstZeroDecides(Sizes(files), source, packets, 1);
  }

  /** The server ends, and the letter is a blank. */
  method LostChunkArrivesBlank(meta1: seq<int>, meta2: seq<int>) returns (done: bool, disk: map<nat, seq<int>>)
    ensures done && 0 in disk && disk[0] == [0x20] != OneLetter()[0]
  {
    var files := OneLetter();
    OneLetterSizes(files);
    ghost var source;
    var packets;
    packets, source := ChunkZeroLost(meta1, meta2);
    LetterArrivesBlank(files, source, packets);
    done, disk := Transfer(files, source, packets, 2 * CHUNK_BUF);
    assert Comes(packets, packets[0].index) && Comes(packets, packets[1].index);
  }
}
