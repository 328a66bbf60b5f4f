/** The protocol of lab6/src as a whole: client, server and a network that loses, repeats, delays and
    corrupts. Everything ever sent stays in a set; receiving picks any member any number of times. */
module Transfer {
  import opened Packets
  import opened FileServer

  datatype Phase = Waiting | Draining | Done

  datatype Client = Running | Finished | Failed

  datatype System = System(server: ServerState, phase: Phase, packets: set<Packet>, acks: set<Ack>, client: Client)

  /** 1000 files of at most 48 packets each. */
  ghost predicate GoodFiles(files: seq<Bytes>) {
    |files| == FILES && forall f :: 0 <= f < FILES ==> Total(files[f]) <= MAX_PACKETS
  }

  function Start(): System {
    System(Initial(), Waiting, {}, {}, Running)
  }

  // ---- steps ----

  /** What a receive can return: a packet that was sent, or a corrupted form of one. */
  ghost predicate Deliverable(a: System, p: Packet) {
    exists q :: q in a.packets && (p == q || Corrupted(q, p))
  }

  function FinishAck(): Ack {
    Ack(FINISH, seq(MAX_PACKETS, _ => false))
  }

  /** What follows the inner loop: the window moves, then FINISH if it is empty, or else a round of bitmaps. */
  ghost predicate AnswerRound(a: System, b: System)
    requires Shaped(a.server) && a.server.startFile <= FILES
  {
    var s := MoveWindow(a.server);
    && s.startFile <= s.endFile <= FILES
    && if s.startFile == s.endFile then
         b == a.(server := s, phase := Done, acks := a.acks + {FinishAck()})
       else
         exists acks :: AckRound(s, acks) &&
           b == a.(server := s, phase := Waiting, acks := a.acks + set k | 0 <= k < |acks| :: acks[k])
  }

  ghost predicate ReceiveStep(a: System, b: System, p: Packet) {
    && a.phase != Done && Deliverable(a, p)
    && Shaped(a.server) && Acceptable(a.server, p) && a.server.startFile <= FILES
    && var (s, more) := Receive(a.server, p);
       if more then b == a.(server := s, phase := Draining)
       else Shaped(s) && s.startFile <= FILES && AnswerRound(a.(server := s), b)
  }

  /** Only a timeout inside the inner loop is followed by acknowledgements. */
  ghost predicate TimeoutStep(a: System, b: System) {
    if a.phase == Draining then
      Shaped(a.server) && a.server.startFile <= FILES && AnswerRound(a, b)
    else
      b == a
  }

  /** The client sends the files an acknowledgement asks for. Acknowledgements carry no checksum, so the
      bitmap may be anything; this also covers init_send. */
  ghost predicate SendStep(files: seq<Bytes>, a: System, b: System, f: nat, bits: seq<bool>, sent: seq<Packet>) {
    && a.client == Running && |bits| == MAX_PACKETS && Reply(files, f, bits, sent)
    && b == a.(packets := a.packets + set k | 0 <= k < |sent| :: sent[k])
  }

  /** FINISH is not forged. A garbled file number can only make the client give up. */
  ghost predicate ClientEndStep(a: System, b: System) {
    && a.client == Running
    && (b == a.(client := Failed) || (FinishAck() in a.acks && b == a.(client := Finished)))
  }

  ghost predicate Step(files: seq<Bytes>, a: System, b: System) {
    || (exists p :: ReceiveStep(a, b, p))
    || TimeoutStep(a, b)
    || (exists f, bits, sent :: SendStep(files, a, b, f, bits, sent))
    || ClientEndStep(a, b)
  }

  ghost predicate Run(files: seq<Bytes>, trace: seq<System>) {
    |trace| > 0 && trace[0] == Start() && forall i :: 1 <= i < |trace| ==> Step(files, trace[i - 1], trace[i])
  }

  // ---- the invariant ----

  /** The server holds chunk i of f, in memory or as part of the saved file. */
  ghost predicate Held(s: ServerState, f: nat, i: nat)
    requires Shaped(s) && f < FILES
  {
    s.saved[f] || (i < |s.stored[f]| && s.stored[f][i])
  }

  ghost predicate FileOk(files: seq<Bytes>, s: ServerState, f: nat)
    requires GoodFiles(files) && Shaped(s) && f < FILES
  {
    && (s.saved[f] <==> f in s.disk)
    && (s.saved[f] ==> s.expanded[f] && s.stored[f] == [] && s.disk[f] == files[f])
    && (!s.expanded[f] ==> s.stored[f] == [])
    && (s.expanded[f] && !s.saved[f] ==> |s.stored[f]| == Total(files[f]) && !AllSet(s.stored[f]))
    && forall i :: 0 <= i < |s.stored[f]| && s.stored[f][i] ==>
         i < Total(files[f]) && s.datas[f][i] == Chunk(files[f], i)
  }

  ghost predicate ServerOk(files: seq<Bytes>, s: ServerState)
    requires GoodFiles(files)
  {
    && Shaped(s)
    && (forall f :: 0 <= f < FILES ==> FileOk(files, s, f))
    && !s.saved[FILES] && s.startFile <= s.endFile == FILES
    && forall f :: 0 <= f < s.startFile ==> s.saved[f]
  }

  ghost predicate AckOk(files: seq<Bytes>, s: ServerState, a: Ack)
    requires GoodFiles(files) && Shaped(s)
  {
    && (a.fileNumber == FINISH ==> forall f :: 0 <= f < FILES ==> s.saved[f])
    && (a.fileNumber < FILES ==> |a.stored| == MAX_PACKETS)
    && (a.fileNumber < FILES ==>
          forall i :: 0 <= i < Total(files[a.fileNumber]) && a.stored[i] ==> Held(s, a.fileNumber, i))
  }

  ghost predicate Invariant(files: seq<Bytes>, a: System)
    requires GoodFiles(files)
  {
    && ServerOk(files, a.server)
    && (forall p :: p in a.packets ==> Genuine(files, p))
    && (forall k :: k in a.acks ==> AckOk(files, a.server, k))
    && (a.phase == Done || a.client == Finished ==> forall f :: 0 <= f < FILES ==> a.server.saved[f])
  }

  // ---- receiving keeps it ----

  /** What is held stays held, and the files on disk stay. */
  ghost predicate Grows(s: ServerState, t: ServerState)
    requires Shaped(s) && Shaped(t)
  {
    && (forall f, i :: 0 <= f < FILES && i >= 0 && Held(s, f, i) ==> Held(t, f, i))
    && (forall f :: 0 <= f < FILES && s.saved[f] ==> t.saved[f])
    && s.startFile <= t.startFile
  }

  lemma GenuineAcceptable(files: seq<Bytes>, s: ServerState, p: Packet)
    requires GoodFiles(files) && ServerOk(files, s) && (Intact(p) ==> Genuine(files, p))
    ensures Acceptable(s, p)
  {
    if Intact(p) {
      assert FileOk(files, s, p.fileNumber);
    }
  }

  /** All that is kept about file f. */
  ghost predicate SameFile(s: ServerState, t: ServerState, f: nat)
    requires Shaped(s) && Shaped(t) && f < FILES
  {
    && t.stored[f] == s.stored[f] && t.datas[f] == s.datas[f] && t.expanded[f] == s.expanded[f]
    && t.saved[f] == s.saved[f] && (f in t.disk <==> f in s.disk) && (f in s.disk ==> t.disk[f] == s.disk[f])
  }

  lemma ResizeFrame(s: ServerState, p: Packet, f: nat)
    requires Shaped(s) && p.fileNumber < FILES && f < FILES && f != p.fileNumber
    ensures SameFile(s, Resize(s, p), f)
  {
  }

  lemma StoreFrame(s: ServerState, p: Packet, f: nat)
    requires Shaped(s) && p.fileNumber < FILES && p.packetNumber < |s.stored[p.fileNumber]| && p.length <= |p.data|
    requires f < FILES && f != p.fileNumber
    ensures SameFile(s, Store(s, p), f)
  {
  }

  lemma SaveFrame(s: ServerState, k: nat, f: nat)
    requires Shaped(s) && k < FILES && f < FILES && f != k
    ensures Shaped(Save(s, k)) && SameFile(s, Save(s, k), f)
  {
  }

  /** A packet changes nothing but its own file. */
  lemma ReceiveFrame(s: ServerState, p: Packet, f: nat)
    requires Shaped(s) && Acceptable(s, p) && f < FILES && (Intact(p) ==> f != p.fileNumber)
    ensures Shaped(Receive(s, p).0) && SameFile(s, Receive(s, p).0, f)
  {
    if Intact(p) {
      var resized := Resize(s, p);
      ResizeFrame(s, p, f);
      if resized.stored[p.fileNumber] != [] {
        var storing := Store(resized, p);
        StoreFrame(resized, p, f);
        SaveFrame(storing, p.fileNumber, f);
      }
    }
  }

  ghost predicate SameRest(s: ServerState, t: ServerState)
    requires Shaped(s) && Shaped(t)
  {
    t.startFile == s.startFile && t.endFile == s.endFile && t.saved[FILES] == s.saved[FILES]
  }

  lemma ReceiveShaped(s: ServerState, p: Packet)
    requires Shaped(s) && Acceptable(s, p)
    ensures Shaped(Receive(s, p).0)
  {
    ReceiveFrame(s, p, if p.fileNumber == 0 then 1 else 0);
  }

  /** A chunk that is stored keeps its bytes, whatever comes under its number, until its file is saved. */
  lemma StoredChunkStays(s: ServerState, p: Packet, f: nat, i: nat)
    requires Shaped(s) && Acceptable(s, p) && f < FILES && i < |s.stored[f]| && s.stored[f][i] && s.expanded[f]
    ensures var t := Receive(s, p).0;
      Shaped(t) && (t.stored[f] != [] ==> |t.stored[f]| == |s.stored[f]| && t.stored[f][i] && t.datas[f][i] == s.datas[f][i])
  {
    ReceiveShaped(s, p);
    if Intact(p) && f == p.fileNumber {
      assert Resize(s, p) == s && s.stored[f] != [];
    } else {
      ReceiveFrame(s, p, f);
    }
  }

  /** A packet leaves the window and the sentinel alone. */
  lemma ReceiveRest(s: ServerState, p: Packet)
    requires Shaped(s) && Acceptable(s, p)
    ensures Shaped(Receive(s, p).0) && SameRest(s, Receive(s, p).0)
  {
    ReceiveShaped(s, p);
    if Intact(p) {
      var resized := Resize(s, p);
      assert SameRest(s, resized);
      if resized.stored[p.fileNumber] != [] {
        assert SameRest(s, Store(resized, p));
      }
    }
  }

  lemma StoreKeepsChunks(files: seq<Bytes>, s: ServerState, p: Packet)
    requires GoodFiles(files) && Shaped(s) && Genuine(files, p) && FileOk(files, s, p.fileNumber)
    requires s.stored[p.fileNumber] != [] || !s.expanded[p.fileNumber]
    ensures var f := p.fileNumber; var t := Store(Resize(s, p), p);
      && Shaped(t) && |t.stored[f]| == Total(files[f]) && t.expanded[f] && t.saved == s.saved && t.disk == s.disk
      && (forall i :: 0 <= i < |t.stored[f]| && t.stored[f][i] ==> t.datas[f][i] == Chunk(files[f], i))
      && forall i :: 0 <= i < |t.stored[f]| ==>
           (t.stored[f][i] <==> i == p.packetNumber || (i < |s.stored[f]| && s.stored[f][i]))
  {
  }

  lemma CompleteFileIsRight(files: seq<Bytes>, s: ServerState, f: nat)
    requires GoodFiles(files) && Shaped(s) && f < FILES
    requires |s.stored[f]| == Total(files[f]) && AllSet(s.stored[f])
    requires forall i :: 0 <= i < |s.stored[f]| && s.stored[f][i] ==> s.datas[f][i] == Chunk(files[f], i)
    ensures Concat(s.datas[f]) == files[f]
  {
    assert s.datas[f] == Chunks(files[f]);
    ChunksRebuildFile(files[f]);
  }

  /** The packet's own file: still right, and the packet's chunk is held from now on. */
  lemma ReceiveOwnFile(files: seq<Bytes>, s: ServerState, p: Packet)
    requires GoodFiles(files) && ServerOk(files, s) && Genuine(files, p) && Acceptable(s, p)
    ensures var f := p.fileNumber; var t := Receive(s, p).0;
      && Shaped(t) && FileOk(files, t, f) && Held(t, f, p.packetNumber)
      && (forall i: nat :: Held(s, f, i) ==> Held(t, f, i))
      && (s.saved[f] ==> t == s)
  {
    var f := p.fileNumber;
    assert FileOk(files, s, f);
    if !s.saved[f] {
      StoreKeepsChunks(files, s, p);
      var storing := Store(Resize(s, p), p);
      if AllSet(storing.stored[f]) {
        CompleteFileIsRight(files, storing, f);
      }
    }
  }

  lemma ReceiveKeepsServer(files: seq<Bytes>, s: ServerState, p: Packet)
    requires GoodFiles(files) && ServerOk(files, s) && (Intact(p) ==> Genuine(files, p))
    ensures Acceptable(s, p) && ServerOk(files, Receive(s, p).0) && Grows(s, Receive(s, p).0)
  {
    GenuineAcceptable(files, s, p);
    var t := Receive(s, p).0;
    ReceiveRest(s, p);
    if Intact(p) {
      ReceiveOwnFile(files, s, p);
    }
    forall f | 0 <= f < FILES
      ensures FileOk(files, t, f)
      ensures s.saved[f] ==> t.saved[f]
      ensures forall i: nat :: Held(s, f, i) ==> Held(t, f, i)
    {
      assert FileOk(files, s, f);
      if !Intact(p) || f != p.fileNumber {
        ReceiveFrame(s, p, f);
      } else {
        assert s.saved[f] ==> Held(s, f, 0) && t == s;
      }
    }
  }

  lemma WindowKeepsServer(files: seq<Bytes>, s: ServerState)
    requires GoodFiles(files) && ServerOk(files, s)
    ensures ServerOk(files, MoveWindow(s)) && Grows(s, MoveWindow(s))
    ensures MoveWindow(s).startFile == FILES ==> forall f :: 0 <= f < FILES ==> s.saved[f]
  {
    var t := MoveWindow(s);
    assert forall f :: 0 <= f < FILES ==> FileOk(files, s, f) ==> FileOk(files, t, f);
  }

  lemma AcksStayOk(files: seq<Bytes>, s: ServerState, t: ServerState, acks: set<Ack>)
    requires GoodFiles(files) && Shaped(s) && Shaped(t) && Grows(s, t)
    requires forall k :: k in acks ==> AckOk(files, s, k)
    ensures forall k :: k in acks ==> AckOk(files, t, k)
  {
  }

  lemma AnswerKeepsInvariant(files: seq<Bytes>, a: System, b: System)
    requires GoodFiles(files) && Invariant(files, a) && AnswerRound(a, b)
    ensures Invariant(files, b) && Grows(a.server, b.server)
  {
    WindowKeepsServer(files, a.server);
    AcksStayOk(files, a.server, b.server, a.acks);
    forall k | k in b.acks ensures AckOk(files, b.server, k) {
      if k !in a.acks && k.fileNumber < FILES {
        assert FileOk(files, b.server, k.fileNumber);
      }
    }
  }

  /** The only packets that pass the checksum are the client's. */
  lemma DeliveredIntactIsGenuine(files: seq<Bytes>, a: System, p: Packet)
    requires GoodFiles(files) && Invariant(files, a) && Deliverable(a, p)
    ensures Intact(p) ==> Genuine(files, p)
  {
    var q :| q in a.packets && (p == q || Corrupted(q, p));
    if p != q {
      CorruptedIsRejected(q, p);
    }
  }

  lemma ReceiveStepKeepsInvariant(files: seq<Bytes>, a: System, b: System, p: Packet)
    requires GoodFiles(files) && Invariant(files, a) && ReceiveStep(a, b, p)
    ensures Invariant(files, b) && Grows(a.server, b.server)
  {
    DeliveredIntactIsGenuine(files, a, p);
    ReceiveKeepsServer(files, a.server, p);
    var (s, more) := Receive(a.server, p);
    AcksStayOk(files, a.server, s, a.acks);
    var mid := a.(server := s);
    if more {
      assert Invariant(files, b);
    } else {
      assert Invariant(files, mid);
      AnswerKeepsInvariant(files, mid, b);
    }
  }

  lemma StepKeepsInvariant(files: seq<Bytes>, a: System, b: System)
    requires GoodFiles(files) && Invariant(files, a) && Step(files, a, b)
    ensures Invariant(files, b) && Grows(a.server, b.server)
  {
    if p :| ReceiveStep(a, b, p) {
      ReceiveStepKeepsInvariant(files, a, b, p);
    } else if TimeoutStep(a, b) {
      if a.phase == Draining {
        AnswerKeepsInvariant(files, a, b);
      }
    } else if f, bits, sent :| SendStep(files, a, b, f, bits, sent) {
    } else {
      assert ClientEndStep(a, b);
    }
  }

  lemma GrowsTransitive(s: ServerState, t: ServerState, u: ServerState)
    requires Shaped(s) && Shaped(t) && Shaped(u) && Grows(s, t) && Grows(t, u)
    ensures Grows(s, u)
  {
  }

  lemma StartInvariant(files: seq<Bytes>)
    requires GoodFiles(files)
    ensures Invariant(files, Start())
  {
    var s := Start().server;
    assert forall f :: 0 <= f < FILES ==> FileOk(files, s, f);
  }

  lemma {:induction false} RunInvariant(files: seq<Bytes>, trace: seq<System>)
    requires GoodFiles(files) && Run(files, trace)
    ensures forall i :: 0 <= i < |trace| ==> Invariant(files, trace[i])
  {
    StartInvariant(files);
    for n := 1 to |trace|
      invariant forall i :: 0 <= i < n ==> Invariant(files, trace[i])
    {
      StepKeepsInvariant(files, trace[n - 1], trace[n]);
    }
  }

  /** No step relies on luck: in every reachable state all indices that the server uses unchecked, for any packet
      that can arrive and for its window, are in range. */
  lemma IndicesInRange(files: seq<Bytes>, trace: seq<System>, p: Packet)
    requires GoodFiles(files) && Run(files, trace) && Deliverable(trace[|trace| - 1], p)
    ensures var s := trace[|trace| - 1].server;
      && Shaped(s) && Acceptable(s, p) && s.startFile <= FILES
      && Shaped(Receive(s, p).0) && Receive(s, p).0.startFile <= FILES
      && MoveWindow(Receive(s, p).0).startFile <= MoveWindow(Receive(s, p).0).endFile == FILES
  {
    RunInvariant(files, trace);
    var last := trace[|trace| - 1];
    assert Invariant(files, last);
    DeliveredIntactIsGenuine(files, last, p);
    ReceiveKeepsServer(files, last.server, p);
    WindowKeepsServer(files, Receive(last.server, p).0);
  }

  // ---- what the server answers ----

  lemma WindowExact(s: ServerState)
    requires Shaped(s) && s.startFile <= FILES && !s.saved[FILES]
    ensures var t := MoveWindow(s);
      && s.startFile <= t.startFile <= FILES && !s.saved[t.startFile] && t.endFile == FILES
      && forall i :: s.startFile <= i < t.startFile ==> s.saved[i]
  {
  }

  /** FINISH is sent exactly when all files are saved, in the very next answer. */
  lemma FinishIffAllSaved(files: seq<Bytes>, a: System, b: System)
    requires GoodFiles(files) && Invariant(files, a) && AnswerRound(a, b)
    ensures b.phase == Done <==> forall f :: 0 <= f < FILES ==> a.server.saved[f]
    ensures b.phase == Done ==> FinishAck() in b.acks
    ensures b.phase != Done ==> b.phase == Waiting && (FinishAck() in b.acks ==> FinishAck() in a.acks)
  {
    WindowExact(a.server);
  }

  /** A bitmap for f that reports exactly the chunks held, as far as the file goes. */
  ghost predicate Reports(files: seq<Bytes>, s: ServerState, f: nat, k: Ack)
    requires GoodFiles(files) && Shaped(s) && f < FILES
  {
    && k.fileNumber == f && |k.stored| == MAX_PACKETS
    && forall i :: 0 <= i < Total(files[f]) ==> (k.stored[i] <==> Held(s, f, i))
  }

  /** An answer that is not FINISH reports on every file that is not saved and on no other. */
  lemma AnswerReportsUnsaved(files: seq<Bytes>, a: System, b: System, f: nat)
    requires GoodFiles(files) && Invariant(files, a) && AnswerRound(a, b) && b.phase == Waiting && f < FILES
    ensures Shaped(b.server) && (b.server.saved[f] <==> f in b.server.disk)
    ensures f !in b.server.disk ==> exists k :: k in b.acks && Reports(files, b.server, f, k)
    ensures f in b.server.disk ==> forall k :: k in b.acks - a.acks ==> k.fileNumber != f
  {
    WindowKeepsServer(files, a.server);
    WindowExact(a.server);
    var s := b.server;
    var acks: seq<Ack> :| AckRound(s, acks) && b.acks == a.acks + set k | 0 <= k < |acks| :: acks[k];
    assert FileOk(files, s, f);
    if !s.saved[f] {
      assert Named(acks, f);
      var k :| 0 <= k < |acks| && acks[k].fileNumber == f;
      assert Acknowledges(s, acks[k]) && Reports(files, s, f, acks[k]);
    } else {
      assert !Named(acks, f);
    }
  }

  // ---- main results ----

  /** End to end: a file on the server's disk is the client's file, at every moment; once the server has
      sent FINISH, or the client has stopped on it, all files are there. */
  lemma FilesArriveIntact(files: seq<Bytes>, trace: seq<System>)
    requires GoodFiles(files) && Run(files, trace)
    ensures var last := trace[|trace| - 1];
      && (forall f :: 0 <= f < FILES && f in last.server.disk ==> last.server.disk[f] == files[f])
      && (last.phase == Done || last.client == Finished ==> forall f :: 0 <= f < FILES ==> f in last.server.disk)
  {
    RunInvariant(files, trace);
    var s := trace[|trace| - 1].server;
    forall f | 0 <= f < FILES
      ensures f in s.disk ==> s.disk[f] == files[f]
      ensures s.saved[f] ==> f in s.disk
    {
      assert FileOk(files, s, f);
    }
  }

  /** However old an acknowledgement is, every bit it sets below the packet count names a chunk that the
      server holds now. */
  lemma NoAckWithholdsData(files: seq<Bytes>, trace: seq<System>, a: Ack, i: nat)
    requires GoodFiles(files) && Run(files, trace) && a in trace[|trace| - 1].acks
    requires a.fileNumber < FILES && i < Total(files[a.fileNumber]) && i < |a.stored| && a.stored[i]
    ensures var s := trace[|trace| - 1].server;
      Shaped(s) && (a.fileNumber in s.disk || (i < |s.stored[a.fileNumber]| && s.stored[a.fileNumber][i]))
  {
    RunInvariant(files, trace);
    var last := trace[|trace| - 1];
    assert Invariant(files, last);
    assert AckOk(files, last.server, a);
    assert FileOk(files, last.server, a.fileNumber);
  }

  ghost predicate GrowsAt(trace: seq<System>, k: nat)
    requires k + 1 < |trace|
  {
    Shaped(trace[k].server) && Shaped(trace[k + 1].server) && Grows(trace[k].server, trace[k + 1].server)
  }

  lemma {:induction false} GrowsChain(trace: seq<System>, i: nat, j: nat)
    requires i <= j < |trace| && Shaped(trace[i].server)
    requires forall k: nat :: k + 1 < |trace| ==> GrowsAt(trace, k)
    ensures Shaped(trace[j].server) && Grows(trace[i].server, trace[j].server)
    decreases j
  {
    if i < j {
      GrowsChain(trace, i, j - 1);
      assert GrowsAt(trace, j - 1);
      GrowsTransitive(trace[i].server, trace[j - 1].server, trace[j].server);
    }
  }

  /** Over any stretch of a run nothing held is lost and start_file does not go back. */
  lemma GrowsAlongRun(files: seq<Bytes>, trace: seq<System>, i: nat, j: nat)
    requires GoodFiles(files) && Run(files, trace) && i <= j < |trace|
    ensures Shaped(trace[i].server) && Shaped(trace[j].server) && Grows(trace[i].server, trace[j].server)
  {
    RunInvariant(files, trace);
    forall k: nat | k + 1 < |trace| ensures GrowsAt(trace, k) {
      StepKeepsInvariant(files, trace[k], trace[k + 1]);
    }
    assert Invariant(files, trace[i]);
    GrowsChain(trace, i, j);
  }

  // ---- one answered acknowledgement is enough ----

  /** Some step between the states i and j of the run receives p. */
  ghost predicate ReceivedBetween(trace: seq<System>, p: Packet, i: nat, j: nat) {
    exists k: nat :: i <= k < j < |trace| && ReceivedAt(trace, p, k)
  }

  ghost predicate ReceivedAt(trace: seq<System>, p: Packet, k: nat)
    requires k + 1 < |trace|
  {
    ReceiveStep(trace[k], trace[k + 1], p)
  }

  lemma ReceivedAtHolds(files: seq<Bytes>, trace: seq<System>, p: Packet, k: nat)
    requires GoodFiles(files) && Run(files, trace) && Genuine(files, p) && k + 1 < |trace| && ReceivedAt(trace, p, k)
    ensures Shaped(trace[k + 1].server) && Held(trace[k + 1].server, p.fileNumber, p.packetNumber)
  {
    RunInvariant(files, trace);
    ReceiveStepHolds(files, trace[k], trace[k + 1], p);
  }

  lemma ReceiveStepHolds(files: seq<Bytes>, a: System, b: System, p: Packet)
    requires GoodFiles(files) && Invariant(files, a) && Genuine(files, p) && ReceiveStep(a, b, p)
    ensures Shaped(b.server) && Held(b.server, p.fileNumber, p.packetNumber)
  {
    ReceiveOwnFile(files, a.server, p);
    ReceiveKeepsServer(files, a.server, p);
    var (s, more) := Receive(a.server, p);
    if !more {
      AcksStayOk(files, a.server, s, a.acks);
      AnswerKeepsInvariant(files, a.(server := s), b);
    }
  }

  lemma StaysHeld(files: seq<Bytes>, trace: seq<System>, f: nat, n: nat, i: nat, j: nat)
    requires GoodFiles(files) && Run(files, trace) && f < FILES && i <= j < |trace|
    requires Shaped(trace[i].server) && Held(trace[i].server, f, n)
    ensures Shaped(trace[j].server) && Held(trace[j].server, f, n)
  {
    GrowsAlongRun(files, trace, i, j);
  }

  lemma ReceivedAtStaysHeld(files: seq<Bytes>, trace: seq<System>, p: Packet, k: nat, j: nat)
    requires GoodFiles(files) && Run(files, trace) && Genuine(files, p) && k < j < |trace| && ReceivedAt(trace, p, k)
    ensures Shaped(trace[j].server) && Held(trace[j].server, p.fileNumber, p.packetNumber)
  {
    ReceivedAtHolds(files, trace, p, k);
    StaysHeld(files, trace, p.fileNumber, p.packetNumber, k + 1, j);
  }

  lemma ReceivedIsHeld(files: seq<Bytes>, trace: seq<System>, p: Packet, i: nat, j: nat)
    requires GoodFiles(files) && Run(files, trace) && Genuine(files, p) && ReceivedBetween(trace, p, i, j)
    ensures Shaped(trace[j].server) && Held(trace[j].server, p.fileNumber, p.packetNumber)
  {
    var k: nat :| i <= k < j < |trace| && ReceivedAt(trace, p, k);
    ReceivedAtStaysHeld(files, trace, p, k, j);
  }

  lemma AllHeldIsSaved(files: seq<Bytes>, s: ServerState, f: nat)
    requires GoodFiles(files) && ServerOk(files, s) && f < FILES
    requires forall i :: 0 <= i < Total(files[f]) ==> Held(s, f, i)
    ensures f in s.disk && s.disk[f] == files[f]
  {
    assert FileOk(files, s, f) && Held(s, f, 0);
    if s.expanded[f] && !s.saved[f] {
      forall i | 0 <= i < |s.stored[f]| ensures s.stored[f][i] {
        assert Held(s, f, i);
      }
    }
  }

  /** Take any acknowledgement for f that is under way at some moment of a run, however old, and a reply that the
      client gives to it. When all packets of the reply have been received, in any order and with any other steps
      before, between and after them, f is saved and right. */
  lemma AnsweredAckSavesFile(files: seq<Bytes>, trace: seq<System>, i: nat, j: nat, a: Ack, reply: seq<Packet>)
    requires GoodFiles(files) && Run(files, trace) && i <= j < |trace| && a in trace[i].acks
    requires a.fileNumber < FILES && Reply(files, a.fileNumber, a.stored, reply)
    requires forall p :: p in reply ==> ReceivedBetween(trace, p, i, j)
    ensures a.fileNumber in trace[j].server.disk && trace[j].server.disk[a.fileNumber] == files[a.fileNumber]
  {
    RunInvariant(files, trace);
    assert Invariant(files, trace[i]) && Invariant(files, trace[j]);
    assert AckOk(files, trace[i].server, a);
    GrowsAlongRun(files, trace, i, j);
    var f := a.fileNumber;
    forall n | 0 <= n < Total(files[f]) ensures Held(trace[j].server, f, n) {
      if a.stored[n] {
        assert Held(trace[i].server, f, n);
      } else {
        ReplyCovers(files, f, a.stored, reply, n);
        var p :| p in reply && p.fileNumber == f && p.packetNumber == n;
        ReceivedIsHeld(files, trace, p, i, j);
      }
    }
    AllHeldIsSaved(files, trace[j].server, f);
  }

  // ---- the measure ----

  function CountMissing(bits: seq<bool>): nat {
    if bits == [] then 0 else CountMissing(bits[..|bits| - 1]) + (if bits[|bits| - 1] then 0 else 1)
  }

  function MissingIn(files: seq<Bytes>, s: ServerState, f: nat): nat
    requires |files| == FILES && Shaped(s) && f < FILES
  {
    if s.saved[f] then 0 else if !s.expanded[f] then Total(files[f]) else CountMissing(s.stored[f])
  }

  /** Chunks that the server does not hold, over the first n files. */
  function Missing(files: seq<Bytes>, s: ServerState, n: nat): nat
    requires |files| == FILES && Shaped(s) && n <= FILES
  {
    if n == 0 then 0 else Missing(files, s, n - 1) + MissingIn(files, s, n - 1)
  }

  lemma {:induction false} CountAllMissing(n: nat)
    ensures CountMissing(seq(n, _ => false)) == n
  {
    if n > 0 {
      CountAllMissing(n - 1);
      assert seq(n, _ => false)[..n - 1] == seq(n - 1, _ => false);
    }
  }

  lemma {:induction false} CountNoneMissing(bits: seq<bool>)
    requires AllSet(bits)
    ensures CountMissing(bits) == 0
  {
    if bits != [] {
      CountNoneMissing(bits[..|bits| - 1]);
    }
  }

  lemma {:induction false} CountAfterSet(bits: seq<bool>, i: nat)
    requires i < |bits|
    ensures CountMissing(bits[i := true]) == CountMissing(bits) - (if bits[i] then 0 else 1)
  {
    var last := |bits| - 1;
    if i < last {
      CountAfterSet(bits[..last], i);
      assert bits[i := true][..last] == bits[..last][i := true];
    } else {
      assert bits[i := true][..last] == bits[..last];
    }
  }

  lemma MissingInStored(files: seq<Bytes>, s: ServerState, p: Packet)
    requires GoodFiles(files) && Shaped(s) && Genuine(files, p)
    requires FileOk(files, s, p.fileNumber) && !s.saved[p.fileNumber]
    ensures var f := p.fileNumber; var t := Store(Resize(s, p), p);
      && t.stored[f] != []
      && CountMissing(t.stored[f]) == MissingIn(files, s, f) - (if Held(s, f, p.packetNumber) then 0 else 1)
  {
    var f := p.fileNumber;
    var resized := Resize(s, p);
    StoreKeepsChunks(files, s, p);
    CountAllMissing(p.totalPackets);
    CountAfterSet(resized.stored[f], p.packetNumber);
    assert resized.stored[f][p.packetNumber] ==> resized.stored[f][p.packetNumber := true] == resized.stored[f];
  }

  /** Saving a complete file does not change what is missing of it. */
  lemma MissingInSaved(files: seq<Bytes>, s: ServerState, f: nat)
    requires |files| == FILES && Shaped(s) && f < FILES && s.expanded[f] && !s.saved[f]
    ensures var t := if AllSet(s.stored[f]) then Save(s, f) else s;
      Shaped(t) && MissingIn(files, t, f) == CountMissing(s.stored[f])
  {
    if AllSet(s.stored[f]) {
      CountNoneMissing(s.stored[f]);
    }
  }

  lemma MissingInAfter(files: seq<Bytes>, s: ServerState, p: Packet)
    requires GoodFiles(files) && ServerOk(files, s) && Genuine(files, p) && Acceptable(s, p)
    ensures var f := p.fileNumber; var t := Receive(s, p).0;
      Shaped(t) && MissingIn(files, t, f) == MissingIn(files, s, f) - (if Held(s, f, p.packetNumber) then 0 else 1)
  {
    assert FileOk(files, s, p.fileNumber);
    if !s.saved[p.fileNumber] {
      MissingInStored(files, s, p);
      MissingInSaved(files, Store(Resize(s, p), p), p.fileNumber);
    } else {
      ReceiveOwnFile(files, s, p);
    }
  }

  lemma {:induction false} MissingChangesInOneFile(files: seq<Bytes>, s: ServerState, t: ServerState, f: nat, n: nat)
    requires |files| == FILES && Shaped(s) && Shaped(t) && n <= FILES
    requires forall g :: 0 <= g < n && g != f ==> MissingIn(files, t, g) == MissingIn(files, s, g)
    ensures Missing(files, t, n) - Missing(files, s, n)
         == if f < n then MissingIn(files, t, f) - MissingIn(files, s, f) else 0
  {
    if n > 0 {
      MissingChangesInOneFile(files, s, t, f, n - 1);
    }
  }

  /** A delivered packet lowers the number of missing chunks by exactly one when it brings a new chunk, and
      leaves it alone when it is damaged, a duplicate, or late for a saved file. */
  lemma ReceiveMeasure(files: seq<Bytes>, s: ServerState, p: Packet)
    requires GoodFiles(files) && ServerOk(files, s) && (Intact(p) ==> Genuine(files, p))
    ensures Acceptable(s, p) && Shaped(Receive(s, p).0)
    ensures Missing(files, Receive(s, p).0, FILES)
         == Missing(files, s, FILES) - (if Intact(p) && !Held(s, p.fileNumber, p.packetNumber) then 1 else 0)
  {
    ReceiveKeepsServer(files, s, p);
    var t := Receive(s, p).0;
    if Intact(p) {
      MissingInAfter(files, s, p);
      forall g | 0 <= g < FILES && g != p.fileNumber ensures MissingIn(files, t, g) == MissingIn(files, s, g) {
        ReceiveFrame(s, p, g);
      }
      MissingChangesInOneFile(files, s, t, p.fileNumber, FILES);
    }
  }

  lemma AnswerKeepsMissing(files: seq<Bytes>, a: System, b: System)
    requires GoodFiles(files) && Invariant(files, a) && AnswerRound(a, b)
    ensures Shaped(b.server) && Missing(files, b.server, FILES) == Missing(files, a.server, FILES)
  {
    MissingChangesInOneFile(files, a.server, b.server, FILES, FILES);
  }

  /** No step loses a chunk, and no step gains more than one. */
  lemma StepMeasure(files: seq<Bytes>, a: System, b: System)
    requires GoodFiles(files) && Invariant(files, a) && Step(files, a, b)
    ensures Shaped(b.server)
    ensures Missing(files, a.server, FILES) - 1 <= Missing(files, b.server, FILES) <= Missing(files, a.server, FILES)
  {
    if p :| ReceiveStep(a, b, p) {
      DeliveredIntactIsGenuine(files, a, p);
      ReceiveMeasure(files, a.server, p);
      var (s, more) := Receive(a.server, p);
      if !more {
        ReceiveKeepsServer(files, a.server, p);
        AcksStayOk(files, a.server, s, a.acks);
        assert Invariant(files, a.(server := s));
        AnswerKeepsMissing(files, a.(server := s), b);
      }
    } else if TimeoutStep(a, b) && a.phase == Draining {
      AnswerKeepsMissing(files, a, b);
    }
  }
}
