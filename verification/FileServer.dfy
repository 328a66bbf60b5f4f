/** The receiving side of lab6/src/server.cpp: storing chunks, saving complete files, the window of files
    still asked for and the bitmaps sent back. */
module FileServer {
  import opened Crc
  import opened Packets

  /** INITIAL_WIN_SIZE. */
  const WINDOW: nat := 1000

  /** The global vectors, the window and the disk. */
  datatype ServerState = ServerState(stored: seq<seq<bool>>, datas: seq<seq<Bytes>>, expanded: seq<bool>, saved: seq<bool>,
                               startFile: nat, endFile: nat, disk: map<nat, Bytes>)

  predicate Shaped(s: ServerState) {
    && |s.stored| == |s.datas| == |s.expanded| == FILES && |s.saved| == FILES + 1
    && forall f :: 0 <= f < FILES ==> |s.stored[f]| == |s.datas[f]|
  }

  /** The indices that the code uses unchecked for a packet that passes the checksum. */
  predicate Acceptable(s: ServerState, p: Packet)
    requires Shaped(s)
  {
    Intact(p) ==>
      && p.fileNumber < FILES && p.packetNumber < p.totalPackets && p.length <= |p.data|
      && (s.expanded[p.fileNumber] ==> s.stored[p.fileNumber] == [] || |s.stored[p.fileNumber]| == p.totalPackets)
  }

  // ---- what one packet does ----

  function Resize(s: ServerState, p: Packet): (r: ServerState)
    requires Shaped(s) && p.fileNumber < FILES
    ensures Shaped(r) && r.expanded[p.fileNumber]
  {
    if s.expanded[p.fileNumber] then s
    else
      s.(stored := s.stored[p.fileNumber := seq(p.totalPackets, _ => false)],
         datas := s.datas[p.fileNumber := seq(p.totalPackets, _ => [])],
         expanded := s.expanded[p.fileNumber := true])
  }

  function Store(s: ServerState, p: Packet): (r: ServerState)
    requires Shaped(s) && p.fileNumber < FILES && p.packetNumber < |s.stored[p.fileNumber]| && p.length <= |p.data|
    ensures Shaped(r)
  {
    var f, i := p.fileNumber, p.packetNumber;
    if s.stored[f][i] then s
    else
      s.(stored := s.stored[f := s.stored[f][i := true]],
         datas := s.datas[f := s.datas[f][i := p.data[..p.length]]])
  }

  function Save(s: ServerState, f: nat): ServerState
    requires Shaped(s) && f < FILES
  {
    s.(disk := s.disk[f := Concat(s.datas[f])], stored := s.stored[f := []], datas := s.datas[f := []],
       saved := s.saved[f := true])
  }

  predicate AllSet(bits: seq<bool>) {
    forall j :: 0 <= j < |bits| ==> bits[j]
  }

  /** The new state, and whether the inner loop goes on receiving. */
  function Receive(s: ServerState, p: Packet): (ServerState, bool)
    requires Shaped(s) && Acceptable(s, p)
  {
    if !Intact(p) then (s, false)
    else
      var resized := Resize(s, p);
      if resized.stored[p.fileNumber] == [] then (resized, false)
      else
        var storing := Store(resized, p);
        if AllSet(storing.stored[p.fileNumber]) then (Save(storing, p.fileNumber), false) else (storing, true)
  }

  // ---- the window ----

  /** The least index from i on whose file is not saved; FILES + 1 when there is none. */
  function FirstUnsaved(saved: seq<bool>, i: nat): (k: nat)
    requires |saved| == FILES + 1 && i <= FILES + 1
    ensures i <= k <= FILES + 1 && forall j :: i <= j < k ==> saved[j]
    ensures k <= FILES ==> !saved[k]
    decreases FILES + 1 - i
  {
    if i <= FILES && saved[i] then FirstUnsaved(saved, i + 1) else i
  }

  function MoveWindow(s: ServerState): ServerState
    requires Shaped(s) && s.startFile <= FILES
  {
    var k := FirstUnsaved(s.saved, s.startFile);
    if k <= FILES then s.(startFile := k, endFile := Min(k + WINDOW, FILES)) else s
  }

  /** The bitmap for file f. Bits past the file's last packet are read from outside the vector: any value. */
  ghost predicate Acknowledges(s: ServerState, a: Ack)
    requires Shaped(s)
  {
    && a.fileNumber < FILES && |a.stored| == MAX_PACKETS
    && forall j :: 0 <= j < MAX_PACKETS ==>
         if s.stored[a.fileNumber] == [] then !a.stored[j]
         else j < |s.stored[a.fileNumber]| ==> a.stored[j] == s.stored[a.fileNumber][j]
  }

  /** One acknowledgement for every unsaved file of the window and for no other, in increasing order. */
  ghost predicate AckRound(s: ServerState, acks: seq<Ack>)
    requires Shaped(s) && s.startFile <= s.endFile <= FILES
  {
    && (forall k :: 0 <= k < |acks| ==> Acknowledges(s, acks[k]))
    && Increasing(acks)
    && forall f :: 0 <= f < FILES ==> (Named(acks, f) <==> s.startFile <= f < s.endFile && !s.saved[f])
  }

  ghost predicate Increasing(acks: seq<Ack>) {
    forall j, k :: 0 <= j < k < |acks| ==> acks[j].fileNumber < acks[k].fileNumber
  }

  ghost predicate Named(acks: seq<Ack>, f: nat) {
    exists k :: 0 <= k < |acks| && acks[k].fileNumber == f
  }

  // ---- the program ----

  class Server {
    var storedPacket: seq<seq<bool>>
    var datas: seq<seq<Bytes>>
    var expanded: seq<bool>
    var fileSaved: seq<bool>
    var startFile: nat
    var endFile: nat
    var disk: map<nat, Bytes>

    ghost function State(): ServerState
      reads this
    {
      ServerState(storedPacket, datas, expanded, fileSaved, startFile, endFile, disk)
    }

    /** The vectors as they are declared; files of an earlier run are removed from the disk. */
    constructor ()
      ensures State() == Initial()
    {
      storedPacket := seq(FILES, _ => []);
      datas := seq(FILES, _ => []);
      expanded := seq(FILES, _ => false);
      fileSaved := seq(FILES + 1, _ => false);
      startFile := 0;
      endFile := FILES;
      disk := map[];
    }

    /** store_file: writes the chunks of f one after the other. */
    method StoreFile(f: nat)
      requires Shaped(State()) && f < FILES
      modifies this`disk
      ensures disk == old(disk)[f := Concat(datas[f])]
    {
      var content := [];
      for j := 0 to |datas[f]|
        invariant content == Concat(datas[f][..j]) && disk == old(disk)
      {
        content := content + datas[f][j];
        assert datas[f][..j + 1][..j] == datas[f][..j];
      }
      assert datas[f][..|datas[f]|] == datas[f];
      disk := disk[f := content];
    }

    /** The scan for a missing chunk. */
    method Complete(f: nat) returns (saveFlag: bool)
      requires Shaped(State()) && f < FILES
      ensures saveFlag == AllSet(storedPacket[f])
    {
      saveFlag := true;
      for j := 0 to |storedPacket[f]|
        invariant saveFlag && forall i :: 0 <= i < j ==> storedPacket[f][i]
      {
        if storedPacket[f][j] {
          continue;
        }
        saveFlag := false;
        break;
      }
    }

    /** Once the number of packets is known the vectors of the file get their size. */
    method ResizeVectors(packet: Packet)
      requires Shaped(State()) && packet.fileNumber < FILES
      modifies this`storedPacket, this`datas, this`expanded
      ensures State() == Resize(old(State()), packet)
    {
      var f := packet.fileNumber;
      if !expanded[f] {
        storedPacket := storedPacket[f := seq(packet.totalPackets, _ => false)];
        datas := datas[f := seq(packet.totalPackets, _ => [])];
        expanded := expanded[f := true];
      }
    }

    method StorePacket(packet: Packet)
      requires Shaped(State()) && packet.fileNumber < FILES
      requires packet.packetNumber < |storedPacket[packet.fileNumber]| && packet.length <= |packet.data|
      modifies this`storedPacket, this`datas
      ensures State() == Store(old(State()), packet)
    {
      var f := packet.fileNumber;
      if !storedPacket[f][packet.packetNumber] {
        datas := datas[f := datas[f][packet.packetNumber := packet.data[..packet.length]]];
        storedPacket := storedPacket[f := storedPacket[f][packet.packetNumber := true]];
      }
    }

    method SaveFile(f: nat)
      requires Shaped(State()) && f < FILES
      modifies this`storedPacket, this`datas, this`fileSaved, this`disk
      ensures State() == Save(old(State()), f)
    {
      StoreFile(f);
      storedPacket := storedPacket[f := []];
      datas := datas[f := []];
      fileSaved := fileSaved[f := true];
    }

    method ChecksumFits(packet: Packet) returns (intact: bool)
      ensures intact == Intact(packet)
    {
      var calculated := Checksum(Header(packet), packet.data);
      SameWordBits(packet.checksum, calculated);
      return packet.checksum == calculated;
    }

    /** The body of the inner loop for one packet; `more` says that it goes on receiving. */
    method ReceivePacket(packet: Packet) returns (more: bool)
      requires Shaped(State()) && Acceptable(State(), packet)
      modifies this
      ensures (State(), more) == Receive(old(State()), packet)
      ensures more <==> Intact(packet) && storedPacket[packet.fileNumber] != []
      ensures !Intact(packet) ==> State() == old(State())
    {
      var f := packet.fileNumber;
      var intact := ChecksumFits(packet);
      if !intact {
        return false;
      }
      ResizeVectors(packet);
      if storedPacket[f] == [] {
        return false;
      }
      StorePacket(packet);
      var saveFlag := Complete(f);
      if saveFlag {
        SaveFile(f);
      }
      return !saveFlag;
    }

    /** Sets start_file and end_file: the first unsaved index from the old start on, up to the sentinel 1000. */
    method UpdateWindow()
      requires Shaped(State()) && startFile <= FILES
      modifies this`startFile, this`endFile
      ensures State() == MoveWindow(old(State()))
      ensures !fileSaved[FILES] ==>
        && old(startFile) <= startFile <= 1000 && !fileSaved[startFile]
        && (forall i :: old(startFile) <= i < startFile ==> fileSaved[i])
        && endFile == Min(startFile + 1000, 1000)
    {
      var i := startFile;
      while i <= FILES
        invariant startFile <= i <= FILES + 1 && State() == old(State())
        invariant FirstUnsaved(fileSaved, startFile) == FirstUnsaved(fileSaved, i)
        invariant forall j :: startFile <= j < i ==> fileSaved[j]
      {
        if !fileSaved[i] {
          startFile := i;
          endFile := i + WINDOW;
          if endFile >= FILES {
            endFile := FILES;
          }
          return;
        }
        i := i + 1;
      }
    }

    /** The bitmap for file f. */
    method Bitmap(f: nat) returns (bits: seq<bool>)
      requires Shaped(State()) && f < FILES
      ensures |bits| == 48
      ensures storedPacket[f] == [] ==> forall j :: 0 <= j < 48 ==> !bits[j]
      ensures storedPacket[f] != [] ==> forall j :: 0 <= j < 48 && j < |storedPacket[f]| ==> bits[j] == storedPacket[f][j]
    {
      bits := [];
      for j := 0 to MAX_PACKETS
        invariant |bits| == j
        invariant forall k :: 0 <= k < j ==>
          if storedPacket[f] == [] then !bits[k] else k < |storedPacket[f]| ==> bits[k] == storedPacket[f][k]
      {
        var bit: bool := *;
        if storedPacket[f] == [] {
          bit := false;
        } else if j < |storedPacket[f]| {
          bit := storedPacket[f][j];
        }
        bits := bits + [bit];
      }
    }

    /** The acknowledgements for the window. */
    method BuildAcks() returns (acks: seq<Ack>)
      requires Shaped(State()) && startFile <= endFile <= FILES
      ensures AckRound(State(), acks)
      ensures forall f :: 0 <= f < FILES ==> (Named(acks, f) <==> startFile <= f < endFile && !fileSaved[f])
      ensures forall j, k :: 0 <= j < k < |acks| ==> acks[j].fileNumber < acks[k].fileNumber
    {
      acks := [];
      for i := startFile to endFile
        invariant forall k :: 0 <= k < |acks| ==> acks[k].fileNumber < i && Acknowledges(State(), acks[k])
        invariant Increasing(acks)
        invariant forall f :: 0 <= f < FILES ==> (Named(acks, f) <==> startFile <= f < i && !fileSaved[f])
      {
        if fileSaved[i] {
          continue;
        }
        var bits := Bitmap(i);
        ghost var before := acks;
        acks := acks + [Ack(i, bits)];
        NamedNext(before, Ack(i, bits));
      }
    }
  }

  lemma NamedNext(acks: seq<Ack>, a: Ack)
    ensures forall f: nat :: Named(acks + [a], f) <==> Named(acks, f) || a.fileNumber == f
  {
    forall f: nat ensures Named(acks + [a], f) <==> Named(acks, f) || a.fileNumber == f {
      assert (acks + [a])[|acks|] == a;
      if k :| 0 <= k < |acks| && acks[k].fileNumber == f {
        assert (acks + [a])[k].fileNumber == f;
      }
    }
  }

  function Initial(): ServerState {
    ServerState(seq(FILES, _ => []), seq(FILES, _ => []), seq(FILES, _ => false), seq(FILES + 1, _ => false),
          0, FILES, map[])
  }
}
