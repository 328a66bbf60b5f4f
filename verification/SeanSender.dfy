/** lab6/others/Sean/client.cpp, sending: the packet table, and the rounds that send again what the server's bitmap
    does not report. The loop that skips reported chunks does not stop at the last one, so a round can send an
    entry of the table that was never filled. */
module SeanSender {
  import opened SeanCodec
  import opened SeanLayout

  datatype Packet = Packet(index: nat, content: seq<int>)

  const META: set<nat> := {10001, 10002}

  /** A data packet as the client packs it. */
  ghost predicate Genuine(sizes: seq<nat>, source: seq<int>, p: Packet)
    requires |sizes| == FILES
  {
    && p.index < ChunkCount(sizes)
    && (p.index + 1) * CHUNK_BUF <= |source|
    && p.content == EncodeChunk(source[p.index * CHUNK_BUF..(p.index + 1) * CHUNK_BUF])
  }

  /** A table entry that was never filled: it claims to be chunk 0. */
  function Blank(): Packet {
    Packet(0, seq(CHUNK_PKT, _ => 0))
  }

  ghost predicate Sendable(sizes: seq<nat>, source: seq<int>, p: Packet)
    requires |sizes| == FILES
  {
    Genuine(sizes, source, p) || p == Blank() || p.index in META
  }

  // ---- the table ----

  ghost predicate EntryRight(sizes: seq<nat>, source: seq<int>, k: nat, p: Packet)
    requires |sizes| == FILES
  {
    if k < ChunkCount(sizes) then p.index == k && Genuine(sizes, source, p)
    else if k in META then p.index == k
    else p == Blank()
  }

  ghost predicate IsTable(sizes: seq<nat>, source: seq<int>, rup: seq<Packet>)
    requires |sizes| == FILES
  {
    |rup| == TABLE && forall k :: 0 <= k < TABLE ==> EntryRight(sizes, source, k, rup[k])
  }

  /** The table when the first k chunks are packed. */
  ghost predicate FilledTo(sizes: seq<nat>, source: seq<int>, rup: seq<Packet>, k: nat)
    requires |sizes| == FILES
  {
    && |rup| == TABLE
    && forall i :: 0 <= i < TABLE && (i < k || ChunkCount(sizes) <= i) ==> EntryRight(sizes, source, i, rup[i])
  }

  lemma EntryAdded(sizes: seq<nat>, source: seq<int>, rup: seq<Packet>, k: nat, p: Packet)
    requires |sizes| == FILES && k < ChunkCount(sizes) <= 10001 && FilledTo(sizes, source, rup, k)
    requires (k + 1) * CHUNK_BUF <= |source|
    requires p == Packet(k, EncodeChunk(source[k * CHUNK_BUF..(k + 1) * CHUNK_BUF]))
    ensures FilledTo(sizes, source, rup[k := p], k + 1)
  {
    assert EntryRight(sizes, source, k, p);
  }

  /** The two metadata entries, and then the loop that packs all chunks. */
  method FillTable(ghost sizes: seq<nat>, buffer: array<int>, chunks: nat, meta1: seq<int>, meta2: seq<int>)
    returns (rup: seq<Packet>)
    requires |sizes| == FILES && chunks == ChunkCount(sizes) <= 10001 && chunks * CHUNK_BUF <= buffer.Length
    ensures IsTable(sizes, buffer[..chunks * CHUNK_BUF], rup)
  {
    ghost var source := buffer[..chunks * CHUNK_BUF];
    rup := seq(TABLE, _ => Blank());
    rup := rup[10001 := Packet(10001, meta1)][10002 := Packet(10002, meta2)];
    for k := 0 to chunks
      invariant FilledTo(sizes, source, rup, k)
    {
      ChunkFits(k, chunks);
      var p := Packed(buffer, k);
      assert source[k * CHUNK_BUF..(k + 1) * CHUNK_BUF] == buffer[k * CHUNK_BUF..(k + 1) * CHUNK_BUF];
      EntryAdded(sizes, source, rup, k, p);
      rup := rup[k := p];
    }
  }

  lemma ChunkFits(k: nat, chunks: nat)
    requires k < chunks
    ensures (k + 1) * CHUNK_BUF <= chunks * CHUNK_BUF
  {
  }

  method Packed(buffer: array<int>, k: nat) returns (p: Packet)
    requires (k + 1) * CHUNK_BUF <= buffer.Length
    ensures p == Packet(k, EncodeChunk(buffer[k * CHUNK_BUF..(k + 1) * CHUNK_BUF]))
  {
    var content := new int[CHUNK_PKT];
    PackChunk(buffer, k, content);
    return Packet(k, content[..]);
  }

  // ---- a round ----

  /** The client marks what the server reports: chunks and metadata. */
  ghost predicate Marks(chunks: nat, completed: set<nat>) {
    chunks <= 10001 && forall i :: i in completed ==> i < chunks || i in META
  }

  /** Where the skipping loop stops: the least unmarked number from k on. */
  function Next(completed: set<nat>, chunks: nat, k: nat): (n: nat)
    requires Marks(chunks, completed) && k < 10004
    ensures k <= n < 10004 && n !in completed && forall i :: k <= i < n ==> i in completed
    decreases 10004 - k
  {
    if k in completed then Next(completed, chunks, k + 1) else k
  }

  method Skip(completed: set<nat>, ghost chunks: nat, k: nat) returns (n: nat)
    requires Marks(chunks, completed) && k < 10004
    ensures n == Next(completed, chunks, k)
  {
    n := k;
    while n in completed
      invariant n < 10004 && Next(completed, chunks, n) == Next(completed, chunks, k)
      decreases 10004 - n
    {
      n := n + 1;
    }
  }

  /** The packet picked is the least unmarked chunk from k on, exactly when there is one. Otherwise the skip has
      left the chunks, and the entry picked claims to be chunk 0 or is metadata again. */
  lemma PickedEntry(sizes: seq<nat>, source: seq<int>, rup: seq<Packet>, completed: set<nat>, k: nat)
    requires |sizes| == FILES && IsTable(sizes, source, rup)
    requires k < ChunkCount(sizes) && Marks(ChunkCount(sizes), completed)
    ensures var chunks := ChunkCount(sizes); var n := Next(completed, chunks, k);
      && (n < chunks <==> exists i :: k <= i < chunks && i !in completed)
      && (if n < chunks then rup[n].index == n && Genuine(sizes, source, rup[n])
          else if n in META then rup[n].index == n else rup[n] == Blank())
  {
    assert EntryRight(sizes, source, Next(completed, ChunkCount(sizes), k), rup[Next(completed, ChunkCount(sizes), k)]);
  }

  /** One turn of a round: whether the clock allows a packet, and the bits of the report read, if any. */
  datatype Turn = Turn(due: bool, report: set<nat>)

  ghost predicate Reports(chunks: nat, turns: seq<Turn>) {
    forall t :: 0 <= t < |turns| ==> Marks(chunks, turns[t].report)
  }

  /** The marks after the turns of a round from chunk k on, and the packets sent. */
  function Round(rup: seq<Packet>, chunks: nat, k: nat, completed: set<nat>, turns: seq<Turn>): (r: (set<nat>, seq<Packet>))
    requires |rup| == TABLE && k <= 10004 && Marks(chunks, completed) && Reports(chunks, turns)
    decreases |turns|
  {
    if k >= chunks || turns == [] then (completed, [])
    else
      var n := Next(completed, chunks, k);
      var rest := Round(rup, chunks, if turns[0].due then n + 1 else n, completed + turns[0].report, turns[1..]);
      (rest.0, (if turns[0].due then [rup[n]] else []) + rest.1)
  }

  /** The skip, and the packet if one is due; otherwise the counter steps back before it is counted up. */
  method PickAndSend(rup: seq<Packet>, ghost chunks: nat, k: nat, completed: set<nat>, due: bool)
    returns (next: nat, sent: seq<Packet>)
    requires |rup| == TABLE && k < chunks && Marks(chunks, completed)
    ensures var n := Next(completed, chunks, k);
      next == (if due then n + 1 else n) && sent == if due then [rup[n]] else []
  {
    var i: int := Skip(completed, chunks, k);
    sent := [];
    if due {
      sent := [rup[i]];
    } else {
      i := i - 1;
    }
    next := i + 1;
  }

  /** The inner for loop of the main loop. */
  method ResendRound(rup: seq<Packet>, chunks: nat, marked: set<nat>, turns: seq<Turn>)
    returns (completed: set<nat>, sent: seq<Packet>)
    requires |rup| == TABLE && Marks(chunks, marked) && Reports(chunks, turns)
    ensures (completed, sent) == Round(rup, chunks, 0, marked, turns)
  {
    completed, sent := marked, [];
    var k: nat, left := 0, turns;
    while k < chunks && left != []
      invariant k <= 10004 && Marks(chunks, completed) && Reports(chunks, left)
      invariant Leads(Round(rup, chunks, 0, marked, turns), sent, Round(rup, chunks, k, completed, left))
      decreases |left|
    {
      RoundTurn(rup, chunks, k, completed, left);
      ghost var rest := Round(rup, chunks, k, completed, left);
      var packets;
      k, packets := PickAndSend(rup, chunks, k, completed, left[0].due);
      completed := completed + left[0].report;
      LeadsOn(Round(rup, chunks, 0, marked, turns), sent, packets, rest, Round(rup, chunks, k, completed, left[1..]));
      sent, left := sent + packets, left[1..];
    }
    LeadsEnd(Round(rup, chunks, 0, marked, turns), sent, Round(rup, chunks, k, completed, left));
  }

  /** What is sent so far, and what follows. */
  ghost predicate Leads(whole: (set<nat>, seq<Packet>), sent: seq<Packet>, rest: (set<nat>, seq<Packet>)) {
    whole.0 == rest.0 && whole.1 == sent + rest.1
  }

  lemma LeadsEnd(whole: (set<nat>, seq<Packet>), sent: seq<Packet>, rest: (set<nat>, seq<Packet>))
    requires Leads(whole, sent, rest) && rest.1 == []
    ensures whole == (rest.0, sent)
  {
    assert sent + [] == sent;
  }

  lemma RoundTurn(rup: seq<Packet>, chunks: nat, k: nat, completed: set<nat>, turns: seq<Turn>)
    requires |rup| == TABLE && k < chunks && Marks(chunks, completed) && Reports(chunks, turns) && turns != []
    ensures var n, due := Next(completed, chunks, k), turns[0].due;
      Leads(Round(rup, chunks, k, completed, turns), if due then [rup[n]] else [],
            Round(rup, chunks, if due then n + 1 else n, completed + turns[0].report, turns[1..]))
  {
  }

  lemma LeadsOn(whole: (set<nat>, seq<Packet>), sent: seq<Packet>, first: seq<Packet>, rest: (set<nat>, seq<Packet>),
                after: (set<nat>, seq<Packet>))
    requires Leads(whole, sent, rest) && Leads(rest, first, after)
    ensures Leads(whole, sent + first, after)
  {
    assert sent + (first + after.1) == sent + first + after.1;
  }

  lemma {:induction false} RoundSendable(sizes: seq<nat>, source: seq<int>, rup: seq<Packet>, k: nat,
                                         completed: set<nat>, turns: seq<Turn>)
    requires |sizes| == FILES && IsTable(sizes, source, rup) && k <= 10004
    requires Marks(ChunkCount(sizes), completed) && Reports(ChunkCount(sizes), turns)
    ensures forall p :: p in Round(rup, ChunkCount(sizes), k, completed, turns).1 ==> Sendable(sizes, source, p)
    decreases |turns|
  {
    var chunks := ChunkCount(sizes);
    if k < chunks && turns != [] {
      var n := Next(completed, chunks, k);
      PickedEntry(sizes, source, rup, completed, k);
      RoundSendable(sizes, source, rup, if turns[0].due then n + 1 else n, completed + turns[0].report, turns[1..]);
    }
  }

  /** A turn in which no packet is due and nothing is reported changes nothing, as long as a chunk is missing. */
  lemma WaitingTurn(rup: seq<Packet>, chunks: nat, k: nat, completed: set<nat>, turns: seq<Turn>)
    requires |rup| == TABLE && k < chunks && Marks(chunks, completed) && Reports(chunks, turns)
    requires Next(completed, chunks, k) < chunks
    ensures Reports(chunks, [Turn(false, {})] + turns)
    ensures Round(rup, chunks, k, completed, [Turn(false, {})] + turns) == Round(rup, chunks, k, completed, turns)
  {
    var n, more := Next(completed, chunks, k), [Turn(false, {})] + turns;
    assert more[1..] == turns && completed + {} == completed;
    RoundTurn(rup, chunks, k, completed, more);
    NothingLed(Round(rup, chunks, k, completed, more), Round(rup, chunks, n, completed, turns));
    RoundFromNext(rup, chunks, k, completed, turns);
  }

  lemma NothingLed(whole: (set<nat>, seq<Packet>), rest: (set<nat>, seq<Packet>))
    requires Leads(whole, [], rest)
    ensures whole == rest
  {
    assert [] + rest.1 == rest.1;
  }

  lemma RoundFromNext(rup: seq<Packet>, chunks: nat, k: nat, completed: set<nat>, turns: seq<Turn>)
    requires |rup| == TABLE && k < chunks && Marks(chunks, completed) && Reports(chunks, turns)
    requires Next(completed, chunks, k) < chunks
    ensures Round(rup, chunks, Next(completed, chunks, k), completed, turns) == Round(rup, chunks, k, completed, turns)
  {
    var n := Next(completed, chunks, k);
    assert Next(completed, chunks, n) == n;
  }

  /** When the clock is always ready and nothing is reported, a round with turns enough sends every chunk that is not
      marked. */
  lemma {:induction false} RoundCovers(rup: seq<Packet>, chunks: nat, k: nat, completed: set<nat>, turns: seq<Turn>, i: nat)
    requires |rup| == TABLE && k <= i < chunks && i !in completed && Marks(chunks, completed)
    requires |turns| >= chunks - k && forall t :: 0 <= t < |turns| ==> turns[t] == Turn(true, {})
    ensures Reports(chunks, turns) && rup[i] in Round(rup, chunks, k, completed, turns).1
    decreases |turns|
  {
    var n := Next(completed, chunks, k);
    assert completed + {} == completed && n <= i;
    if n < i {
      RoundCovers(rup, chunks, n + 1, completed, turns[1..], i);
    }
  }

  // ---- with a bound on the skip ----

  function GuardedNext(completed: set<nat>, chunks: nat, k: nat): (n: nat)
    requires k <= chunks
    ensures k <= n <= chunks && (n < chunks ==> n !in completed) && forall i :: k <= i < n ==> i in completed
    decreases chunks - k
  {
    if k < chunks && k in completed then GuardedNext(completed, chunks, k + 1) else k
  }

  /** The round if the skip stopped at the last chunk. */
  function GuardedRound(rup: seq<Packet>, chunks: nat, k: nat, completed: set<nat>, turns: seq<Turn>): (sent: seq<Packet>)
    requires |rup| == TABLE && k <= chunks <= 10001
    decreases |turns|
  {
    if k >= chunks || turns == [] then []
    else
      var n := GuardedNext(completed, chunks, k);
      if n == chunks then []
      else
        (if turns[0].due then [rup[n]] else [])
        + GuardedRound(rup, chunks, if turns[0].due then n + 1 else n, completed + turns[0].report, turns[1..])
  }

  lemma {:induction false} GuardedRoundGenuine(sizes: seq<nat>, source: seq<int>, rup: seq<Packet>, k: nat,
                                               completed: set<nat>, turns: seq<Turn>)
    requires |sizes| == FILES && IsTable(sizes, source, rup) && k <= ChunkCount(sizes) <= 10001
    ensures forall p :: p in GuardedRound(rup, ChunkCount(sizes), k, completed, turns) ==> Genuine(sizes, source, p)
    decreases |turns|
  {
    var chunks := ChunkCount(sizes);
    if k < chunks && turns != [] {
      var n := GuardedNext(completed, chunks, k);
      if n < chunks {
        assert EntryRight(sizes, source, n, rup[n]);
        GuardedRoundGenuine(sizes, source, rup, if turns[0].due then n + 1 else n, completed + turns[0].report, turns[1..]);
      }
    }
  }

  lemma {:induction false} SameNext(completed: set<nat>, chunks: nat, k: nat)
    requires Marks(chunks, completed) && k < chunks
    ensures GuardedNext(completed, chunks, k) < chunks ==> Next(completed, chunks, k) == GuardedNext(completed, chunks, k)
    ensures GuardedNext(completed, chunks, k) == chunks ==> Next(completed, chunks, k) >= chunks
  {
  }

  /** A round sends what the bounded round sends, and at most one packet more, as the last one. */
  lemma {:induction false} OneStray(rup: seq<Packet>, chunks: nat, k: nat, completed: set<nat>, turns: seq<Turn>)
    requires |rup| == TABLE && k <= chunks && Marks(chunks, completed) && Reports(chunks, turns)
    ensures var sent, bounded := Round(rup, chunks, k, completed, turns).1, GuardedRound(rup, chunks, k, completed, turns);
      bounded <= sent && |sent| <= |bounded| + 1
    decreases |turns|
  {
    if k < chunks && turns != [] {
      SameNext(completed, chunks, k);
      var n := Next(completed, chunks, k);
      if n < chunks {
        OneStray(rup, chunks, if turns[0].due then n + 1 else n, completed + turns[0].report, turns[1..]);
      }
    }
  }

  /** Two chunks: when the report of the last one comes in before chunk 0 was received, the same round sends an
      unfilled entry right after chunk 0. */
  lemma StrayInSecondTurn(sizes: seq<nat>, source: seq<int>, rup: seq<Packet>, turns: seq<Turn>)
    requires |sizes| == FILES && IsTable(sizes, source, rup) && ChunkCount(sizes) == 2
    requires turns == [Turn(true, META + {1}), Turn(true, {})]
    ensures Round(rup, 2, 0, {}, turns).1 == [rup[0], Blank()]
  {
    var marked: set<nat> := {} + turns[0].report;
    assert Next(marked, 2, 1) == Next(marked, 2, 2) == 2;
    PickedEntry(sizes, source, rup, marked, 1);
    var last := turns[1..];
    assert last == [Turn(true, {})];
    assert Round(rup, 2, 1, marked, last).1 == [Blank()] + Round(rup, 2, 3, marked + {}, last[1..]).1;
  }
}
