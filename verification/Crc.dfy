/** The 16-bit checksum of lab6/src/header.hpp: the reflected generator 0xA001, one byte at a time.
    The reference is the bit-serial form of the division, on lists of bits: a register is the sixteen bits of a
    machine word, least significant first. */
module Crc {

  type Register = r: seq<bool> | |r| == 16 witness seq(16, _ => false)

  /** The bits of 0xA001. */
  function Taps(): Register {
    seq(16, i => i == 0 || i == 13 || i == 15)
  }

  /** Bit i of a machine word. */
  predicate Bit(w: bv16, i: nat) {
    Meets(w, Mask(i))
  }

  predicate Meets(w: bv16, mask: bv16) {
    w & mask != 0
  }

  function Mask(i: nat): bv16 {
    if i == 0 then 0x01 else Mask(i - 1) << 1
  }

  function WordBits(w: bv16): Register {
    seq(16, i requires 0 <= i < 16 => Bit(w, i))
  }

  function Xor(a: Register, b: Register): Register {
    seq(16, i requires 0 <= i < 16 => a[i] != b[i])
  }

  /** One shift of the register. */
  function Shift(r: Register): Register {
    var shifted := r[1..] + [false];
    if r[0] then Xor(shifted, Taps()) else shifted
  }

  function Shifts(r: Register, n: nat): Register
    decreases n
  {
    if n == 0 then r else Shifts(Shift(r), n - 1)
  }

  /** Reference definition: each message bit is added to the low end of the register, which then shifts. */
  function CrcBits(r: Register, bits: seq<bool>): Register
    decreases |bits|
  {
    if bits == [] then r else CrcBits(Shift(r[0 := r[0] != bits[0]]), bits[1..])
  }

  function ByteBits(b: bv8): seq<bool> {
    [b & 0x01 != 0, b & 0x02 != 0, b & 0x04 != 0, b & 0x08 != 0,
     b & 0x10 != 0, b & 0x20 != 0, b & 0x40 != 0, b & 0x80 != 0]
  }

  /** All message bits in the order in which the register takes them. */
  function Bits(bytes: seq<bv8>): (bits: seq<bool>)
    ensures |bits| == 8 * |bytes|
  {
    if bytes == [] then [] else Bits(bytes[..|bytes| - 1]) + ByteBits(bytes[|bytes| - 1])
  }

  function Pad(bits: seq<bool>): Register
    requires |bits| <= 16
  {
    bits + seq(16 - |bits|, _ => false)
  }

  // ---- operations on machine words are operations on their bits ----

  lemma Masks()
    ensures Mask(0) == 0x0001 && Mask(1) == 0x0002 && Mask(2) == 0x0004 && Mask(3) == 0x0008
    ensures Mask(4) == 0x0010 && Mask(5) == 0x0020 && Mask(6) == 0x0040 && Mask(7) == 0x0080
    ensures Mask(8) == 0x0100 && Mask(9) == 0x0200 && Mask(10) == 0x0400 && Mask(11) == 0x0800
    ensures Mask(12) == 0x1000 && Mask(13) == 0x2000 && Mask(14) == 0x4000 && Mask(15) == 0x8000
    ensures Mask(16) == 0
  {
  }

  lemma TapsValue()
    ensures WordBits(0xA001) == Taps()
  {
    Masks();
  }

  predicate AtMostOneBit(mask: bv16) {
    mask & (mask - 1) == 0
  }

  lemma {:induction false} MaskHasOneBit(i: nat)
    ensures AtMostOneBit(Mask(i))
  {
    if i > 0 {
      MaskHasOneBit(i - 1);
      OneBitMoves(Mask(i - 1));
    }
  }

  lemma OneBitMoves(mask: bv16)
    requires AtMostOneBit(mask)
    ensures AtMostOneBit(mask << 1)
  {
  }

  lemma XorAtOneBit(v: bv16, w: bv16, mask: bv16)
    requires AtMostOneBit(mask)
    ensures Meets(v ^ w, mask) <==> Meets(v, mask) != Meets(w, mask)
  {
  }

  lemma HalfAtOneBit(w: bv16, mask: bv16, next: bv16)
    requires next == mask << 1
    ensures Meets(w >> 1, mask) == Meets(w, next)
  {
  }

  lemma XorBits(v: bv16, w: bv16)
    ensures WordBits(v ^ w) == Xor(WordBits(v), WordBits(w))
  {
    forall i | 0 <= i < 16 ensures Bit(v ^ w, i) == (Bit(v, i) != Bit(w, i)) {
      MaskHasOneBit(i);
      XorAtOneBit(v, w, Mask(i));
    }
  }

  lemma NextMask(i: nat)
    ensures Mask(i + 1) == Mask(i) << 1
  {
  }

  lemma HalfBit(w: bv16, i: nat)
    requires i < 16
    ensures Bit(w >> 1, i) == if i < 15 then Bit(w, i + 1) else false
  {
    NextMask(i);
    HalfAtOneBit(w, Mask(i), Mask(i + 1));
    assert Mask(16) == 0;
  }

  lemma HalfBits(w: bv16)
    ensures WordBits(w >> 1) == WordBits(w)[1..] + [false]
  {
    var half, shifted := WordBits(w >> 1), WordBits(w)[1..] + [false];
    forall i | 0 <= i < 16 ensures half[i] == shifted[i] {
      HalfBit(w, i);
    }
  }

  lemma WidenedBit(byte: bv8, low: bv8, mask: bv16)
    requires mask == low as bv16
    ensures Meets(byte as bv16, mask) == (byte & low != 0)
  {
  }

  lemma WidenedHighBit(byte: bv8, mask: bv16)
    requires mask & 0xFF == 0
    ensures !Meets(byte as bv16, mask)
  {
  }

  lemma LowBits(byte: bv8, i: nat)
    requires i < 8
    ensures Bit(byte as bv16, i) == ByteBits(byte)[i]
  {
    Masks();
    match i
    case 0 => WidenedBit(byte, 0x01, Mask(0));
    case 1 => WidenedBit(byte, 0x02, Mask(1));
    case 2 => WidenedBit(byte, 0x04, Mask(2));
    case 3 => WidenedBit(byte, 0x08, Mask(3));
    case 4 => WidenedBit(byte, 0x10, Mask(4));
    case 5 => WidenedBit(byte, 0x20, Mask(5));
    case 6 => WidenedBit(byte, 0x40, Mask(6));
    case 7 => WidenedBit(byte, 0x80, Mask(7));
  }

  lemma HighBits(byte: bv8, i: nat)
    requires 8 <= i < 16
    ensures !Bit(byte as bv16, i)
  {
    Masks();
    WidenedHighBit(byte, Mask(i));
  }

  lemma WidenedBits(byte: bv8)
    ensures WordBits(byte as bv16) == Pad(ByteBits(byte))
  {
    var wide, padded := WordBits(byte as bv16), Pad(ByteBits(byte));
    forall i | 0 <= i < 16 ensures wide[i] == padded[i] {
      if i < 8 {
        LowBits(byte, i);
      } else {
        HighBits(byte, i);
      }
    }
  }

  lemma SameWordBits(v: bv16, w: bv16)
    ensures WordBits(v) == WordBits(w) <==> v == w
  {
    if WordBits(v) == WordBits(w) {
      forall i: nat | i < 16 ensures Bit(v, i) == Bit(w, i) {
        assert WordBits(v)[i] == WordBits(w)[i];
      }
      SameBelow(v, w, 16);
      Masks();
    }
  }

  predicate SameUnder(v: bv16, w: bv16, mask: bv16) {
    v & (mask - 1) == w & (mask - 1)
  }

  lemma {:induction false} SameBelow(v: bv16, w: bv16, n: nat)
    requires forall i: nat :: i < n ==> Bit(v, i) == Bit(w, i)
    ensures SameUnder(v, w, Mask(n))
  {
    if n > 0 {
      SameBelow(v, w, n - 1);
      MaskHasOneBit(n - 1);
      assert Bit(v, n - 1) == Bit(w, n - 1);
      SameBelowNext(v, w, Mask(n - 1), Mask(n));
    }
  }

  lemma SameBelowNext(v: bv16, w: bv16, mask: bv16, next: bv16)
    requires AtMostOneBit(mask) && next == mask << 1
    requires SameUnder(v, w, mask) && Meets(v, mask) == Meets(w, mask)
    ensures SameUnder(v, w, next)
  {
  }

  /** One turn of the inner loop shifts the register. */
  lemma ShiftWord(w: bv16)
    ensures WordBits(if w & 0x01 != 0 then (w >> 1) ^ 0xA001 else w >> 1) == Shift(WordBits(w))
  {
    HalfBits(w);
    XorBits(w >> 1, 0xA001);
    TapsValue();
  }

  // ---- the register is linear and injective ----

  lemma ShiftInjective(a: Register, b: Register)
    requires Shift(a) == Shift(b)
    ensures a == b
  {
    assert Shift(a)[15] == a[0] && Shift(b)[15] == b[0];
    forall i | 0 <= i < 16 ensures a[i] == b[i] {
      if i > 0 {
        assert Shift(a)[i - 1] == (a[i] != (a[0] && Taps()[i - 1]));
        assert Shift(b)[i - 1] == (b[i] != (b[0] && Taps()[i - 1]));
      }
    }
  }

  lemma {:induction false} ShiftsInjective(a: Register, b: Register, n: nat)
    requires Shifts(a, n) == Shifts(b, n)
    ensures a == b
    decreases n
  {
    if n > 0 {
      ShiftsInjective(Shift(a), Shift(b), n - 1);
      ShiftInjective(a, b);
    }
  }

  lemma ShiftSplits(r: Register, bits: seq<bool>)
    requires 0 < |bits| <= 16
    ensures Shift(Xor(r, Pad(bits))) == Xor(Shift(r[0 := r[0] != bits[0]]), Pad(bits[1..]))
  {
    var x, y := Xor(r, Pad(bits)), r[0 := r[0] != bits[0]];
    assert x[0] == y[0];
    forall i | 0 <= i < 16 ensures Shift(x)[i] == (Shift(y)[i] != Pad(bits[1..])[i]) {
      if i < 15 {
        assert x[i + 1] == (y[i + 1] != Pad(bits)[i + 1]);
      }
    }
  }

  /** Adding a whole run of bits and then shifting is the same as feeding them one by one. */
  lemma {:induction false} WordAtOnce(r: Register, bits: seq<bool>)
    requires |bits| <= 16
    ensures CrcBits(r, bits) == Shifts(Xor(r, Pad(bits)), |bits|)
    decreases |bits|
  {
    if bits == [] {
      assert Xor(r, Pad(bits)) == r;
    } else {
      WordAtOnce(Shift(r[0 := r[0] != bits[0]]), bits[1..]);
      ShiftSplits(r, bits);
    }
  }

  lemma {:induction false} CrcBitsConcat(r: Register, u: seq<bool>, v: seq<bool>)
    ensures CrcBits(r, u + v) == CrcBits(CrcBits(r, u), v)
    decreases |u|
  {
    if u == [] {
      assert u + v == v;
    } else {
      assert (u + v)[1..] == u[1..] + v;
      CrcBitsConcat(Shift(r[0 := r[0] != u[0]]), u[1..], v);
    }
  }

  lemma {:induction false} BitsConcat(a: seq<bv8>, b: seq<bv8>)
    ensures Bits(a + b) == Bits(a) + Bits(b)
    decreases |b|
  {
    if b == [] {
      assert a + b == a;
    } else {
      assert (a + b)[..|a + b| - 1] == a + b[..|b| - 1];
      BitsConcat(a, b[..|b| - 1]);
    }
  }

  /** Adding a byte to the register and shifting eight times feeds its bits. */
  lemma ByteAtOnce(crc: bv16, byte: bv8)
    ensures Shifts(WordBits(crc ^ byte as bv16), 8) == CrcBits(WordBits(crc), ByteBits(byte))
  {
    XorBits(crc, byte as bv16);
    WidenedBits(byte);
    WordAtOnce(WordBits(crc), ByteBits(byte));
  }

  /** The inner loop: add a byte, shift eight times. */
  method AddByte(initial: bv16, byte: bv8) returns (crc: bv16)
    ensures WordBits(crc) == CrcBits(WordBits(initial), ByteBits(byte))
  {
    crc := initial ^ byte as bv16;
    ByteAtOnce(initial, byte);
    for j := 0 to 8
      invariant Shifts(WordBits(crc), 8 - j) == CrcBits(WordBits(initial), ByteBits(byte))
    {
      ShiftWord(crc);
      if crc & 0x01 != 0 {
        crc := (crc >> 1) ^ 0xA001;
      } else {
        crc := crc >> 1;
      }
    }
  }

  /** calculateCRC computes the bit-serial checksum. */
  method CalculateCRC(bytes: seq<bv8>, initial: bv16) returns (crc: bv16)
    ensures WordBits(crc) == CrcBits(WordBits(initial), Bits(bytes))
  {
    crc := initial;
    for i := 0 to |bytes|
      invariant WordBits(crc) == CrcBits(WordBits(initial), Bits(bytes[..i]))
    {
      crc := AddByte(crc, bytes[i]);
      CrcBitsConcat(WordBits(initial), Bits(bytes[..i]), ByteBits(bytes[i]));
      assert bytes[..i + 1][..i] == bytes[..i];
    }
    assert bytes[..|bytes|] == bytes;
  }

  predicate Turned(w: bv16, next: bv16) {
    next == if w & 0x01 != 0 then (w >> 1) ^ 0xA001 else w >> 1
  }

  lemma FourTurns(a: bv16, b: bv16, c: bv16, d: bv16, e: bv16, n: nat)
    requires Turned(a, b) && Turned(b, c) && Turned(c, d) && Turned(d, e)
    ensures Shifts(WordBits(a), n + 4) == Shifts(WordBits(e), n)
  {
    TurnShifts(a, b, n + 3);
    TurnShifts(b, c, n + 2);
    TurnShifts(c, d, n + 1);
    TurnShifts(d, e, n);
  }

  lemma TurnShifts(w: bv16, next: bv16, n: nat)
    requires Turned(w, next)
    ensures Shifts(WordBits(w), n + 1) == Shifts(WordBits(next), n)
  {
    ShiftWord(w);
  }

  lemma EightTurns()
    ensures Shifts(WordBits(0xFFFF), 8) == WordBits(0x40BF)
  {
    assert Turned(0xFFFF, 0xDFFE) && Turned(0xDFFE, 0x6FFF) && Turned(0x6FFF, 0x97FE) && Turned(0x97FE, 0x4BFF);
    assert Turned(0x4BFF, 0x85FE) && Turned(0x85FE, 0x42FF) && Turned(0x42FF, 0x817E) && Turned(0x817E, 0x40BF);
    FourTurns(0xFFFF, 0xDFFE, 0x6FFF, 0x97FE, 0x4BFF, 4);
    FourTurns(0x4BFF, 0x85FE, 0x42FF, 0x817E, 0x40BF, 0);
  }

  /** A known value: from 0xFFFF the checksum of one zero byte is 0x40BF. */
  lemma ZeroByteChecksum(bytes: seq<bv8>, initial: bv16)
    requires bytes == [0x00] && initial == 0xFFFF
    ensures CrcBits(WordBits(initial), Bits(bytes)) == WordBits(0x40BF)
  {
    assert bytes[..0] == [] && Bits(bytes) == ByteBits(0x00);
    ByteAtOnce(initial, 0x00);
    assert initial ^ (0x00 as bv8) as bv16 == 0xFFFF;
    EightTurns();
  }

  /** Checking a packet calls calculateCRC twice, the second time from the first result:
      that is one call on the bytes laid end to end. */
  lemma ChainedCalls(r: Register, a: seq<bv8>, b: seq<bv8>)
    ensures CrcBits(CrcBits(r, Bits(a)), Bits(b)) == CrcBits(r, Bits(a + b))
  {
    BitsConcat(a, b);
    CrcBitsConcat(r, Bits(a), Bits(b));
  }

  // ---- burst detection ----

  /** The two messages differ, and only inside 16 consecutive bits from position `at`. */
  ghost predicate BurstAt(u: seq<bool>, v: seq<bool>, at: nat) {
    && |u| == |v|
    && u != v
    && forall j :: 0 <= j < |u| && (j < at || at + 16 <= j) ==> u[j] == v[j]
  }

  ghost predicate Burst(a: seq<bv8>, b: seq<bv8>) {
    |a| == |b| && exists at: nat :: BurstAt(Bits(a), Bits(b), at)
  }

  lemma WindowInjective(r: Register, u: seq<bool>, v: seq<bool>)
    requires |u| == |v| <= 16
    requires CrcBits(r, u) == CrcBits(r, v)
    ensures u == v
  {
    WordAtOnce(r, u);
    WordAtOnce(r, v);
    var x, y := Xor(r, Pad(u)), Xor(r, Pad(v));
    ShiftsInjective(x, y, |u|);
    forall i | 0 <= i < |u| ensures u[i] == v[i] {
      assert x[i] == (r[i] != Pad(u)[i]) && y[i] == (r[i] != Pad(v)[i]);
    }
  }

  lemma {:induction false} SuffixInjective(c: Register, d: Register, bits: seq<bool>)
    requires CrcBits(c, bits) == CrcBits(d, bits)
    ensures c == d
    decreases |bits|
  {
    if bits != [] {
      var x, y := c[0 := c[0] != bits[0]], d[0 := d[0] != bits[0]];
      SuffixInjective(Shift(x), Shift(y), bits[1..]);
      ShiftInjective(x, y);
      assert x[0] == y[0] && x[1..] == c[1..] && y[1..] == d[1..];
      assert c == [c[0]] + c[1..] && d == [d[0]] + d[1..];
    }
  }

  lemma CrcBitsThreeParts(r: Register, bits: seq<bool>, i: nat, j: nat)
    requires i <= j <= |bits|
    ensures CrcBits(r, bits) == CrcBits(CrcBits(CrcBits(r, bits[..i]), bits[i..j]), bits[j..])
  {
    assert bits == bits[..i] + (bits[i..j] + bits[j..]);
    CrcBitsConcat(r, bits[..i], bits[i..j] + bits[j..]);
    CrcBitsConcat(CrcBits(r, bits[..i]), bits[i..j], bits[j..]);
  }

  lemma WindowDecides(r: Register, u: seq<bool>, v: seq<bool>, i: nat, j: nat)
    requires i <= j <= |u| == |v| && u[..i] == v[..i] && u[j..] == v[j..]
    ensures CrcBits(r, u) == CrcBits(r, v)
       <==> CrcBits(CrcBits(r, u[..i]), u[i..j]) == CrcBits(CrcBits(r, u[..i]), v[i..j])
  {
    CrcBitsThreeParts(r, u, i, j);
    CrcBitsThreeParts(r, v, i, j);
    var c := CrcBits(r, u[..i]);
    if CrcBits(r, u) == CrcBits(r, v) {
      SuffixInjective(CrcBits(c, u[i..j]), CrcBits(c, v[i..j]), u[j..]);
    }
  }

  lemma BitBurstChangesCrc(r: Register, u: seq<bool>, v: seq<bool>, at: nat)
    requires BurstAt(u, v, at)
    ensures CrcBits(r, u) != CrcBits(r, v)
  {
    var i := if at < |u| then at else |u|;
    var j := if at + 16 < |u| then at + 16 else |u|;
    assert u[..i] == v[..i] && u[j..] == v[j..];
    WindowDecides(r, u, v, i, j);
    if CrcBits(r, u) == CrcBits(r, v) {
      WindowInjective(CrcBits(r, u[..i]), u[i..j], v[i..j]);
      SameParts(u, v, i, j);
    }
  }

  /** Two byte sequences that differ only inside 16 consecutive bits never have the same checksum. */
  lemma BurstDetected(r: Register, a: seq<bv8>, b: seq<bv8>)
    requires Burst(a, b)
    ensures CrcBits(r, Bits(a)) != CrcBits(r, Bits(b))
  {
    var at: nat :| BurstAt(Bits(a), Bits(b), at);
    BitBurstChangesCrc(r, Bits(a), Bits(b), at);
  }

  /** Flipping the bit that is about to be shifted out adds the taps to the next register. */
  lemma FlippedBit(r: Register, b: bool)
    ensures Shift(r[0 := r[0] != !b]) == Xor(Shift(r[0 := r[0] != b]), Taps())
  {
    var x, y := r[0 := r[0] != b], r[0 := r[0] != !b];
    assert x[1..] == y[1..];
  }

  lemma TapsCancel(c: Register, bits: seq<bool>)
    requires |bits| == 16
    ensures Xor(Xor(c, Taps()), Pad(Xor(bits, Taps()))) == Xor(c, Pad(bits))
  {
  }

  /** A run of 17 bits with the first one flipped and the taps added to the others. */
  function Partner(u: seq<bool>): (v: seq<bool>)
    requires |u| == 17
    ensures |v| == 17
  {
    [!u[0]] + Xor(u[1..], Taps())
  }

  /** From every register a run of 17 bits collides with its partner, which differs in its first and last bit. */
  lemma PartnerCollides(r: Register, u: seq<bool>)
    requires |u| == 17
    ensures Partner(u)[0] != u[0] && Partner(u)[16] != u[16]
    ensures CrcBits(r, Partner(u)) == CrcBits(r, u)
  {
    var tail, v := u[1..], Partner(u);
    var rest := Xor(tail, Taps());
    assert v[1..] == rest;
    assert rest[15] == !tail[15];
    var c, d := Shift(r[0 := r[0] != u[0]]), Shift(r[0 := r[0] != v[0]]);
    FlippedBit(r, u[0]);
    WordAtOnce(c, tail);
    WordAtOnce(d, rest);
    TapsCancel(c, tail);
  }

  lemma SameFirstBit(r: Register, u: seq<bool>, v: seq<bool>)
    requires |u| == |v| == 17 && u[0] == v[0] && CrcBits(r, u) == CrcBits(r, v)
    ensures u == v
  {
    WindowInjective(Shift(r[0 := r[0] != u[0]]), u[1..], v[1..]);
    assert u == [u[0]] + u[1..] && v == [v[0]] + v[1..];
  }

  /** The bound of 16 is exact: a run of 17 bits collides with its partner and with no other one. */
  lemma SeventeenBitsCollide(r: Register, u: seq<bool>, v: seq<bool>)
    requires |u| == |v| == 17
    ensures CrcBits(r, u) == CrcBits(r, v) <==> v == u || v == Partner(u)
  {
    PartnerCollides(r, u);
    if CrcBits(r, u) == CrcBits(r, v) {
      if v[0] == u[0] {
        SameFirstBit(r, u, v);
      } else {
        SameFirstBit(r, Partner(u), v);
      }
    }
  }

  lemma ByteBitsInjective(b: bv8, c: bv8)
    requires ByteBits(b) == ByteBits(c)
    ensures b == c
  {
  }

  lemma {:induction false} BitsInjective(a: seq<bv8>, b: seq<bv8>)
    requires |a| == |b| && Bits(a) == Bits(b)
    ensures a == b
    decreases |a|
  {
    if a != [] {
      var n := |a| - 1;
      assert Bits(a)[..8 * n] == Bits(a[..n]) && Bits(b)[..8 * n] == Bits(b[..n]);
      assert Bits(a)[8 * n..] == ByteBits(a[n]) && Bits(b)[8 * n..] == ByteBits(b[n]);
      BitsInjective(a[..n], b[..n]);
      ByteBitsInjective(a[n], b[n]);
    }
  }

  lemma SameParts(u: seq<bool>, v: seq<bool>, i: nat, j: nat)
    requires i <= j <= |u| == |v| && u[..i] == v[..i] && u[i..j] == v[i..j] && u[j..] == v[j..]
    ensures u == v
  {
    assert u == u[..i] + u[i..j] + u[j..] && v == v[..i] + v[i..j] + v[j..];
  }

  /** Byte sequences that differ only inside 17 consecutive bits: the checksum misses the difference exactly when
      one run of 17 bits is the partner of the other. */
  lemma SeventeenBitBursts(r: Register, a: seq<bv8>, b: seq<bv8>, at: nat)
    requires |a| == |b| && at + 17 <= 8 * |a|
    requires Bits(a)[..at] == Bits(b)[..at] && Bits(a)[at + 17..] == Bits(b)[at + 17..]
    ensures CrcBits(r, Bits(a)) == CrcBits(r, Bits(b))
       <==> a == b || Bits(b)[at..at + 17] == Partner(Bits(a)[at..at + 17])
  {
    var u, v := Bits(a), Bits(b);
    WindowDecides(r, u, v, at, at + 17);
    SeventeenBitsCollide(CrcBits(r, u[..at]), u[at..at + 17], v[at..at + 17]);
    if u[at..at + 17] == v[at..at + 17] {
      SameParts(u, v, at, at + 17);
      BitsInjective(a, b);
    }
  }

  lemma SampleBytes()
    ensures ByteBits(0x00) == [false, false, false, false, false, false, false, false]
    ensures ByteBits(0x03) == [true, true, false, false, false, false, false, false]
    ensures ByteBits(0x40) == [false, false, false, false, false, false, true, false]
    ensures ByteBits(0x01) == [true, false, false, false, false, false, false, false]
  {
  }

  /** Two messages of three bytes that no initial value tells apart. */
  lemma ThreeBytesCollide(r: Register, a: seq<bv8>, b: seq<bv8>)
    requires a == [0x00, 0x00, 0x00] && b == [0x03, 0x40, 0x01]
    ensures CrcBits(r, Bits(a)) == CrcBits(r, Bits(b))
  {
    SampleBytes();
    ThreeBytes(a);
    ThreeBytes(b);
    var u, v := Bits(a)[0..17], Bits(b)[0..17];
    assert forall i :: 0 <= i < 17 ==> !u[i] && v[i] == (i == 0 || i == 1 || i == 14 || i == 16);
    assert v == Partner(u);
    SeventeenBitBursts(r, a, b, 0);
  }

  lemma ThreeBytes(a: seq<bv8>)
    requires |a| == 3
    ensures Bits(a) == ByteBits(a[0]) + ByteBits(a[1]) + ByteBits(a[2])
  {
    assert a[..2][..1] == a[..1] && a[..1][..0] == [];
    assert Bits(a[..1]) == ByteBits(a[0]);
  }
}
