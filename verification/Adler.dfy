/** The Adler-32 loop of lab6/others/KJL/utils.hpp, against the sums that section 2.2 of RFC 1950 describes. */
module Adler {

  const MOD_ADLER: nat := 65521

  type Byte = n: nat | n < 256

  function Sum(data: seq<Byte>): nat {
    if data == [] then 0 else Sum(data[..|data| - 1]) + data[|data| - 1]
  }

  /** Byte i counted n - i times. */
  function Weighted(data: seq<Byte>, n: int): int {
    if data == [] then 0
    else Weighted(data[..|data| - 1], n) + (n - (|data| - 1)) * data[|data| - 1]
  }

  function A(data: seq<Byte>): nat {
    (1 + Sum(data)) % MOD_ADLER
  }

  function B(data: seq<Byte>): nat {
    (|data| + Weighted(data, |data|)) % MOD_ADLER
  }

  lemma {:induction false} WeightedNext(data: seq<Byte>, n: int)
    ensures Weighted(data, n + 1) == Weighted(data, n) + Sum(data)
  {
    if data != [] {
      var front, last := data[..|data| - 1], data[|data| - 1];
      WeightedNext(front, n);
      assert (n + 1 - |front|) * last == (n - |front|) * last + last;
    }
  }

  lemma WeightedAppend(data: seq<Byte>, d: Byte)
    ensures Sum(data + [d]) == Sum(data) + d
    ensures Weighted(data + [d], |data| + 1) == Weighted(data, |data|) + Sum(data) + d
  {
    assert (data + [d])[..|data|] == data;
    WeightedNext(data, |data|);
  }

  lemma ModPlus(p: int, q: int)
    ensures (p % MOD_ADLER + q) % MOD_ADLER == (p + q) % MOD_ADLER
    ensures (p % MOD_ADLER + q % MOD_ADLER) % MOD_ADLER == (p + q) % MOD_ADLER
  {
  }

  /** One byte: the first sum takes the byte, the second takes the new first sum. */
  lemma NextSums(data: seq<Byte>, d: Byte)
    ensures A(data + [d]) == (A(data) + d) % MOD_ADLER
    ensures B(data + [d]) == (B(data) + A(data + [d])) % MOD_ADLER
  {
    WeightedAppend(data, d);
    var p, q: int := |data| + Weighted(data, |data|), 1 + Sum(data) + d;
    assert A(data + [d]) == q % MOD_ADLER;
    assert |data + [d]| + Weighted(data + [d], |data + [d]|) == p + q;
    ModPlus(1 + Sum(data), d);
    ModPlus(p, q);
  }

  // ---- the 32-bit word that is returned ----

  predicate Denotes(w: bv32, n: nat) {
    w as nat == n
  }

  /** (b << 16) | a */
  function ShiftOr(b: bv32, a: bv32): bv32 {
    (b << 16) | a
  }

  function Low(w: bv32): bv32 {
    w & 0xFFFF
  }

  function High(w: bv32): bv32 {
    w >> 16
  }

  function Doubled(w: bv32, odd: bool): bv32 {
    if odd then (w << 1) | 1 else w << 1
  }

  /** A number written in binary, digit by digit. */
  function ToWord(n: nat): bv32
    decreases n
  {
    if n == 0 then 0 else Doubled(ToWord(n / 2), n % 2 == 1)
  }

  lemma DoubledValue(w: bv32)
    requires w < 0x8000_0000
    ensures (w << 1) as nat == 2 * w as nat
  {
  }

  lemma DoubledPlusOne(w: bv32)
    requires w < 0x8000_0000
    ensures ((w << 1) | 1) as nat == 2 * w as nat + 1
  {
  }

  lemma TopBitClear(w: bv32)
    requires w as nat < 0x8000_0000
    ensures w < 0x8000_0000
  {
  }

  lemma DoubledDenotes(n: nat, w: bv32)
    requires n < 0x1_0000_0000 && Denotes(w, n / 2)
    ensures Denotes(Doubled(w, n % 2 == 1), n)
  {
    TopBitClear(w);
    DoubledValue(w);
    DoubledPlusOne(w);
  }

  lemma {:induction false} ToWordDenotes(n: nat)
    requires n < 0x1_0000_0000
    ensures Denotes(ToWord(n), n)
  {
    if n > 0 {
      ToWordDenotes(n / 2);
      DoubledDenotes(n, ToWord(n / 2));
    }
  }

  lemma ConvertedBack(w: bv32)
    ensures (w as nat) as bv32 == w
  {
  }

  lemma ConvertedAs(n: nat, w: bv32)
    requires n < 0x1_0000_0000 && Denotes(w, n)
    ensures Denotes(n as bv32, n)
  {
    ConvertedBack(w);
  }

  lemma ConvertedDenotes(n: nat)
    requires n < 0x1_0000_0000
    ensures Denotes(n as bv32, n)
  {
    ToWordDenotes(n);
    ConvertedAs(n, ToWord(n));
  }

  lemma FitsHalf(w: bv32)
    requires w as nat < 0x1_0000
    ensures w < 0x1_0000
  {
  }

  lemma HalfOf(w: bv32)
    requires w < 0x1_0000
    ensures (w as bv16) as bv32 == w && (w as bv16) as nat == w as nat
  {
  }

  lemma HalvesJoined(b: bv16, a: bv16)
    ensures ((b as bv32 << 16) | a as bv32) as nat == 65536 * b as nat + a as nat
  {
  }

  lemma ShiftOrParts(b: bv32, a: bv32)
    requires b < 0x1_0000 && a < 0x1_0000
    ensures ShiftOr(b, a) as nat == 65536 * b as nat + a as nat
  {
    HalfOf(a);
    HalfOf(b);
    HalvesJoined(b as bv16, a as bv16);
  }

  lemma HalvesReadBack(b: bv32, a: bv32)
    requires b < 0x1_0000 && a < 0x1_0000
    ensures Low(ShiftOr(b, a)) == a && High(ShiftOr(b, a)) == b
  {
  }

  lemma ShiftOrDenotes(b: nat, a: nat, v: bv32, w: bv32)
    requires b < 0x1_0000 && a < 0x1_0000 && Denotes(v, b) && Denotes(w, a)
    ensures Denotes(ShiftOr(v, w), 65536 * b + a)
    ensures Denotes(Low(ShiftOr(v, w)), a) && Denotes(High(ShiftOr(v, w)), b)
  {
    FitsHalf(v);
    FitsHalf(w);
    ShiftOrParts(v, w);
    HalvesReadBack(v, w);
  }

  /** Shift and or of two halves: the word is 65536 * b + a, and both halves can be read back. */
  lemma Packed(b: nat, a: nat)
    requires b < 0x1_0000 && a < 0x1_0000
    ensures Denotes(ShiftOr(b as bv32, a as bv32), 65536 * b + a)
    ensures Denotes(Low(ShiftOr(b as bv32, a as bv32)), a) && Denotes(High(ShiftOr(b as bv32, a as bv32)), b)
  {
    ConvertedDenotes(b);
    ConvertedDenotes(a);
    ShiftOrDenotes(b, a, b as bv32, a as bv32);
  }

  /** adler32: the running sums are the two closed forms, no 32-bit sum overflows, and the word returned packs
      them. */
  method Adler32(data: seq<Byte>) returns (checksum: bv32)
    ensures Denotes(checksum, 65536 * B(data) + A(data))
    ensures Denotes(Low(checksum), (1 + Sum(data)) % 65521)
    ensures Denotes(High(checksum), (|data| + Weighted(data, |data|)) % 65521)
  {
    var a, b := 1, 0;
    for index := 0 to |data|
      invariant a == A(data[..index]) && b == B(data[..index])
    {
      assert data[..index + 1] == data[..index] + [data[index]];
      NextSums(data[..index], data[index]);
      assert a + data[index] < 0x1_0000_0000;
      a := (a + data[index]) % MOD_ADLER;
      assert b + a < 0x1_0000_0000;
      b := (b + a) % MOD_ADLER;
    }
    assert data[..|data|] == data;
    Packed(b, a);
    checksum := ShiftOr(b as bv32, a as bv32);
  }

  /** The checksum of the three bytes of abc is 0x024d0127. */
  lemma KnownChecksum(data: seq<Byte>)
    requires data == [97, 98, 99]
    ensures 65536 * B(data) + A(data) == 0x024d0127
  {
    var two, one := data[..2], data[..1];
    assert two[..1] == one && one[..0] == [];
    assert Sum(one) == 97 && Sum(two) == 195 && Sum(data) == 294;
    assert Weighted(one, 3) == 291 && Weighted(two, 3) == 487 && Weighted(data, 3) == 586;
  }

  lemma {:induction false} SumConcat(x: seq<Byte>, y: seq<Byte>)
    ensures Sum(x + y) == Sum(x) + Sum(y)
    decreases |y|
  {
    if y == [] {
      assert x + y == x;
    } else {
      assert (x + y)[..|x + y| - 1] == x + y[..|y| - 1];
      SumConcat(x, y[..|y| - 1]);
    }
  }

  lemma {:induction false} WeightedConcat(x: seq<Byte>, y: seq<Byte>, n: int)
    ensures Weighted(x + y, n) == Weighted(x, n) + Weighted(y, n - |x|)
    decreases |y|
  {
    if y == [] {
      assert x + y == x;
    } else {
      assert (x + y)[..|x + y| - 1] == x + y[..|y| - 1];
      WeightedConcat(x, y[..|y| - 1], n);
    }
  }

  lemma {:induction false} WeightedShift(x: seq<Byte>, n: int, k: nat)
    ensures Weighted(x, n + k) == Weighted(x, n) + k * Sum(x)
    decreases k
  {
    if k > 0 {
      WeightedShift(x, n, k - 1);
      WeightedNext(x, n + k - 1);
      assert k * Sum(x) == (k - 1) * Sum(x) + Sum(x);
    }
  }

  lemma ModProduct(k: nat, v: nat)
    ensures (k * (v % MOD_ADLER)) % MOD_ADLER == (k * v) % MOD_ADLER
  {
    var q, r := v / MOD_ADLER, v % MOD_ADLER;
    assert k * v == k * r + MOD_ADLER * (k * q) by {
      assert v == MOD_ADLER * q + r;
      assert k * (MOD_ADLER * q) == MOD_ADLER * (k * q);
    }
    ModAddMultiple(k * r, k * q);
  }

  lemma ModAddMultiple(v: int, m: int)
    ensures (v + MOD_ADLER * m) % MOD_ADLER == v % MOD_ADLER
  {
  }

  lemma ModThree(p: int, q: int, r: int, s: int)
    requires r % MOD_ADLER == s % MOD_ADLER
    ensures (p + q + r) % MOD_ADLER == (p % MOD_ADLER + q % MOD_ADLER + s) % MOD_ADLER
  {
    var m := p / MOD_ADLER + q / MOD_ADLER + r / MOD_ADLER - s / MOD_ADLER;
    assert p + q + r == p % MOD_ADLER + q % MOD_ADLER + s + MOD_ADLER * m;
    ModAddMultiple(p % MOD_ADLER + q % MOD_ADLER + s, m);
  }

  /** The checksum of a concatenation depends only on the two checksums and the second length. */
  lemma Concatenation(x: seq<Byte>, y: seq<Byte>)
    ensures A(x + y) == (A(x) + A(y) + (MOD_ADLER - 1)) % MOD_ADLER
    ensures B(x + y) == (B(x) + B(y) + |y| * ((A(x) + (MOD_ADLER - 1)) % MOD_ADLER)) % MOD_ADLER
  {
    SumConcat(x, y);
    ModThree(1 + Sum(x), 1 + Sum(y), MOD_ADLER - 1, MOD_ADLER - 1);
    ModAddMultiple(1 + Sum(x) + Sum(y), 1);
    ConcatenatedB(x, y);
  }

  lemma ConcatenatedB(x: seq<Byte>, y: seq<Byte>)
    ensures B(x + y) == (B(x) + B(y) + |y| * ((A(x) + (MOD_ADLER - 1)) % MOD_ADLER)) % MOD_ADLER
  {
    var sum, reduced := Sum(x), (A(x) + (MOD_ADLER - 1)) % MOD_ADLER;
    assert reduced == sum % MOD_ADLER by {
      ModPlus(1 + sum, MOD_ADLER - 1);
      ModAddMultiple(sum, 1);
    }
    WeightedConcat(x, y, |x| + |y|);
    WeightedShift(x, |x|, |y|);
    ModProduct(|y|, sum);
    ModThree(|x| + Weighted(x, |x|), |y| + Weighted(y, |y|), |y| * sum, |y| * reduced);
  }
}
