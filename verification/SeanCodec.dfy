/** The packing of lab6/others/Sean: 17 printable characters, as base-96 digits, travel in 14 bytes. */
module SeanCodec {

  const GROUPS: nat := 105
  const CHUNK_PKT: nat := 14 * GROUPS
  const CHUNK_BUF: nat := 17 * GROUPS

  /** C's `/` and `%`, which round toward zero. */
  function CDiv(a: int, b: nat): int
    requires b > 0
  {
    if a >= 0 then a / b else -(-a / b)
  }

  function CMod(a: int, b: nat): int
    requires b > 0
  {
    a - b * CDiv(a, b)
  }

  function Pow(b: nat, n: nat): nat {
    if n == 0 then 1 else b * Pow(b, n - 1)
  }

  /** The number written by digits, most significant first. */
  function Value(base: nat, digits: seq<int>): int {
    if digits == [] then 0 else Value(base, digits[..|digits| - 1]) * base + digits[|digits| - 1]
  }

  lemma DivFacts(v: nat, base: nat)
    requires base > 0
    ensures v / base >= 0 && 0 <= v % base < base && (v / base) * base + v % base == v
  {
  }

  lemma TimesMonotone(a: int, b: int, base: nat)
    requires a <= b
    ensures a * base <= b * base
  {
  }

  /** The n low digits of v, most significant first. */
  function Digits(base: nat, v: nat, n: nat): (digits: seq<int>)
    requires base > 0
    ensures |digits| == n && forall i :: 0 <= i < n ==> 0 <= digits[i] < base
    decreases n, v, base
  {
    if n == 0 then []
    else
      DivFacts(v, base);
      Digits(base, v / base, n - 1) + [v % base]
  }

  ghost predicate AreDigits(base: nat, digits: seq<int>) {
    forall i :: 0 <= i < |digits| ==> 0 <= digits[i] < base
  }

  lemma {:induction false} ValueBound(base: nat, digits: seq<int>)
    requires base > 0 && AreDigits(base, digits)
    ensures 0 <= Value(base, digits) < Pow(base, |digits|)
    decreases |digits|
  {
    if digits != [] {
      var front := digits[..|digits| - 1];
      ValueBound(base, front);
      AppendBound(base, Value(base, front), Pow(base, |front|), digits[|digits| - 1]);
    }
  }

  lemma AppendBound(base: nat, v: nat, p: nat, digit: int)
    requires v < p && 0 <= digit < base
    ensures 0 <= v * base + digit < base * p
  {
    TimesMonotone(0, v, base);
    TimesMonotone(v + 1, p, base);
    Distribute(v, base);
  }

  lemma Distribute(a: int, base: nat)
    ensures (a + 1) * base == a * base + base
  {
  }

  lemma DivModStep(base: nat, q: nat, r: nat)
    requires r < base
    ensures (q * base + r) / base == q && (q * base + r) % base == r
  {
    TimesMonotone(0, q, base);
    var v := q * base + r;
    var d := v / base;
    DivFacts(v, base);
    if d < q {
      TimesMonotone(d + 1, q, base);
      Distribute(d, base);
    }
    if q < d {
      TimesMonotone(q + 1, d, base);
      Distribute(q, base);
    }
  }

  lemma {:induction false} DigitsOfValue(base: nat, digits: seq<int>)
    requires base > 0 && AreDigits(base, digits)
    ensures Value(base, digits) >= 0 && Digits(base, Value(base, digits), |digits|) == digits
    decreases |digits|
  {
    ValueBound(base, digits);
    if digits != [] {
      var front := digits[..|digits| - 1];
      ValueBound(base, front);
      DigitsOfValue(base, front);
      DivModStep(base, Value(base, front), digits[|digits| - 1]);
    }
  }

  lemma DivBound(v: nat, base: nat, p: nat)
    requires base > 0 && v < base * p
    ensures v / base < p
  {
    DivFacts(v, base);
    if v / base >= p {
      TimesMonotone(p, v / base, base);
    }
  }

  lemma {:induction false} ValueOfDigits(base: nat, v: nat, n: nat)
    requires base > 0 && v < Pow(base, n)
    ensures Value(base, Digits(base, v, n)) == v
    decreases n
  {
    if n > 0 {
      DivFacts(v, base);
      DivBound(v, base, Pow(base, n - 1));
      ValueOfDigits(base, v / base, n - 1);
      assert Digits(base, v, n)[..n - 1] == Digits(base, v / base, n - 1);
    }
  }

  /** The capacity bound behind the format: 17 base-96 digits fit in 14 bytes. */
  lemma SeventeenFitInFourteen()
    ensures Pow(96, 17) <= Pow(256, 14)
  {
    assert Pow(96, 4) == 96 * 96 * 96 * 96;
    assert Pow(96, 8) == 96 * 96 * 96 * 96 * Pow(96, 4);
    assert Pow(96, 12) == 96 * 96 * 96 * 96 * Pow(96, 8);
    assert Pow(96, 17) == 96 * 96 * 96 * 96 * 96 * Pow(96, 12);
    assert Pow(256, 4) == 256 * 256 * 256 * 256;
    assert Pow(256, 8) == 256 * 256 * 256 * 256 * Pow(256, 4);
    assert Pow(256, 14) == 256 * 256 * 256 * 256 * 256 * 256 * Pow(256, 8);
  }

  // ---- one group of 17 characters ----

  /** What the encoder makes of a signed character: a base-96 digit when it is in 0x20..0x7F. */
  function DigitOf(c: int): int {
    CMod(c - 0x20, 96)
  }

  function DigitsOf(chars: seq<int>): (digits: seq<int>)
    ensures |digits| == |chars|
  {
    seq(|chars|, i requires 0 <= i < |chars| => DigitOf(chars[i]))
  }

  /** The n bytes left by n rounds of `conv % 256` and `conv /= 256`, last round first; the remainder is
      stored in an unsigned char. */
  function ByteRounds(conv: int, n: nat): (bytes: seq<int>)
    ensures |bytes| == n && AreDigits(256, bytes)
    decreases n, conv
  {
    if n == 0 then [] else ByteRounds(CDiv(conv, 256), n - 1) + [CMod(conv, 256) % 256]
  }

  function Encode(chars: seq<int>): (bytes: seq<int>)
    ensures |bytes| == 14 && AreDigits(256, bytes)
  {
    ByteRounds(Value(96, DigitsOf(chars)), 14)
  }

  /** The 17 characters of a number. */
  function CharsOf(conv: nat): (chars: seq<int>)
    ensures |chars| == 17 && Printable(chars)
  {
    var digits := Digits(96, conv, 17);
    seq(17, i requires 0 <= i < 17 => digits[i] + 0x20)
  }

  function Decode(bytes: seq<int>): (chars: seq<int>)
    requires AreDigits(256, bytes)
    ensures |chars| == 17 && Printable(chars)
  {
    ValueBound(256, bytes);
    CharsOf(Value(256, bytes))
  }

  predicate Printable(chars: seq<int>) {
    forall i :: 0 <= i < |chars| ==> 0x20 <= chars[i] <= 0x7F
  }

  lemma {:induction false} ByteRoundsOfNat(v: nat, n: nat)
    ensures ByteRounds(v, n) == Digits(256, v, n)
    decreases n
  {
    if n > 0 {
      ByteRoundsOfNat(v / 256, n - 1);
    }
  }

  /** While encoding printable characters no intermediate value reaches 2^112, so 128 bits are enough. */
  lemma ConvBounded(chars: seq<int>, n: nat)
    requires |chars| == 17 && Printable(chars) && n <= 17
    ensures 0 <= Value(96, DigitsOf(chars)[..n]) < Pow(256, 14)
  {
    var digits := DigitsOf(chars)[..n];
    ValueBound(96, digits);
    PowMonotone(96, n, 17);
    SeventeenFitInFourteen();
  }

  lemma {:induction false} PowMonotone(b: nat, m: nat, n: nat)
    requires b > 0 && m <= n
    ensures 0 < Pow(b, m) <= Pow(b, n)
    decreases n
  {
    if n > 0 {
      if m > 0 {
        PowMonotone(b, m - 1, n - 1);
        TimesMonotone(Pow(b, m - 1), Pow(b, n - 1), b);
        TimesMonotone(1, Pow(b, m - 1), b);
      } else {
        PowMonotone(b, 0, n - 1);
        TimesMonotone(1, b, Pow(b, n - 1));
      }
    }
  }

  /** The bytes of a printable group write the same number as its base-96 digits. */
  lemma EncodedValue(chars: seq<int>)
    requires |chars| == 17 && Printable(chars)
    ensures Value(256, Encode(chars)) == Value(96, DigitsOf(chars))
  {
    var conv := Value(96, DigitsOf(chars));
    ConvBounded(chars, 17);
    assert DigitsOf(chars)[..17] == DigitsOf(chars);
    ByteRoundsOfNat(conv, 14);
    ValueOfDigits(256, conv, 14);
  }

  lemma DigitOfPrintable(c: int)
    requires 0x20 <= c <= 0x7F
    ensures 0 <= DigitOf(c) < 96 && DigitOf(c) + 0x20 == c
  {
  }

  lemma DecodesTo(bytes: seq<int>, digits: seq<int>)
    requires AreDigits(256, bytes) && |digits| == 17 && AreDigits(96, digits)
    requires Value(256, bytes) == Value(96, digits)
    ensures forall i :: 0 <= i < 17 ==> Decode(bytes)[i] == digits[i] + 0x20
  {
    DigitsOfValue(96, digits);
  }

  lemma PrintableSurvives(chars: seq<int>)
    requires |chars| == 17 && Printable(chars)
    ensures Decode(Encode(chars)) == chars
  {
    var digits := DigitsOf(chars);
    forall i | 0 <= i < 17 ensures 0 <= digits[i] < 96 && digits[i] + 0x20 == chars[i] {
      DigitOfPrintable(chars[i]);
    }
    EncodedValue(chars);
    DecodesTo(Encode(chars), digits);
  }

  /** Round trip of the packing, and its limit: a group survives exactly when all its characters are
      in 0x20..0x7F. */
  lemma RoundTrip(chars: seq<int>)
    requires |chars| == 17
    ensures Decode(Encode(chars)) == chars <==> Printable(chars)
  {
    if Printable(chars) {
      PrintableSurvives(chars);
    }
  }

  // ---- whole chunks ----

  /** Chunk k of the client's buffer, packed group by group. */
  function EncodeGroups(chunk: seq<int>, n: nat): (content: seq<int>)
    requires 17 * n <= |chunk|
    ensures |content| == 14 * n && AreDigits(256, content)
    decreases n, chunk
  {
    if n == 0 then [] else EncodeGroups(chunk, n - 1) + Encode(chunk[17 * (n - 1)..17 * n])
  }

  function DecodeGroups(content: seq<int>, n: nat): (chunk: seq<int>)
    requires 14 * n <= |content| && AreDigits(256, content)
    ensures |chunk| == 17 * n && Printable(chunk)
    decreases n, content
  {
    if n == 0 then [] else DecodeGroups(content, n - 1) + Decode(content[14 * (n - 1)..14 * n])
  }

  lemma {:induction false} DecodePrefix(content: seq<int>, more: seq<int>, n: nat)
    requires 14 * n <= |content| && AreDigits(256, content) && AreDigits(256, more)
    ensures AreDigits(256, content + more) && DecodeGroups(content + more, n) == DecodeGroups(content, n)
    decreases n
  {
    if n > 0 {
      DecodePrefix(content, more, n - 1);
      assert (content + more)[14 * (n - 1)..14 * n] == content[14 * (n - 1)..14 * n];
    }
  }

  lemma DecodeLast(front: seq<int>, tail: seq<int>, n: nat)
    requires n > 0 && |front| == 14 * (n - 1) && |tail| == 14 && AreDigits(256, front) && AreDigits(256, tail)
    ensures AreDigits(256, front + tail)
    ensures DecodeGroups(front + tail, n) == DecodeGroups(front, n - 1) + Decode(tail)
  {
    DecodePrefix(front, tail, n - 1);
    assert (front + tail)[14 * (n - 1)..14 * n] == tail;
  }

  lemma GroupRoundTrip(chunk: seq<int>, n: nat)
    requires n > 0 && 17 * n <= |chunk| && Printable(chunk)
    ensures DecodeGroups(EncodeGroups(chunk, n), n)
         == DecodeGroups(EncodeGroups(chunk, n - 1), n - 1) + chunk[17 * (n - 1)..17 * n]
  {
    var group, front := chunk[17 * (n - 1)..17 * n], EncodeGroups(chunk, n - 1);
    PrintableSurvives(group);
    DecodeLast(front, Encode(group), n);
  }

  lemma {:induction false} GroupsRoundTrip(chunk: seq<int>, n: nat)
    requires 17 * n <= |chunk| && Printable(chunk)
    ensures DecodeGroups(EncodeGroups(chunk, n), n) == chunk[..17 * n]
    decreases n
  {
    if n > 0 {
      GroupsRoundTrip(chunk, n - 1);
      GroupRoundTrip(chunk, n);
      assert chunk[..17 * n] == chunk[..17 * (n - 1)] + chunk[17 * (n - 1)..17 * n];
    }
  }

  function EncodeChunk(chunk: seq<int>): (content: seq<int>)
    requires |chunk| == CHUNK_BUF
    ensures |content| == CHUNK_PKT && AreDigits(256, content)
  {
    EncodeGroups(chunk, GROUPS)
  }

  /** Group j of a chunk travels in bytes 14 * j to 14 * j + 13. */
  lemma {:induction false} GroupPlace(chunk: seq<int>, n: nat, j: nat)
    requires 17 * n <= |chunk| && j < n
    ensures EncodeGroups(chunk, n)[14 * j..14 * j + 14] == Encode(chunk[17 * j..17 * j + 17])
    decreases n
  {
    if j < n - 1 {
      GroupPlace(chunk, n - 1, j);
      assert EncodeGroups(chunk, n)[14 * j..14 * j + 14] == EncodeGroups(chunk, n - 1)[14 * j..14 * j + 14];
    } else {
      assert chunk[17 * (n - 1)..17 * n] == chunk[17 * j..17 * j + 17];
    }
  }

  function DecodeChunk(content: seq<int>): (chunk: seq<int>)
    requires |content| == CHUNK_PKT && AreDigits(256, content)
    ensures |chunk| == CHUNK_BUF
  {
    DecodeGroups(content, GROUPS)
  }

  /** A chunk of printable characters comes through whole. */
  lemma ChunkRoundTrip(chunk: seq<int>)
    requires |chunk| == CHUNK_BUF && Printable(chunk)
    ensures DecodeChunk(EncodeChunk(chunk)) == chunk
  {
    GroupsRoundTrip(chunk, GROUPS);
  }

  // ---- zeros ----

  ghost predicate AllEqual(s: seq<int>, v: int) {
    forall i :: 0 <= i < |s| ==> s[i] == v
  }

  lemma {:induction false} ZeroValue(base: nat, digits: seq<int>)
    requires AllEqual(digits, 0)
    ensures Value(base, digits) == 0
    decreases |digits|
  {
    if digits != [] {
      ZeroValue(base, digits[..|digits| - 1]);
    }
  }

  lemma {:induction false} ZeroDigits(base: nat, n: nat)
    requires base > 0
    ensures AllEqual(Digits(base, 0, n), 0)
    decreases n, base
  {
    if n > 0 {
      ZeroDigits(base, n - 1);
    }
  }

  lemma {:induction false} ZerosDecode(content: seq<int>, n: nat)
    requires 14 * n <= |content| && AllEqual(content, 0)
    ensures AreDigits(256, content) && AllEqual(DecodeGroups(content, n), 0x20)
    decreases n, content
  {
    if n > 0 {
      ZerosDecode(content, n - 1);
      ZeroValue(256, content[14 * (n - 1)..14 * n]);
      ZeroDigits(96, 17);
    }
  }

  /** Fourteen zero bytes in a row are seventeen blanks: a packet of zeros is a chunk of blanks. */
  lemma ZeroChunk(content: seq<int>)
    requires |content| == CHUNK_PKT && AllEqual(content, 0)
    ensures AreDigits(256, content) && AllEqual(DecodeChunk(content), 0x20)
  {
    ZerosDecode(content, GROUPS);
  }

  // ---- the loops ----

  /** The client's inner loops for one group: read 17 characters, write 14 bytes from the last to the first. */
  method EncodeGroup(buffer: array<int>, from: nat, content: array<int>, at: nat)
    requires buffer != content && from + 17 <= buffer.Length && at + 14 <= content.Length
    modifies content
    ensures content[..] == old(content[..at]) + Encode(buffer[from..from + 17]) + old(content[at + 14..])
  {
    ghost var chars := buffer[from..from + 17];
    var conv := 0;
    for i := 0 to 17
      invariant conv == Value(96, DigitsOf(chars)[..i])
    {
      conv := conv * 96;
      conv := conv + CMod(buffer[from + i] - 0x20, 96);
      assert DigitsOf(chars)[..i + 1][..i] == DigitsOf(chars)[..i];
    }
    assert DigitsOf(chars)[..17] == DigitsOf(chars);
    ghost var whole := conv;
    for i := 0 to 14
      invariant ByteRounds(whole, 14) == ByteRounds(conv, 14 - i) + content[at + 14 - i..at + 14]
      invariant content[..at] == old(content[..at]) && content[at + 14..] == old(content[at + 14..])
    {
      ghost var done := content[at + 14 - i..at + 14];
      content[at + 13 - i] := CMod(conv, 256) % 256;
      conv := CDiv(conv, 256);
      assert content[at + 13 - i..at + 14] == [content[at + 13 - i]] + done;
    }
    assert content[..] == content[..at] + content[at..at + 14] + content[at + 14..];
  }

  /** The client's loop over the groups of chunk k. */
  method PackChunk(buffer: array<int>, k: nat, content: array<int>)
    requires buffer != content && (k + 1) * CHUNK_BUF <= buffer.Length && content.Length == CHUNK_PKT
    modifies content
    ensures content[..] == EncodeChunk(buffer[k * CHUNK_BUF..(k + 1) * CHUNK_BUF])
  {
    ghost var chunk := buffer[k * CHUNK_BUF..(k + 1) * CHUNK_BUF];
    for j := 0 to GROUPS
      invariant content[..14 * j] == EncodeGroups(chunk, j)
    {
      ghost var packed := content[..14 * j];
      EncodeGroup(buffer, k * CHUNK_BUF + j * 17, content, j * 14);
      assert chunk[17 * j..17 * (j + 1)] == buffer[k * CHUNK_BUF + j * 17..k * CHUNK_BUF + j * 17 + 17];
      assert content[..14 * (j + 1)] == packed + Encode(chunk[17 * j..17 * (j + 1)]);
    }
    assert content[..14 * GROUPS] == content[..];
  }

  /** The server's first inner loop for one group. */
  method ReadConv(content: seq<int>, from: nat) returns (conv: nat)
    requires from + 14 <= |content| && AreDigits(256, content)
    ensures conv == Value(256, content[from..from + 14])
  {
    ghost var bytes := content[from..from + 14];
    var value := 0;
    for i := 0 to 14
      invariant value == Value(256, bytes[..i])
    {
      value := value * 256;
      value := value + content[from + i];
      assert bytes[..i + 1][..i] == bytes[..i];
    }
    assert bytes[..14] == bytes;
    ValueBound(256, bytes);
    conv := value;
  }

  /** The last i characters of the number are written. */
  ghost predicate CharsWritten(before: seq<int>, after: seq<int>, number: nat, conv: nat, at: nat, i: nat) {
    && i <= 17 && at + 17 <= |before|
    && Digits(96, number, 17)[..17 - i] == Digits(96, conv, 17 - i)
    && after == Spliced(before, CharsOf(number)[17 - i..], at + 17 - i)
  }

  lemma CharWritten(before: seq<int>, after: seq<int>, number: nat, conv: nat, at: nat, i: nat)
    requires i < 17 && CharsWritten(before, after, number, conv, at, i)
    ensures CharsWritten(before, after[at + 16 - i := conv % 96 + 0x20], number, conv / 96, at, i + 1)
  {
    var digits := Digits(96, number, 17);
    assert digits[16 - i] == digits[..17 - i][16 - i];
    assert digits[..16 - i] == digits[..17 - i][..16 - i];
  }

  /** The second one, from the last character to the first. */
  method WriteChars(number: nat, buffer: array<int>, at: nat)
    requires at + 17 <= buffer.Length
    modifies buffer
    ensures buffer[..] == Spliced(old(buffer[..]), CharsOf(number), at)
  {
    ghost var before := buffer[..];
    var conv := number;
    for i := 0 to 17
      invariant CharsWritten(before, buffer[..], number, conv, at, i)
    {
      ghost var b := buffer[..];
      CharWritten(before, b, number, conv, at, i);
      buffer[at + 16 - i] := conv % 96 + 0x20;
      assert buffer[..] == b[at + 16 - i := conv % 96 + 0x20];
      conv := conv / 96;
    }
  }

  method DecodeGroup(content: seq<int>, from: nat, buffer: array<int>, at: nat)
    requires from + 14 <= |content| && at + 17 <= buffer.Length && AreDigits(256, content)
    modifies buffer
    ensures buffer[..] == Spliced(old(buffer[..]), Decode(content[from..from + 14]), at)
  {
    var conv := ReadConv(content, from);
    WriteChars(conv, buffer, at);
  }

  ghost predicate UnpackedTo(before: seq<int>, after: seq<int>, content: seq<int>, at: nat, j: nat) {
    && 14 * j <= |content| && AreDigits(256, content) && at + 17 * j <= |before|
    && after == Spliced(before, DecodeGroups(content, j), at)
  }

  lemma GroupUnpacked(before: seq<int>, mid: seq<int>, after: seq<int>, content: seq<int>, at: nat, j: nat)
    requires UnpackedTo(before, mid, content, at, j)
    requires j * 14 + 14 <= |content| && at + j * 17 + 17 <= |before|
    requires after == Spliced(mid, Decode(content[j * 14..j * 14 + 14]), at + j * 17)
    ensures UnpackedTo(before, after, content, at, j + 1)
  {
    var group := content[14 * j..14 * (j + 1)];
    assert content[j * 14..j * 14 + 14] == group;
    SplicedNext(before, DecodeGroups(content, j), Decode(group), at);
  }

  /** The server's loop over the groups of a received chunk, whose place begins at `at`. */
  method UnpackGroups(content: seq<int>, buffer: array<int>, at: nat)
    requires |content| == 14 * GROUPS && AreDigits(256, content) && at + 17 * GROUPS <= buffer.Length
    modifies buffer
    ensures buffer[..] == Spliced(old(buffer[..]), DecodeGroups(content, GROUPS), at)
  {
    ghost var before := buffer[..];
    for j := 0 to GROUPS
      invariant UnpackedTo(before, buffer[..], content, at, j)
    {
      ghost var mid := buffer[..];
      DecodeGroup(content, j * 14, buffer, at + j * 17);
      GroupUnpacked(before, mid, buffer[..], content, at, j);
    }
  }

  method UnpackChunk(content: seq<int>, buffer: array<int>, k: nat)
    requires |content| == CHUNK_PKT && AreDigits(256, content) && (k + 1) * CHUNK_BUF <= buffer.Length
    modifies buffer
    ensures buffer[..] == Spliced(old(buffer[..]), DecodeChunk(content), k * CHUNK_BUF)
  {
    UnpackGroups(content, buffer, k * CHUNK_BUF);
  }

  /** `before` with the cells from `at` on replaced by `part`. */
  ghost function Spliced(before: seq<int>, part: seq<int>, at: nat): (after: seq<int>)
    requires at + |part| <= |before|
    ensures |after| == |before|
  {
    seq(|before|, i requires 0 <= i < |before| => if at <= i < at + |part| then part[i - at] else before[i])
  }

  lemma SplicedNext(before: seq<int>, part: seq<int>, more: seq<int>, at: nat)
    requires at + |part| + |more| <= |before|
    ensures Spliced(Spliced(before, part, at), more, at + |part|) == Spliced(before, part + more, at)
  {
  }
}
