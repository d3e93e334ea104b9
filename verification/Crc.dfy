/**
 CRC-32/MPEG-2 as tools/asdpack.c computes it, eight bits at a time through a table, and as
 Annex A of ISO/IEC 13818-1 describes it, one message bit at a time through a shift register.
 */
module Crc {
  import opened CArithmetic

  const POLY: bv32 := 0x04c1_1db7
  const TOP: bv32 := 0x8000_0000
  const START: bv32 := 0xffff_ffff

  function Xor(a: bv32, b: bv32): bv32 {
    a ^ b
  }

  function Up(c: bv32): bv32 {
    c << 1
  }

  function Up8(c: bv32): bv32 {
    c << 8
  }

  predicate Top(c: bv32) {
    c & TOP != 0
  }

  function Flag(on: bool, mask: bv32): bv32 {
    if on then mask else 0
  }

  /** Bit `k` of a byte. */
  predicate Odd(b: nat, k: nat) {
    if k == 0 then b % 2 == 1 else Odd(b / 2, k - 1)
  }

  /** The bits of a byte, as a word. */
  function Bits(b: Byte): bv32 {
    Flags(Odd(b, 7), Odd(b, 6), Odd(b, 5), Odd(b, 4), Odd(b, 3), Odd(b, 2), Odd(b, 1), Odd(b, 0))
  }

  /** The bits of a byte on top of a word. */
  function Lifted(b: Byte): bv32 {
    Bits(b) << 24
  }

  // ----- the decoder model: one bit at a time -----

  /** One clock of the register: the message bit and the top bit feed back. */
  function BitStep(c: bv32, bit: bool): bv32 {
    if Top(c) != bit then Xor(Up(c), POLY) else Up(c)
  }

  /** Clocks in the top `n` bits of `m`, highest first. */
  function Serial(c: bv32, m: bv32, n: nat): bv32
    decreases n
  {
    if n == 0 then c else Serial(BitStep(c, Top(m)), Up(m), n - 1)
  }

  /** The register after a message, starting from `c`. */
  function Register(c: bv32, message: seq<Byte>): bv32
    decreases |message|
  {
    if message == [] then c
    else Serial(Register(c, message[..|message| - 1]), Lifted(message[|message| - 1]), 8)
  }

  function BitSerialCrc(message: seq<Byte>): bv32 {
    Register(START, message)
  }

  // ----- the register without message bits -----

  /** One round of the table's inner loop. */
  function Shift(c: bv32): bv32 {
    if Top(c) then Xor(Up(c), POLY) else Up(c)
  }

  function Shifts(c: bv32, n: nat): bv32
    decreases n
  {
    if n == 0 then c else Shifts(Shift(c), n - 1)
  }

  lemma {:induction false} TopOfXor(a: bv32, b: bv32)
    ensures Top(Xor(a, b)) == (Top(a) != Top(b))
  {
  }

  lemma {:induction false} UpOfXor(a: bv32, b: bv32)
    ensures Up(Xor(a, b)) == Xor(Up(a), Up(b))
  {
  }

  lemma {:induction false} XorSwaps(a: bv32, b: bv32)
    ensures Xor(a, b) == Xor(b, a)
  {
  }

  lemma {:induction false} XorRegroups(a: bv32, b: bv32, c: bv32)
    ensures Xor(Xor(a, b), c) == Xor(a, Xor(b, c))
  {
  }

  lemma {:induction false} XorCancels(a: bv32)
    ensures Xor(a, a) == 0 && Xor(a, 0) == a
  {
  }

  /** A third word added on either side, or on both. */
  lemma {:induction false} XorLaws(a: bv32, b: bv32, p: bv32)
    ensures Xor(Xor(a, p), b) == Xor(Xor(a, b), p) == Xor(a, Xor(b, p))
    ensures Xor(Xor(a, p), Xor(b, p)) == Xor(a, b) && Xor(Xor(a, p), p) == a
  {
    hide Xor;
    XorRegroups(a, p, b);
    XorRegroups(a, b, p);
    XorSwaps(p, b);
    XorRegroups(a, p, p);
    XorCancels(p);
    XorCancels(a);
    XorRegroups(a, p, Xor(b, p));
    XorRegroups(p, b, p);
    XorRegroups(b, p, p);
    XorCancels(b);
  }

  /** The register is linear. */
  lemma {:induction false} ShiftLinear(a: bv32, b: bv32)
    ensures Shift(Xor(a, b)) == Xor(Shift(a), Shift(b))
  {
    hide Xor, Up, Top;
    TopOfXor(a, b);
    UpOfXor(a, b);
    XorLaws(Up(a), Up(b), POLY);
  }

  lemma {:induction false} ShiftsLinear(a: bv32, b: bv32, n: nat)
    ensures Shifts(Xor(a, b), n) == Xor(Shifts(a, n), Shifts(b, n))
    decreases n
  {
    hide Shift, Xor;
    if n > 0 {
      ShiftLinear(a, b);
      ShiftsLinear(Shift(a), Shift(b), n - 1);
    }
  }

  lemma {:induction false} ShiftsCompose(c: bv32, m: nat, n: nat)
    ensures Shifts(c, m + n) == Shifts(Shifts(c, m), n)
    decreases m
  {
    hide Shift;
    if m > 0 {
      ShiftsCompose(Shift(c), m - 1, n);
    }
  }

  function Down(c: bv32): bv32 {
    c >> 1
  }

  function WithTop(c: bv32): bv32 {
    c | TOP
  }

  predicate Bottom(c: bv32) {
    c & 1 != 0
  }

  /** One clock can be undone: the bottom bit tells whether the polynomial was added. */
  function Unshift(d: bv32): bv32 {
    if Bottom(d) then WithTop(Down(Xor(d, POLY))) else Down(d)
  }

  lemma {:induction false} UnshiftShift(c: bv32)
    ensures Unshift(Shift(c)) == c
  {
    hide Xor, Up, Top, Down, WithTop, Bottom;
    XorLaws(Up(c), 0, POLY);
    UpThenDown(c);
    BottomAfterUp(c);
  }

  lemma {:induction false} UpThenDown(c: bv32)
    ensures if Top(c) then WithTop(Down(Up(c))) == c else Down(Up(c)) == c
  {
  }

  lemma {:induction false} BottomAfterUp(c: bv32)
    ensures !Bottom(Up(c)) && Bottom(Xor(Up(c), POLY))
  {
  }

  lemma {:induction false} ShiftsInjective(c: bv32, d: bv32, n: nat)
    requires Shifts(c, n) == Shifts(d, n)
    ensures c == d
    decreases n
  {
    hide Shift, Unshift;
    if n > 0 {
      ShiftsInjective(Shift(c), Shift(d), n - 1);
      UnshiftShift(c);
      UnshiftShift(d);
    }
  }

  /** Plain left shifts by one. */
  function Ups(m: bv32, n: nat): bv32
    decreases n
  {
    if n == 0 then m else Ups(Up(m), n - 1)
  }

  lemma {:induction false} StepIsShift(c: bv32, m: bv32)
    ensures Shift(Xor(c, m)) == Xor(BitStep(c, Top(m)), Up(m))
  {
    hide Xor, Up, Top;
    TopOfXor(c, m);
    UpOfXor(c, m);
    XorLaws(Up(c), Up(m), POLY);
  }

  /** Clocking message bits in is shifting the register with the message added up front. */
  lemma {:induction false} SerialIsShifts(c: bv32, m: bv32, n: nat)
    ensures Xor(Serial(c, m, n), Ups(m, n)) == Shifts(Xor(c, m), n)
    decreases n
  {
    hide Shift, BitStep, Xor, Up, Top;
    if n > 0 {
      StepIsShift(c, m);
      SerialIsShifts(BitStep(c, Top(m)), Up(m), n - 1);
    }
  }

  lemma {:induction false} UpsEight(m: bv32)
    ensures Ups(m, 8) == Up8(m)
  {
    hide Up, Up8;
    var m1 := Up(m); var m2 := Up(m1); var m3 := Up(m2); var m4 := Up(m3);
    var m5 := Up(m4); var m6 := Up(m5); var m7 := Up(m6); var m8 := Up(m7);
    assert Ups(m8, 0) == m8;
    assert Ups(m7, 1) == m8; assert Ups(m6, 2) == m8; assert Ups(m5, 3) == m8;
    assert Ups(m4, 4) == m8; assert Ups(m3, 5) == m8; assert Ups(m2, 6) == m8; assert Ups(m1, 7) == m8;
    EightUps(m);
  }

  lemma {:induction false} EightUps(m: bv32)
    ensures Up(Up(Up(Up(Up(Up(Up(Up(m)))))))) == Up8(m)
  {
  }

  /** The top eight bits are clear. */
  predicate Low(m: bv32) {
    m & 0xff00_0000 == 0
  }

  /** Words without bits on top are not fed back for eight clocks. */
  lemma {:induction false} ShiftsLow(m: bv32)
    requires Low(m)
    ensures Shifts(m, 8) == Up8(m)
  {
    hide Up, Up8, Top, Xor, Low;
    var m1 := Up(m); var m2 := Up(m1); var m3 := Up(m2); var m4 := Up(m3);
    var m5 := Up(m4); var m6 := Up(m5); var m7 := Up(m6); var m8 := Up(m7);
    TopsClear(m);
    assert Shifts(m8, 0) == m8;
    assert Shifts(m7, 1) == m8; assert Shifts(m6, 2) == m8; assert Shifts(m5, 3) == m8;
    assert Shifts(m4, 4) == m8; assert Shifts(m3, 5) == m8; assert Shifts(m2, 6) == m8; assert Shifts(m1, 7) == m8;
    EightUps(m);
  }

  lemma {:induction false} TopsClear(m: bv32)
    requires Low(m)
    ensures !Top(m) && !Top(Up(m)) && !Top(Up(Up(m))) && !Top(Up(Up(Up(m)))) && !Top(Up(Up(Up(Up(m)))))
    ensures !Top(Up(Up(Up(Up(Up(m)))))) && !Top(Up(Up(Up(Up(Up(Up(m)))))))
    ensures !Top(Up(Up(Up(Up(Up(Up(Up(m))))))))
  {
  }

  // ----- bytes -----

  function N(b: bool): nat {
    if b then 1 else 0
  }

  function Sum(a7: bool, a6: bool, a5: bool, a4: bool, a3: bool, a2: bool, a1: bool, a0: bool): nat {
    16 * (8 * N(a7) + 4 * N(a6) + 2 * N(a5) + N(a4)) + 8 * N(a3) + 4 * N(a2) + 2 * N(a1) + N(a0)
  }

  lemma {:induction false} FlagsValue(a7: bool, a6: bool, a5: bool, a4: bool, a3: bool, a2: bool, a1: bool, a0: bool)
    ensures Flags(a7, a6, a5, a4, a3, a2, a1, a0) as int == Sum(a7, a6, a5, a4, a3, a2, a1, a0)
  {
  }

  lemma {:induction false} Binary(b: nat, k: nat)
    ensures b == N(Odd(b, 0)) + 2 * (b / 2) && Odd(b / 2, k) == Odd(b, k + 1)
  {
  }

  function High4(b: nat): nat {
    b / 2 / 2 / 2 / 2
  }

  /** The bits of a byte have its value. */
  lemma {:induction false} BitsValue(b: Byte)
    ensures Bits(b) as int == b
  {
    hide Odd, Flags, Sum;
    FlagsValue(Odd(b, 7), Odd(b, 6), Odd(b, 5), Odd(b, 4), Odd(b, 3), Odd(b, 2), Odd(b, 1), Odd(b, 0));
    BinarySum(b);
  }

  lemma {:induction false} BitsAre(b: Byte)
    ensures Bits(b) == b as bv32
  {
    hide Bits;
    BitsValue(b);
    AsIntAsBits(Bits(b));
  }

  lemma {:induction false} AsIntAsBits(x: bv32)
    ensures (x as int) as bv32 == x
  {
  }

  lemma {:induction false} BinarySum(b: Byte)
    ensures b == Sum(Odd(b, 7), Odd(b, 6), Odd(b, 5), Odd(b, 4), Odd(b, 3), Odd(b, 2), Odd(b, 1), Odd(b, 0))
  {
    hide Odd, N, High4;
    TwoNibbles(b);
    Nibble(b);
    Nibble(High4(b));
    OddShift4(b, 0); OddShift4(b, 1); OddShift4(b, 2); OddShift4(b, 3);
  }

  lemma {:induction false} TwoNibbles(b: Byte)
    ensures High4(High4(b)) == 0
  {
  }

  lemma {:induction false} Nibble(b: nat)
    ensures b == 16 * High4(b) + 8 * N(Odd(b, 3)) + 4 * N(Odd(b, 2)) + 2 * N(Odd(b, 1)) + N(Odd(b, 0))
  {
    hide Odd, N;
    Binary(b, 0);
    Binary(b, 1);
    Binary(b, 2);
    Binary(b / 2, 0);
    Binary(b / 2, 1);
    Binary(b / 2 / 2, 0);
    Binary(b / 2 / 2 / 2, 0);
  }

  lemma {:induction false} OddShift4(b: nat, k: nat)
    ensures Odd(High4(b), k) == Odd(b, k + 4)
  {
    hide Odd;
    Binary(b, k + 3);
    Binary(b / 2, k + 2);
    Binary(b / 2 / 2, k + 1);
    Binary(b / 2 / 2 / 2, k);
  }

  /** A byte is determined by its bits. */
  lemma {:induction false} BitsInjective(a: Byte, b: Byte)
    requires Bits(a) == Bits(b)
    ensures a == b
  {
    hide Bits;
    BitsValue(a);
    BitsValue(b);
  }

  function Flags(a7: bool, a6: bool, a5: bool, a4: bool, a3: bool, a2: bool, a1: bool, a0: bool): bv32 {
    ((Flag(a7, 128) | Flag(a6, 64)) | (Flag(a5, 32) | Flag(a4, 16)))
    | ((Flag(a3, 8) | Flag(a2, 4)) | (Flag(a1, 2) | Flag(a0, 1)))
  }

  lemma {:induction false} SmallIndex(x: bv32)
    requires x < 256
    ensures x as int < 256 && (x as int) as bv32 == x
  {
  }

  lemma {:induction false} LiftedOut(b: Byte)
    ensures Up8(Lifted(b)) == 0
  {
  }

  /** A byte clocked in bit by bit. */
  lemma {:induction false} SerialByte(c: bv32, b: Byte)
    ensures Serial(c, Lifted(b), 8) == Shifts(Xor(c, Lifted(b)), 8)
  {
    hide Serial, Shifts, Ups, Lifted, Xor, Up8;
    SerialIsShifts(c, Lifted(b), 8);
    UpsEight(Lifted(b));
    LiftedOut(b);
    XorCancels(Serial(c, Lifted(b), 8));
  }

  /** What the table holds at an index below 256. */
  function TableEntry(x: bv32): bv32 {
    Shifts(x << 24, 8)
  }

  /** The table index for a register and the bits of a byte. */
  function Index(c: bv32, bits: bv32): (x: bv32)
    ensures bits < 256 ==> x < 256
  {
    (c >> 24) ^ bits
  }

  lemma {:induction false} BitsSmall(b: Byte)
    ensures Bits(b) < 256
  {
  }

  lemma {:induction false} IndexSplits(c: bv32, bits: bv32)
    ensures Xor(c, bits << 24) == Xor(Index(c, bits) << 24, c & 0x00ff_ffff)
  {
    hide Xor;
    LiftIndex(c, bits);
    SplitWord(c);
    XorLaws(c & 0xff00_0000, c & 0x00ff_ffff, bits << 24);
  }

  lemma {:induction false} LiftIndex(c: bv32, bits: bv32)
    ensures Index(c, bits) << 24 == Xor(c & 0xff00_0000, bits << 24)
  {
  }

  lemma {:induction false} SplitWord(c: bv32)
    ensures c == Xor(c & 0xff00_0000, c & 0x00ff_ffff)
  {
  }

  lemma {:induction false} LowPart(c: bv32)
    ensures Low(c & 0x00ff_ffff) && Up8(c & 0x00ff_ffff) == Up8(c)
  {
  }

  /** One table step is eight clocks of the register. */
  lemma {:induction false} TableStepIsSerial(c: bv32, b: Byte)
    ensures Xor(Up8(c), TableEntry(Index(c, Bits(b)))) == Serial(c, Lifted(b), 8)
  {
    hide Serial, Shifts, Bits, Xor, Up8, Index, Low;
    IndexSplits(c, Bits(b));
    LowPart(c);
    SerialByte(c, b);
    var high, low := Index(c, Bits(b)) << 24, c & 0x00ff_ffff;
    ShiftsLinear(high, low, 8);
    ShiftsLow(low);
    XorSwaps(Up8(c), Shifts(high, 8));
  }

  // ----- the code -----

  /** The inner loop of the table of `crc32_mpeg2`. */
  method BuildEntry(x: bv32) returns (c: bv32)
    ensures c == TableEntry(x)
  {
    hide Shifts;
    c := x << 24;
    for j := 0 to 8
      invariant Shifts(c, 8 - j) == TableEntry(x)
    {
      ShiftsUnfold(c, 8 - j);
      c := if Top(c) then Xor(Up(c), 0x04c1_1db7) else Up(c);
    }
    ShiftsUnfold(c, 0);
  }

  method BuildTable() returns (table: array<bv32>)
    ensures fresh(table) && table.Length == 256
    ensures forall k | 0 <= k < 256 :: table[k] == TableEntry(k as bv32)
  {
    hide TableEntry;
    table := new bv32[256];
    for i := 0 to 256
      invariant forall k | 0 <= k < i :: table[k] == TableEntry(k as bv32)
    {
      table[i] := BuildEntry(i as bv32);
    }
  }

  lemma {:induction false} ShiftsUnfold(c: bv32, n: nat)
    ensures Shifts(c, n) == if n == 0 then c else Shifts(Shift(c), n - 1)
  {
  }

  lemma {:induction false} RegisterStep(c: bv32, message: seq<Byte>, i: nat)
    requires i < |message|
    ensures Register(c, message[..i + 1]) == Serial(Register(c, message[..i]), Lifted(message[i]), 8)
  {
    hide Serial, Lifted;
    assert message[..i + 1][..i] == message[..i];
  }

  /** `crc32_mpeg2`: the table-driven loop computes the bit-serial checksum of every message. */
  method CrcMpeg2(message: seq<Byte>) returns (c: bv32)
    ensures c == BitSerialCrc(message)
  {
    hide Serial, TableEntry, Lifted, Bits, Index, Xor, Up8;
    var table := BuildTable();
    c := START;
    for i := 0 to |message|
      invariant c == Register(START, message[..i])
      invariant forall k | 0 <= k < 256 :: table[k] == TableEntry(k as bv32)
    {
      RegisterStep(START, message, i);
      TableStepIsSerial(c, message[i]);
      BitsSmall(message[i]);
      var x := Index(c, Bits(message[i]));
      SmallIndex(x);
      c := Xor(Up8(c), table[x as int]);
    }
    assert message[..|message|] == message;
  }

  // ----- what the checksum tells apart -----

  lemma {:induction false} RegisterSplit(c: bv32, a: seq<Byte>, b: seq<Byte>)
    ensures Register(c, a + b) == Register(Register(c, a), b)
    decreases |b|
  {
    hide Serial, Lifted;
    if b == [] {
      assert a + b == a;
    } else {
      var n := |b| - 1;
      RegisterSplit(c, a, b[..n]);
      assert (a + b)[..|a| + n] == a + b[..n];
    }
  }

  /** Equal registers after the same bytes were equal before them. */
  lemma {:induction false} RegisterInjective(c: bv32, d: bv32, message: seq<Byte>)
    requires Register(c, message) == Register(d, message)
    ensures c == d
    decreases |message|
  {
    hide Serial, Shifts, Lifted, Xor;
    if message != [] {
      var n := |message| - 1;
      var c', d' := Register(c, message[..n]), Register(d, message[..n]);
      var m := Lifted(message[n]);
      SerialByte(c', message[n]);
      SerialByte(d', message[n]);
      ShiftsInjective(Xor(c', m), Xor(d', m), 8);
      XorLaws(c', 0, m);
      XorLaws(d', 0, m);
      RegisterInjective(c, d, message[..n]);
    }
  }

  // Up to four bytes at once: they enter the register like one word.

  function Down8(c: bv32): bv32 {
    c >> 8
  }

  /** The bytes as a word, the first on top. */
  function Word(w: seq<Byte>): bv32 {
    if w == [] then 0 else Xor(Lifted(w[0]), Down8(Word(w[1..])))
  }

  /** The bits below the top `n` bytes. */
  function Below(n: nat): bv32 {
    match n
    case 0 => 0xffff_ffff
    case 1 => 0x00ff_ffff
    case 2 => 0x0000_ffff
    case 3 => 0x0000_00ff
    case _ => 0
  }

  predicate ClearBelow(r: bv32, n: nat) {
    r & Below(n) == 0
  }

  lemma {:induction false} LiftedClear(b: Byte)
    ensures Lifted(b) & 0x00ff_ffff == 0
  {
  }

  lemma {:induction false} ClearStep(x: bv32, r: bv32, n: nat)
    requires n < 4 && x & 0x00ff_ffff == 0 && ClearBelow(r, n)
    ensures ClearBelow(Xor(x, Down8(r)), n + 1)
  {
  }

  lemma {:induction false} WordClear(w: seq<Byte>)
    requires |w| <= 4
    ensures ClearBelow(Word(w), |w|)
    decreases |w|
  {
    hide Xor, Down8, ClearBelow, Lifted;
    if w != [] {
      WordClear(w[1..]);
      LiftedClear(w[0]);
      ClearStep(Lifted(w[0]), Word(w[1..]), |w| - 1);
    } else {
      ZeroClear();
    }
  }

  lemma {:induction false} ZeroClear()
    ensures ClearBelow(0, 0)
  {
  }

  /** A word whose last byte is clear moves down and up again unharmed. */
  lemma {:induction false} DownUp(r: bv32, n: nat)
    requires n < 4 && ClearBelow(r, n)
    ensures Low(Down8(r)) && Up8(Down8(r)) == r
  {
  }

  lemma {:induction false} RegisterOne(c: bv32, b: Byte)
    ensures Register(c, [b]) == Serial(c, Lifted(b), 8)
  {
    hide Serial, Lifted;
    assert [b][..0] == [];
  }

  lemma {:induction false} RegisterWord(c: bv32, w: seq<Byte>)
    requires |w| <= 4
    ensures Register(c, w) == Shifts(Xor(c, Word(w)), 8 * |w|)
    decreases |w|
  {
    hide Xor, Down8, ClearBelow, Lifted, Serial, Up8, Low, Register, Shifts;
    if w == [] {
      XorCancels(c);
      RegisterNone(Xor(c, 0));
    } else {
      var rest := w[1..];
      var x, r := Lifted(w[0]), Word(rest);
      assert w == [w[0]] + rest;
      RegisterSplit(c, [w[0]], rest);
      RegisterOne(c, w[0]);
      SerialByte(c, w[0]);
      RegisterWord(Shifts(Xor(c, x), 8), rest);
      WordClear(rest);
      DownUp(r, |rest|);
      ShiftsLow(Down8(r));
      ShiftsLinear(Xor(c, x), Down8(r), 8);
      XorRegroups(c, x, Down8(r));
      ShiftsCompose(Xor(c, Word(w)), 8, 8 * |rest|);
    }
  }

  lemma {:induction false} RegisterNone(c: bv32)
    ensures Register(c, []) == c && Shifts(c, 0) == c
  {
  }

  lemma {:induction false} TopByte(a: Byte, b: Byte, r: bv32, s: bv32)
    requires Xor(Lifted(a), Down8(r)) == Xor(Lifted(b), Down8(s))
    ensures Bits(a) == Bits(b) && Down8(r) == Down8(s)
  {
    hide Bits, Xor, Down8;
    BitsSmall(a);
    BitsSmall(b);
    TopBits(Bits(a), Bits(b), r, s);
  }

  lemma {:induction false} TopBits(a: bv32, b: bv32, r: bv32, s: bv32)
    requires a < 256 && b < 256 && Xor(a << 24, Down8(r)) == Xor(b << 24, Down8(s))
    ensures a == b && Down8(r) == Down8(s)
  {
    TopBitsOf(a, r);
    TopBitsOf(b, s);
  }

  lemma {:induction false} TopBitsOf(a: bv32, r: bv32)
    requires a < 256
    ensures Xor(a << 24, Down8(r)) >> 24 == a && Xor(a << 24, Down8(r)) & 0x00ff_ffff == Down8(r)
  {
  }

  lemma {:induction false} WordUnfold(w: seq<Byte>)
    ensures w != [] ==> Word(w) == Xor(Lifted(w[0]), Down8(Word(w[1..])))
  {
  }

  lemma {:induction false} WordInjective(w: seq<Byte>, v: seq<Byte>)
    requires |w| == |v| <= 4 && Word(w) == Word(v)
    ensures w == v
    decreases |w|
  {
    hide Xor, Down8, ClearBelow, Lifted, Up8, Low, Bits, Word;
    WordUnfold(w);
    WordUnfold(v);
    if w != [] {
      TopByte(w[0], v[0], Word(w[1..]), Word(v[1..]));
      BitsInjective(w[0], v[0]);
      WordClear(w[1..]);
      WordClear(v[1..]);
      DownUp(Word(w[1..]), |w| - 1);
      DownUp(Word(v[1..]), |w| - 1);
      WordInjective(w[1..], v[1..]);
      assert w == [w[0]] + w[1..] && v == [v[0]] + v[1..];
    }
  }

  /**
   Messages that differ only within four adjacent bytes have different checksums: a burst of
   up to 32 bits is always seen.
   */
  lemma {:induction false} BurstIsSeen(a: seq<Byte>, w: seq<Byte>, v: seq<Byte>, b: seq<Byte>)
    requires |w| == |v| <= 4 && w != v
    ensures BitSerialCrc(a + w + b) != BitSerialCrc(a + v + b)
  {
    hide Xor, Register, Shifts, Word;
    if BitSerialCrc(a + w + b) == BitSerialCrc(a + v + b) {
      var c := Register(START, a);
      RegisterSplit(START, a + w, b);
      RegisterSplit(START, a, w);
      RegisterSplit(START, a + v, b);
      RegisterSplit(START, a, v);
      RegisterInjective(Register(c, w), Register(c, v), b);
      RegisterWord(c, w);
      RegisterWord(c, v);
      ShiftsInjective(Xor(c, Word(w)), Xor(c, Word(v)), 8 * |w|);
      XorSwaps(c, Word(w));
      XorSwaps(c, Word(v));
      XorLaws(Word(w), 0, c);
      XorLaws(Word(v), 0, c);
      WordInjective(w, v);
    }
  }
}
