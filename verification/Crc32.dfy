/** CRC-32 as in section 8 of RFC 1952: the table-driven loop against the serial shift register. */
module Crc32 {
  import opened Registers

  type byte = bv8

  /** The reflected generator polynomial. */
  const POLY: bv32 := 0xEDB88320
  const ONES: bv32 := 0xFFFFFFFF

  function Xor(a: bv32, b: bv32): bv32 { a ^ b }

  function Shift(x: bv32): bv32 { x >> 1 }

  // ---------- the reference: one message bit at a time, low bit first ----------

  function FeedBit(crc: bv32, x: bv32): bv32 {
    if (crc ^ (x & 1)) & 1 == 1 then (crc >> 1) ^ POLY else crc >> 1
  }

  function FeedByte(crc: bv32, b: byte): bv32 {
    Feed(FeedBit, Shift, crc, b as bv32, 8)
  }

  function SerialCrc(s: seq<byte>): bv32 {
    Fold(FeedByte, ONES, s) ^ ONES
  }

  // ---------- the program ----------

  function Step(c: bv32): bv32 {
    if c & 1 == 1 then (c >> 1) ^ POLY else c >> 1
  }

  /** The text up to its first NUL, which is where the loop stops. */
  function CString(s: seq<byte>): (r: seq<byte>)
    ensures r <= s && 0 !in r && (|r| < |s| ==> s[|r|] == 0)
  {
    if s == [] || s[0] == 0 then [] else [s[0]] + CString(s[1..])
  }

  /** What the table must hold. */
  ghost function Cells(): (r: seq<bv32>)
    ensures |r| == 256 && forall i :: 0 <= i < 256 ==> r[i] == Iter(Step, i as bv32, 8)
  {
    seq(256, i requires 0 <= i < 256 => Iter(Step, i as bv32, 8))
  }

  /** The lookup table and the flag that says it has been filled. */
  class CrcTable {
    var table: array<bv32>
    var ready: bool

    ghost predicate Valid()
      reads this, table
    {
      table.Length == 256 && (ready ==> forall i :: 0 <= i < 256 ==> table[i] == Iter(Step, i as bv32, 8))
    }

    constructor ()
      ensures Valid() && fresh(table)
    {
      table := new bv32[256];
      ready := false;
    }

    /** The inner loop of the table fill. */
    static method EightSteps(start: bv32) returns (c: bv32)
      ensures c == Iter(Step, start, 8)
    {
      c := start;
      var j := 0;
      while j < 8
        invariant 0 <= j <= 8 && Iter(Step, c, 8 - j) == Iter(Step, start, 8)
      {
        if c & 1 != 0 { c := (c >> 1) ^ POLY; } else { c := c >> 1; }
        j := j + 1;
      }
    }

    method Init()
      requires Valid()
      modifies this`ready, table
      ensures Valid() && ready
    {
      if ready { return; }
      ghost var cells := Cells();
      var i := 0;
      while i < 256
        invariant 0 <= i <= 256 && table[..i] == cells[..i]
      {
        var c := EightSteps(i as bv32);
        table[i] := c;
        i := i + 1;
      }
      assert forall k :: 0 <= k < 256 ==> table[k] == table[..256][k] == cells[k];
      ready := true;
    }

    method Hash(s: seq<byte>) returns (crc: bv32)
      requires Valid()
      modifies this`ready, table
      ensures Valid() && ready
      ensures crc == SerialCrc(CString(s))
    {
      Init();
      forall c, b ensures Xor(c >> 8, table[Index(c, b)]) == FeedByte(c, b) {
        StepIsByteRegister();
        LookupIsFeed(Step, FeedByte, c, b);
      }
      crc := FoldTable(s, FeedByte);
      crc := crc ^ ONES;
    }

    /** The loop folds whatever one look-up computes. */
    method FoldTable(s: seq<byte>, ghost feed: (bv32, byte) -> bv32) returns (crc: bv32)
      requires table.Length == 256
      requires forall c, b :: Xor(c >> 8, table[Index(c, b)]) == feed(c, b)
      ensures crc == Fold(feed, ONES, CString(s))
    {
      crc := ONES;
      var p := 0;
      assert s[0..] == s;
      while p < |s| && s[p] != 0
        invariant 0 <= p <= |s|
        invariant Fold(feed, crc, CString(s[p..])) == Fold(feed, ONES, CString(s))
      {
        NextByte(s, p);
        crc := Xor(crc >> 8, table[Index(crc, s[p])]);
        p := p + 1;
      }
      assert CString(s[p..]) == [];
    }
  }

  /** The cell that a byte selects. */
  function Index(crc: bv32, b: byte): (i: nat)
    ensures i < 256 && i as bv32 == Xor(crc, b as bv32) & 0xFF
  {
    CellNumber(Xor(crc, b as bv32) & 0xFF)
  }

  function CellNumber(idx: bv32): (i: nat)
    requires idx <= 0xFF
    ensures i < 256 && i as bv32 == idx
  {
    idx as nat
  }

  lemma NextByte(s: seq<byte>, p: nat)
    requires p < |s| && s[p] != 0
    ensures CString(s[p..]) != [] && CString(s[p..])[0] == s[p] && CString(s[p..])[1..] == CString(s[p + 1..])
  {
    assert s[p..][1..] == s[p + 1..];
  }

  // ---------- linearity ----------

  lemma LowBit(a: bv32, b: bv32)
    ensures (a ^ b) & 1 == (a & 1) ^ (b & 1)
    ensures a & 1 == 0 || a & 1 == 1
  {
  }

  lemma ShiftXor(a: bv32, b: bv32)
    ensures (a ^ b) >> 1 == (a >> 1) ^ (b >> 1)
  {
  }

  lemma XorLaws(x: bv32, y: bv32, p: bv32)
    ensures (x ^ p) ^ (y ^ p) == x ^ y
    ensures (x ^ y) ^ p == (x ^ p) ^ y == x ^ (y ^ p)
    ensures x ^ y == y ^ x
  {
  }

  lemma XorSwap(a: bv32, b: bv32)
    ensures Xor(a, b) == Xor(b, a)
  {
  }

  lemma XorCancel(a: bv32, b: bv32, p: bv32)
    ensures a ^ p == b ^ p <==> a == b
    ensures p ^ a == p ^ b <==> a == b
  {
  }

  /** One shift of the register is linear over exclusive or. */
  lemma StepIsLinear(a: bv32, b: bv32)
    ensures Step(a ^ b) == Step(a) ^ Step(b)
  {
    LowBit(a, b);
    LowBit(b, a);
    ShiftXor(a, b);
    XorLaws(a >> 1, b >> 1, POLY);
  }

  /** Shifting a register whose low byte is clear only shifts. */
  lemma ClearLowByte(a: bv32)
    requires a & 0xFF == 0
    ensures Iter(Step, a, 8) == a >> 8
  {
    IterEight(Step, a);
  }

  lemma FeedOne(crc: bv32, x: bv32)
    ensures Step(crc ^ x) == FeedBit(crc, x) ^ (x >> 1)
  {
    LowBit(crc, x);
    LowBit(x, crc);
    LowBitTwice(crc, x);
    ShiftXor(crc, x);
    XorLaws(crc >> 1, x >> 1, POLY);
  }

  lemma LowBitTwice(crc: bv32, x: bv32)
    ensures (crc ^ (x & 1)) & 1 == (crc ^ x) & 1
  {
  }

  lemma ByteShiftsOut(b: byte)
    ensures Iter(Shift, b as bv32, 8) == 0
  {
    IterEight(Shift, b as bv32);
  }

  lemma FeedByteIsSteps(crc: bv32, b: byte)
    ensures FeedByte(crc, b) == Iter(Step, Xor(crc, b as bv32), 8)
  {
    var x := b as bv32;
    forall r, y ensures Step(Xor(r, y)) == Xor(FeedBit(r, y), Shift(y)) { FeedOne(r, y); }
    FeedIsStepping(Step, Xor, FeedBit, Shift, crc, x, 8);
    ByteShiftsOut(b);
    assert Xor(FeedByte(crc, b), 0) == FeedByte(crc, b);
  }

  lemma SplitWord(x: bv32)
    ensures x == Xor(x & 0xFFFFFF00, x & 0xFF)
    ensures (x & 0xFFFFFF00) & 0xFF == 0
    ensures (x & 0xFFFFFF00) >> 8 == x >> 8
  {
  }

  lemma ByteBelow(crc: bv32, b: byte)
    ensures Xor(crc, b as bv32) >> 8 == crc >> 8
  {
  }

  /** A linear step whose eighth power shifts a clear low byte out, and what feeding a byte does with it. */
  ghost predicate ByteRegister(step: bv32 -> bv32, feed: (bv32, byte) -> bv32) {
    && Linear(step, Xor)
    && (forall a :: a & 0xFF == 0 ==> Iter(step, a, 8) == a >> 8)
    && (forall c, b :: feed(c, b) == Iter(step, Xor(c, b as bv32), 8))
  }

  lemma StepIsByteRegister()
    ensures ByteRegister(Step, FeedByte)
  {
    forall x, y ensures Step(Xor(x, y)) == Xor(Step(x), Step(y)) { StepIsLinear(x, y); }
    forall a | a & 0xFF == 0 ensures Iter(Step, a, 8) == a >> 8 { ClearLowByte(a); }
    forall c, b ensures FeedByte(c, b) == Iter(Step, Xor(c, b as bv32), 8) { FeedByteIsSteps(c, b); }
  }

  lemma HalvesStepApart(step: bv32 -> bv32, x: bv32, hi: bv32, lo: bv32, down: bv32, n: nat)
    requires Linear(step, Xor) && x == Xor(hi, lo) && Iter(step, hi, n) == down
    ensures Iter(step, x, n) == Xor(down, Iter(step, lo, n))
  {
    IterIsLinear(step, Xor, hi, lo, n);
  }

  /** The low byte goes through the table, the rest is shifted down. */
  lemma HighAndLow(step: bv32 -> bv32, feed: (bv32, byte) -> bv32, x: bv32)
    requires ByteRegister(step, feed)
    ensures Iter(step, x, 8) == Xor(x >> 8, Iter(step, x & 0xFF, 8))
  {
    SplitWord(x);
    HalvesStepApart(step, x, x & 0xFFFFFF00, x & 0xFF, x >> 8, 8);
  }

  /** One table lookup feeds one byte. */
  lemma LookupIsFeed(step: bv32 -> bv32, feed: (bv32, byte) -> bv32, crc: bv32, b: byte)
    requires ByteRegister(step, feed)
    ensures Xor(crc >> 8, Iter(step, Xor(crc, b as bv32) & 0xFF, 8)) == feed(crc, b)
  {
    HighAndLow(step, feed, Xor(crc, b as bv32));
    ByteBelow(crc, b);
  }

  // ---------- error detection ----------

  function Unstep(c: bv32): bv32 {
    if c & 0x80000000 != 0 then ((c ^ POLY) << 1) | 1 else c << 1
  }

  lemma TopBit(c: bv32)
    ensures (c >> 1) & 0x80000000 == 0
    ensures ((c >> 1) ^ POLY) & 0x80000000 != 0
    ensures c & 1 == 1 ==> (((c >> 1) << 1) | 1) == c
    ensures c & 1 == 0 ==> ((c >> 1) << 1) == c
    ensures ((c >> 1) ^ POLY) ^ POLY == c >> 1
  {
  }

  lemma StepIsReversible(c: bv32)
    ensures Unstep(Step(c)) == c
  {
    LowBit(c, c);
    TopBit(c);
  }

  function PackByte(b: byte, w: bv32): bv32 {
    (w << 8) ^ (b as bv32)
  }

  predicate FitsBytes(w: bv32, n: nat) {
    if n == 0 then w == 0 else if n == 1 then w <= 0xFF else if n == 2 then w <= 0xFFFF
    else if n == 3 then w <= 0xFFFFFF else true
  }

  lemma PackFits(w: bv32, b: byte, n: nat)
    requires n < 4 && FitsBytes(w, n)
    ensures FitsBytes(PackByte(b, w), n + 1)
    ensures (w << 8) & 0xFF == 0 && (w << 8) >> 8 == w
    ensures PackByte(b, w) >> 8 == w && PackByte(b, w) & 0xFF == b as bv32
  {
    ShiftFits(w, b, n);
  }

  lemma ShiftFits(w: bv32, b: byte, n: nat)
    requires n < 4 && FitsBytes(w, n)
    ensures FitsBytes((w << 8) ^ (b as bv32), n + 1)
    ensures (w << 8) & 0xFF == 0 && (w << 8) >> 8 == w
    ensures ((w << 8) ^ (b as bv32)) >> 8 == w
    ensures ((w << 8) ^ (b as bv32)) & 0xFF == b as bv32
  {
  }

  lemma PackIsInjective(v: bv32, a: byte, w: bv32, b: byte, n: nat)
    requires n < 4 && FitsBytes(v, n) && FitsBytes(w, n) && PackByte(a, v) == PackByte(b, w)
    ensures a == b && v == w
  {
    PackFits(v, a, n);
    PackFits(w, b, n);
  }

  lemma PackXor(crc: bv32, b: byte, w: bv32)
    ensures Xor(crc, PackByte(b, w)) == Xor(w << 8, Xor(crc, b as bv32))
  {
    XorRotate(crc, w << 8, b as bv32);
  }

  lemma XorRotate(c: bv32, h: bv32, b: bv32)
    ensures c ^ (h ^ b) == h ^ (c ^ b)
  {
  }

  lemma ByteThenWord(step: bv32 -> bv32, feed: (bv32, byte) -> bv32, crc: bv32, b: byte, w: bv32, n: nat)
    requires ByteRegister(step, feed) && n < 4 && FitsBytes(w, n)
    ensures Iter(step, Xor(crc, PackByte(b, w)), 8) == Xor(feed(crc, b), w)
  {
    PackFits(w, b, n);
    PackXor(crc, b, w);
    HalvesStepApart(step, Xor(crc, PackByte(b, w)), w << 8, Xor(crc, b as bv32), w, 8);
    XorSwap(w, feed(crc, b));
  }

  /** The checksum register as a reversible machine over windows of four bytes. */
  function CrcMachine(): Machine<bv32, byte> {
    Machine(Step, Unstep, Xor, 0, FeedByte, PackByte, FitsBytes, 8, 4)
  }

  lemma CrcMachineIsSound()
    ensures CrcMachine().Sound()
  {
    forall x ensures Unstep(Step(x)) == x { StepIsReversible(x); }
    forall x, y, p {:trigger Xor(x, p), Xor(y, p)} | Xor(x, p) == Xor(y, p) ensures x == y { XorCancel(x, y, p); }
    forall x, y, p {:trigger Xor(p, x), Xor(p, y)} | Xor(p, x) == Xor(p, y) ensures x == y { XorCancel(x, y, p); }
    CrcPacksBytes();
    CrcTakesBytes();
  }

  lemma CrcPacksBytes()
    ensures forall b, w, n: nat {:trigger FitsBytes(w, n), PackByte(b, w)} :: n < 4 && FitsBytes(w, n) ==>
              FitsBytes(PackByte(b, w), n + 1)
    ensures forall a, b, v, w, n: nat {:trigger PackByte(a, v), PackByte(b, w), FitsBytes(v, n), FitsBytes(w, n)} ::
              n < 4 && FitsBytes(v, n) && FitsBytes(w, n) && PackByte(a, v) == PackByte(b, w) ==> a == b && v == w
  {
    forall b, w, n: nat {:trigger FitsBytes(w, n), PackByte(b, w)} | n < 4 && FitsBytes(w, n)
      ensures FitsBytes(PackByte(b, w), n + 1)
    {
      PackFits(w, b, n);
    }
    forall a, b, v, w, n: nat {:trigger PackByte(a, v), PackByte(b, w), FitsBytes(v, n), FitsBytes(w, n)}
      | n < 4 && FitsBytes(v, n) && FitsBytes(w, n) && PackByte(a, v) == PackByte(b, w)
      ensures a == b && v == w
    {
      PackIsInjective(v, a, w, b, n);
    }
  }

  lemma CrcTakesBytes()
    ensures forall c, b, w, n: nat {:trigger FitsBytes(w, n), Xor(c, PackByte(b, w))} :: n < 4 && FitsBytes(w, n) ==>
              Iter(Step, Xor(c, PackByte(b, w)), 8) == Xor(FeedByte(c, b), w)
  {
    StepIsByteRegister();
    forall c, b, w, n: nat {:trigger FitsBytes(w, n), Xor(c, PackByte(b, w))} | n < 4 && FitsBytes(w, n)
      ensures Iter(Step, Xor(c, PackByte(b, w)), 8) == Xor(FeedByte(c, b), w)
    {
      ByteThenWord(Step, FeedByte, c, b, w, n);
    }
  }

  /** Damage confined to four consecutive bytes always changes the checksum. */
  lemma BurstsAreDetected(before: seq<byte>, x: seq<byte>, y: seq<byte>, after: seq<byte>)
    requires |x| == |y| <= 4
    ensures SerialCrc(before + x + after) == SerialCrc(before + y + after) <==> x == y
  {
    if SerialCrc(before + x + after) == SerialCrc(before + y + after) {
      XorCancel(Fold(FeedByte, ONES, before + x + after), Fold(FeedByte, ONES, before + y + after), ONES);
      CrcMachineIsSound();
      WindowIsVisible(CrcMachine(), ONES, before, x, y, after);
    }
  }

  // ---------- the polynomial ----------

  /** The bytes of a checksum, low byte first. */
  function BytesOf(w: bv32): seq<byte> {
    [(w & 0xFF) as byte, ((w >> 8) & 0xFF) as byte, ((w >> 16) & 0xFF) as byte, (w >> 24) as byte]
  }

  lemma PackedBytes(w: bv32)
    ensures Packed(PackByte, 0, BytesOf(w)) == w
  {
    var b := BytesOf(w);
    PackedFour(b[0], b[1], b[2], b[3]);
    FourBytes(w);
  }

  lemma PackedCons(b: byte, rest: seq<byte>)
    ensures Packed(PackByte, 0, [b] + rest) == PackByte(b, Packed(PackByte, 0, rest))
  {
    assert ([b] + rest)[1..] == rest;
  }

  lemma PackedFour(b0: byte, b1: byte, b2: byte, b3: byte)
    ensures Packed(PackByte, 0, [b0, b1, b2, b3]) == PackByte(b0, PackByte(b1, PackByte(b2, PackByte(b3, 0))))
  {
    PackedCons(b0, [b1, b2, b3]);
    PackedCons(b1, [b2, b3]);
    PackedCons(b2, [b3]);
    PackedCons(b3, []);
    assert [b0] + [b1, b2, b3] == [b0, b1, b2, b3] && [b1] + [b2, b3] == [b1, b2, b3];
    assert [b2] + [b3] == [b2, b3] && [b3] + [] == [b3];
  }

  lemma FourBytes(w: bv32)
    ensures PackByte((w & 0xFF) as byte, PackByte(((w >> 8) & 0xFF) as byte,
              PackByte(((w >> 16) & 0xFF) as byte, PackByte((w >> 24) as byte, 0)))) == w
  {
  }

  /** Eight steps at a time from the all-ones register. */
  lemma OnesRunOut()
    ensures Iter(Step, ONES, 32) == 0xDEBB20E3
  {
    IterEight(Step, 0xFFFFFFFF);
    assert Iter(Step, 0xFFFFFFFF, 8) == 0x2DFD1072;
    IterEight(Step, 0x2DFD1072);
    assert Iter(Step, 0x2DFD1072, 8) == 0xBE26ED00;
    IterEight(Step, 0xBE26ED00);
    assert Iter(Step, 0xBE26ED00, 8) == 0x00BE26ED;
    IterEight(Step, 0x00BE26ED);
    assert Iter(Step, 0x00BE26ED, 8) == 0xDEBB20E3;
    IterCompose(Step, ONES, 8, 24);
    IterCompose(Step, 0x2DFD1072, 8, 16);
    IterCompose(Step, 0xBE26ED00, 8, 8);
  }

  /** Any text followed by its own checksum, low byte first, has the checksum 0x2144DF1C. */
  lemma ChecksumOfChecksummed(s: seq<byte>)
    ensures SerialCrc(s + BytesOf(SerialCrc(s))) == 0x2144DF1C
  {
    var r, b := Fold(FeedByte, ONES, s), BytesOf(SerialCrc(s));
    FoldConcat(FeedByte, ONES, s, b);
    CrcMachineIsSound();
    FeedWindow(CrcMachine(), r, b);
    PackedBytes(SerialCrc(s));
    RegisterCancels(r);
    OnesRunOut();
  }

  lemma RegisterCancels(r: bv32)
    ensures Xor(r, r ^ ONES) == ONES && 0xDEBB20E3 ^ ONES == 0x2144DF1C
  {
  }

  lemma ByteTaken(c: bv32, b: byte, next: bv32)
    requires Step(Step(Step(Step(Step(Step(Step(Step(Xor(c, b as bv32))))))))) == next
    ensures FeedByte(c, b) == next
  {
    FeedByteIsSteps(c, b);
    IterEight(Step, Xor(c, b as bv32));
  }

  lemma FirstDigits(rest: seq<byte>)
    ensures Fold(FeedByte, 0xFFFFFFFF, [0x31, 0x32, 0x33] + rest)
            == Fold(FeedByte, 0x77B79C2D, rest)
  {
    ByteTaken(0xFFFFFFFF, 0x31, 0x7C231048);
    ByteTaken(0x7C231048, 0x32, 0xB0ACBB32);
    ByteTaken(0xB0ACBB32, 0x33, 0x77B79C2D);
    FoldThree(FeedByte, 0xFFFFFFFF, 0x31, 0x32, 0x33, rest);
  }

  lemma MiddleDigits(rest: seq<byte>)
    ensures Fold(FeedByte, 0x77B79C2D, [0x34, 0x35, 0x36] + rest)
            == Fold(FeedByte, 0xF68D2C9E, rest)
  {
    ByteTaken(0x77B79C2D, 0x34, 0x641C1F5C);
    ByteTaken(0x641C1F5C, 0x35, 0x340AC5E3);
    ByteTaken(0x340AC5E3, 0x36, 0xF68D2C9E);
    FoldThree(FeedByte, 0x77B79C2D, 0x34, 0x35, 0x36, rest);
  }

  lemma LastDigits(rest: seq<byte>)
    ensures Fold(FeedByte, 0xF68D2C9E, [0x37, 0x38, 0x39] + rest)
            == Fold(FeedByte, 0x340BC6D9, rest)
  {
    ByteTaken(0xF68D2C9E, 0x37, 0xAFFC9660);
    ByteTaken(0xAFFC9660, 0x38, 0x651F2550);
    ByteTaken(0x651F2550, 0x39, 0x340BC6D9);
    FoldThree(FeedByte, 0xF68D2C9E, 0x37, 0x38, 0x39, rest);
  }

  /** The check value of the code: the checksum of the digits 1 to 9; the empty text has the checksum 0. */
  lemma CheckValue()
    ensures SerialCrc([0x31, 0x32, 0x33, 0x34, 0x35, 0x36, 0x37, 0x38, 0x39]) == 0xCBF43926
    ensures SerialCrc([]) == 0
  {
    var all: seq<byte> := [0x31, 0x32, 0x33, 0x34, 0x35, 0x36, 0x37, 0x38, 0x39];
    assert all[..3] == [0x31, 0x32, 0x33] && all[3..][..3] == [0x34, 0x35, 0x36] && all[6..] == [0x37, 0x38, 0x39];
    assert all == all[..3] + all[3..] && all[3..] == all[3..][..3] + all[6..] && all[6..] == all[6..] + [];
    FirstDigits(all[3..]);
    MiddleDigits(all[6..]);
    LastDigits([]);
  }
}
