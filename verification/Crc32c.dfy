/** CRC-32C (section 12.1 of RFC 3720), a byte at a time through a table, against
    the definition that takes one message bit at a time. */
module Crc32c {

  const POLY_REFLECTED: bv32 := 0x82F6_3B78
  const SEED: bv32 := 0xFFFF_FFFF

  // ---- Words ----

  function Half(b: bv32): bv32 { b >> 1 }
  function Low(b: bv32): bv32 { b & 1 }
  function Xor(a: bv32, b: bv32): bv32 { a ^ b }

  // ---- The definition ----

  /** Fold the polynomial in when the bit that fell out was set. */
  function Feed(low: bv32, half: bv32): bv32 {
    if low == 1 then Xor(half, POLY_REFLECTED) else half
  }

  /** Take one message bit into the register. */
  function TakeBit(crc: bv32, bit: bv32): bv32 {
    Feed(Low(Xor(crc, bit)), Half(crc))
  }

  /** Take the low `n` bits of `b`, least significant first. */
  function TakeBits(crc: bv32, b: bv32, n: nat): bv32
    decreases n
  {
    if n == 0 then crc else TakeBits(TakeBit(crc, Low(b)), Half(b), n - 1)
  }

  function TakeByte(crc: bv32, b: bv8): bv32 {
    TakeBits(crc, b as bv32, 8)
  }

  function TakeAll(crc: bv32, bytes: seq<bv8>): bv32 {
    if bytes == [] then crc else TakeByte(TakeAll(crc, bytes[..|bytes| - 1]), bytes[|bytes| - 1])
  }

  /** The checksum of a message, by definition. */
  function Checksum(bytes: seq<bv8>): bv32 {
    TakeAll(SEED, bytes) ^ 0xFFFF_FFFF
  }

  // ---- Register steps ----

  function Shift(c: bv32): bv32 {
    Feed(Low(c), Half(c))
  }

  function Shifts(c: bv32, n: nat): bv32
    decreases n
  {
    if n == 0 then c else Shifts(Shift(c), n - 1)
  }

  function Drop(b: bv32, n: nat): bv32
    decreases n
  {
    if n == 0 then b else Drop(Half(b), n - 1)
  }

  lemma LowOfXor(crc: bv32, b: bv32)
    ensures Low(Xor(crc, b)) == Low(Xor(crc, Low(b)))
  {
  }

  lemma HalfOfXor(crc: bv32, b: bv32)
    ensures Half(Xor(crc, b)) == Xor(Half(crc), Half(b))
  {
  }

  lemma XorRegroups(a: bv32, b: bv32)
    ensures Xor(Xor(a, b), POLY_REFLECTED) == Xor(Xor(a, POLY_REFLECTED), b)
  {
  }

  /** One step of register and message together is one bit taken, the rest of the
      message moved along. */
  lemma ShiftTakesBit(crc: bv32, b: bv32)
    ensures Shift(Xor(crc, b)) == Xor(TakeBit(crc, Low(b)), Half(b))
  {
    hide Xor, Low, Half;
    LowOfXor(crc, b);
    HalfOfXor(crc, b);
    XorRegroups(Half(crc), Half(b));
  }

  lemma {:induction false} ShiftsTakeBits(crc: bv32, b: bv32, n: nat)
    ensures Shifts(Xor(crc, b), n) == Xor(TakeBits(crc, b, n), Drop(b, n))
    decreases n
  {
    hide Shift, TakeBit, Xor, Half, Low;
    if n > 0 {
      ShiftTakesBit(crc, b);
      ShiftsTakeBits(TakeBit(crc, Low(b)), Half(b), n - 1);
    }
  }

  ghost predicate LowBitsClear(b: bv32, n: nat)
    decreases n
  {
    n > 0 ==> Low(b) == 0 && LowBitsClear(Half(b), n - 1)
  }

  lemma ZeroBit(c: bv32)
    ensures TakeBit(c, 0) == Shift(c)
  {
    assert Xor(c, 0) == c;
    hide Xor, Low, Half;
  }

  /** Taking clear bits only steps the register. */
  lemma {:induction false} ClearBitsShift(c: bv32, b: bv32, n: nat)
    requires LowBitsClear(b, n)
    ensures TakeBits(c, b, n) == Shifts(c, n)
    decreases n
  {
    hide Shift, TakeBit, Half, Low;
    if n > 0 {
      ZeroBit(c);
      ClearBitsShift(Shift(c), Half(b), n - 1);
    }
  }

  lemma EightHalves(b: bv32)
    ensures Half(Half(Half(Half(Half(Half(Half(Half(b)))))))) == b >> 8
  {
  }

  lemma DropByte(b: bv32)
    ensures Drop(b, 8) == b >> 8
  {
    assert Drop(b, 8) == Half(Half(Half(Half(Half(Half(Half(Half(b)))))))) by {
      hide Half;
      assert Drop(b, 8) == Drop(Half(Half(Half(Half(b)))), 4);
    }
    hide Half, Drop;
    EightHalves(b);
  }

  lemma MaskedBits(h: bv32)
    requires h & 0xFF == 0
    ensures Low(h) == 0 && Low(Half(h)) == 0 && Low(Half(Half(h))) == 0 && Low(Half(Half(Half(h)))) == 0
    ensures Low(Half(Half(Half(Half(h))))) == 0 && Low(Half(Half(Half(Half(Half(h)))))) == 0
    ensures Low(Half(Half(Half(Half(Half(Half(h))))))) == 0 && Low(Half(Half(Half(Half(Half(Half(Half(h)))))))) == 0
  {
  }

  /** The low byte of a masked value is clear. */
  lemma ClearByte(h: bv32)
    requires h & 0xFF == 0
    ensures LowBitsClear(h, 8)
  {
    MaskedBits(h);
    hide Half, Low;
    var h4 := Half(Half(Half(Half(h))));
    assert LowBitsClear(h4, 4);
  }

  lemma Parts(x: bv32)
    ensures Xor(x & 0xFF, x & 0xFFFF_FF00) == x
    ensures (x & 0xFFFF_FF00) >> 8 == x >> 8 && (x & 0xFFFF_FF00) & 0xFF == 0
  {
  }

  lemma XorSwap(a: bv32, b: bv32)
    ensures Xor(a, b) == Xor(b, a)
  {
  }

  /** Eight steps split into the byte that is looked up and the rest, moved along. */
  lemma EightShifts(x: bv32)
    ensures Shifts(x, 8) == Xor(x >> 8, Shifts(x & 0xFF, 8))
  {
    Parts(x);
    var low, high := x & 0xFF, x & 0xFFFF_FF00;
    SplitShifts(x, low, high, x >> 8);
  }

  lemma SplitShifts(x: bv32, low: bv32, high: bv32, rest: bv32)
    requires Xor(low, high) == x && high & 0xFF == 0 && high >> 8 == rest
    ensures Shifts(x, 8) == Xor(rest, Shifts(low, 8))
  {
    hide Shifts, TakeBits, Drop, LowBitsClear, Xor;
    ClearByte(high);
    ShiftsTakeBits(low, high, 8);
    ClearBitsShift(low, high, 8);
    DropByte(high);
    XorSwap(Shifts(low, 8), rest);
  }

  lemma ByteBits(crc: bv32, b: bv8)
    ensures (b as bv32) >> 8 == 0 && Xor(crc, 0) == crc
    ensures Xor(crc, b as bv32) >> 8 == crc >> 8
  {
  }

  /** A byte taken bit by bit is eight steps of register and byte. */
  lemma ByteIsEightShifts(crc: bv32, b: bv8)
    ensures TakeByte(crc, b) == Shifts(Xor(crc, b as bv32), 8)
  {
    hide Shifts, TakeBits, Drop, Xor;
    ShiftsTakeBits(crc, b as bv32, 8);
    DropByte(b as bv32);
    ByteBits(TakeByte(crc, b), b);
  }

  /** One byte through the table is one byte bit by bit. */
  lemma LookupIsByte(crc: bv32, b: bv8)
    ensures TakeByte(crc, b) == Xor(crc >> 8, Shifts(Xor(crc, b as bv32) & 0xFF, 8))
  {
    hide Shifts, Xor, TakeByte;
    ByteIsEightShifts(crc, b);
    EightShifts(Xor(crc, b as bv32));
    ByteBits(crc, b);
  }

  // ---- The table-driven form ----

  function Entry(i: bv8): bv32 {
    Shifts(i as bv32, 8)
  }

  ghost predicate IsTable(table: seq<bv32>) {
    |table| == 256 && forall i | 0 <= i < 256 :: table[i] == Entry(i as bv8)
  }

  /** Each entry is its index stepped eight times. */
  method BuildTable() returns (table: seq<bv32>)
    ensures IsTable(table)
  {
    hide Entry;
    table := [];
    for i := 0 to 256
      invariant |table| == i && forall j | 0 <= j < i :: table[j] == Entry(j as bv8)
    {
      var c := TableRow(i as bv8);
      table := table + [c];
    }
  }

  method TableRow(i: bv8) returns (c: bv32)
    ensures c == Entry(i)
  {
    hide Shift;
    c := i as bv32;
    for bit := 0 to 8
      invariant Shifts(c, 8 - bit) == Entry(i)
    {
      c := Shift(c);
    }
  }

  lemma ByteIndex(b: bv8)
    ensures 0 <= b as int < 256 && (b as int) as bv8 == b
  {
  }

  lemma LowByte(x: bv32, at: bv8)
    requires at == (x & 0xFF) as bv8
    ensures at as bv32 == x & 0xFF
  {
  }

  lemma Row(table: seq<bv32>, x: bv32, at: bv8)
    requires IsTable(table) && at == (x & 0xFF) as bv8
    ensures 0 <= at as int < 256 && table[at as int] == Shifts(x & 0xFF, 8)
  {
    hide Shifts;
    ByteIndex(at);
    LowByte(x, at);
  }

  /** One byte through the table. */
  method Lookup(table: seq<bv32>, crc: bv32, b: bv8) returns (next: bv32)
    requires IsTable(table)
    ensures next == TakeByte(crc, b)
  {
    hide IsTable, Shifts, TakeByte;
    var x := Xor(crc, b as bv32);
    var at := (x & 0xFF) as bv8;
    Row(table, x, at);
    LookupIsByte(crc, b);
    assert |table| == 256 by { TableSize(table); }
    next := Xor(crc >> 8, table[at as int]);
  }

  lemma TableSize(table: seq<bv32>)
    requires IsTable(table)
    ensures |table| == 256
  {
  }

  /** Fold bytes into a running state. */
  method Update(table: seq<bv32>, state: bv32, bytes: seq<bv8>) returns (crc: bv32)
    requires IsTable(table)
    ensures crc == TakeAll(state, bytes)
  {
    hide IsTable, TakeByte;
    crc := state;
    assert bytes[..0] == [];
    for k := 0 to |bytes|
      invariant crc == TakeAll(state, bytes[..k])
    {
      assert bytes[..k + 1][..k] == bytes[..k];
      crc := Lookup(table, crc, bytes[k]);
    }
    assert bytes[..|bytes|] == bytes;
  }

  method Compute(table: seq<bv32>, bytes: seq<bv8>) returns (crc: bv32)
    requires IsTable(table)
    ensures crc == Checksum(bytes)
  {
    var state := Update(table, SEED, bytes);
    crc := state ^ 0xFFFF_FFFF;
  }

  /** The seed and the final complement cancel over no message. */
  lemma EmptyChecksum()
    ensures Checksum([]) == 0 && BitsOf(SEED, 1) == [true]
  {
    assert SEED ^ 0xFFFF_FFFF == 0;
  }

  /** Feeding a message in two parts is feeding it whole. */
  lemma {:induction false} Streams(state: bv32, a: seq<bv8>, b: seq<bv8>)
    ensures TakeAll(TakeAll(state, a), b) == TakeAll(state, a + b)
  {
    hide TakeByte;
    if b == [] {
      assert a + b == a;
    } else {
      Streams(state, a, b[..|b| - 1]);
      assert (a + b)[..|a + b| - 1] == a + b[..|b| - 1];
    }
  }

  // ---- The polynomial ----

  /** The powers of the generator of section 12.1 of RFC 3720, 0x11EDC6F41, below its
      leading `x^32`. */
  const GENERATOR: set<nat> := {28, 27, 26, 25, 23, 22, 20, 19, 18, 14, 13, 11, 10, 9, 8, 6, 0}

  /** The low `n` bits of a word, least significant first. */
  function BitsOf(w: bv32, n: nat): (bits: seq<bool>)
    ensures |bits| == n
    decreases n
  {
    if n == 0 then [] else [Low(w) == 1] + BitsOf(Half(w), n - 1)
  }

  /** One step of the division by the generator. `rest[i]` is the coefficient of
      `x^(31 - i)`: the term that leaves at the top, with the message's, decides
      whether the generator is taken off. */
  function DivideStep(rest: seq<bool>, bit: bool): (next: seq<bool>)
    requires |rest| == 32
    ensures |next| == 32
  {
    var up := rest[1..] + [false];
    if rest[0] != bit then TakeOff(up) else up
  }

  /** Subtract the generator: over bits, differ from it. */
  function TakeOff(rest: seq<bool>): (next: seq<bool>)
    requires |rest| == 32
    ensures |next| == 32
  {
    seq(32, i requires 0 <= i < 32 => rest[i] != ((31 - i) in GENERATOR))
  }

  /** Divide on, one message term after another. */
  function Divide(rest: seq<bool>, message: seq<bool>): (next: seq<bool>)
    requires |rest| == 32
    ensures |next| == 32
  {
    if message == [] then rest
    else DivideStep(Divide(rest, message[..|message| - 1]), message[|message| - 1])
  }

  /** A message's bits in the order they are sent. */
  function MessageBits(bytes: seq<bv8>): seq<bool> {
    if bytes == [] then [] else MessageBits(bytes[..|bytes| - 1]) + BitsOf(bytes[|bytes| - 1] as bv32, 8)
  }

  lemma {:induction false} NextBit(w: bv32, n: nat)
    ensures BitsOf(w, n + 1) == BitsOf(w, n) + [Low(Drop(w, n)) == 1]
    decreases n
  {
    hide Low, Half;
    if n > 0 {
      NextBit(Half(w), n - 1);
    }
  }

  lemma {:induction false} DropMore(w: bv32, m: nat, n: nat)
    ensures Drop(w, m + n) == Drop(Drop(w, m), n)
    decreases m
  {
    hide Half;
    if m > 0 {
      DropMore(Half(w), m - 1, n);
    }
  }

  /** Nothing is left of a word after 32 bits. */
  lemma DropWord(w: bv32)
    ensures Drop(w, 32) == 0
  {
    var a := Drop(w, 8);
    var b := Drop(a, 8);
    var c := Drop(b, 8);
    DropMore(w, 8, 24);
    DropMore(a, 8, 16);
    DropMore(b, 8, 8);
    DropByte(w);
    DropByte(a);
    DropByte(b);
    DropByte(c);
    hide Drop;
    assert (((w >> 8) >> 8) >> 8) >> 8 == 0;
  }

  lemma HalfBits(w: bv32)
    ensures BitsOf(Half(w), 32) == BitsOf(w, 32)[1..] + [false]
  {
    NextBit(w, 32);
    DropWord(w);
    assert Low(0) == 0;
    hide BitsOf, Low, Half, Drop;
    OneBit(w, 32);
    assert BitsOf(Half(w), 32) == BitsOf(w, 33)[1..];
  }

  lemma LowDiffers(a: bv32, b: bv32)
    ensures (Low(Xor(a, b)) == 1) <==> ((Low(a) == 1) != (Low(b) == 1))
  {
  }

  lemma {:induction false} XorBits(a: bv32, b: bv32, n: nat)
    ensures forall i | 0 <= i < n :: BitsOf(Xor(a, b), n)[i] == (BitsOf(a, n)[i] != BitsOf(b, n)[i])
    decreases n
  {
    hide Low, Half, Xor;
    if n > 0 {
      LowDiffers(a, b);
      HalfOfXor(a, b);
      XorBits(Half(a), Half(b), n - 1);
    }
  }

  lemma OneBit(w: bv32, n: nat)
    ensures BitsOf(w, n + 1) == [Low(w) == 1] + BitsOf(Half(w), n)
  {
    hide Low, Half;
  }

  lemma FourBits(w: bv32, n: nat)
    ensures BitsOf(w, n + 4) == [Low(w) == 1, Low(Half(w)) == 1, Low(Half(Half(w))) == 1, Low(Half(Half(Half(w)))) == 1]
                                + BitsOf(Half(Half(Half(Half(w)))), n)
  {
    hide Low, Half, BitsOf;
    OneBit(w, n + 3);
    OneBit(Half(w), n + 2);
    OneBit(Half(Half(w)), n + 1);
    OneBit(Half(Half(Half(w))), n);
  }

  lemma PolyByte0(n: nat)
    ensures BitsOf(0x82F6_3B78, n + 8) == [false, false, false, true, true, true, true, false] + BitsOf(0x0082_F63B, n)
  {
    FourBits(0x82F6_3B78, n + 4);
    FourBits(0x082F_63B7, n);
    assert Half(0x82F6_3B78) == 0x417B_1DBC && Half(0x417B_1DBC) == 0x20BD_8EDE && Half(0x20BD_8EDE) == 0x105E_C76F && Half(0x105E_C76F) == 0x082F_63B7;
    assert Half(0x082F_63B7) == 0x0417_B1DB && Half(0x0417_B1DB) == 0x020B_D8ED && Half(0x020B_D8ED) == 0x0105_EC76 && Half(0x0105_EC76) == 0x0082_F63B;
    assert Low(0x82F6_3B78) == 0 && Low(0x417B_1DBC) == 0 && Low(0x20BD_8EDE) == 0 && Low(0x105E_C76F) == 1;
    assert Low(0x082F_63B7) == 1 && Low(0x0417_B1DB) == 1 && Low(0x020B_D8ED) == 1 && Low(0x0105_EC76) == 0;
    hide Low, Half, BitsOf;
  }

  lemma PolyByte1(n: nat)
    ensures BitsOf(0x0082_F63B, n + 8) == [true, true, false, true, true, true, false, false] + BitsOf(0x0000_82F6, n)
  {
    FourBits(0x0082_F63B, n + 4);
    FourBits(0x0008_2F63, n);
    assert Half(0x0082_F63B) == 0x0041_7B1D && Half(0x0041_7B1D) == 0x0020_BD8E && Half(0x0020_BD8E) == 0x0010_5EC7 && Half(0x0010_5EC7) == 0x0008_2F63;
    assert Half(0x0008_2F63) == 0x0004_17B1 && Half(0x0004_17B1) == 0x0002_0BD8 && Half(0x0002_0BD8) == 0x0001_05EC && Half(0x0001_05EC) == 0x0000_82F6;
    assert Low(0x0082_F63B) == 1 && Low(0x0041_7B1D) == 1 && Low(0x0020_BD8E) == 0 && Low(0x0010_5EC7) == 1;
    assert Low(0x0008_2F63) == 1 && Low(0x0004_17B1) == 1 && Low(0x0002_0BD8) == 0 && Low(0x0001_05EC) == 0;
    hide Low, Half, BitsOf;
  }

  lemma PolyByte2(n: nat)
    ensures BitsOf(0x0000_82F6, n + 8) == [false, true, true, false, true, true, true, true] + BitsOf(0x0000_0082, n)
  {
    FourBits(0x0000_82F6, n + 4);
    FourBits(0x0000_082F, n);
    assert Half(0x0000_82F6) == 0x0000_417B && Half(0x0000_417B) == 0x0000_20BD && Half(0x0000_20BD) == 0x0000_105E && Half(0x0000_105E) == 0x0000_082F;
    assert Half(0x0000_082F) == 0x0000_0417 && Half(0x0000_0417) == 0x0000_020B && Half(0x0000_020B) == 0x0000_0105 && Half(0x0000_0105) == 0x0000_0082;
    assert Low(0x0000_82F6) == 0 && Low(0x0000_417B) == 1 && Low(0x0000_20BD) == 1 && Low(0x0000_105E) == 0;
    assert Low(0x0000_082F) == 1 && Low(0x0000_0417) == 1 && Low(0x0000_020B) == 1 && Low(0x0000_0105) == 1;
    hide Low, Half, BitsOf;
  }

  lemma PolyByte3(n: nat)
    ensures BitsOf(0x0000_0082, n + 8) == [false, true, false, false, false, false, false, true] + BitsOf(0x0000_0000, n)
  {
    FourBits(0x0000_0082, n + 4);
    FourBits(0x0000_0008, n);
    assert Half(0x0000_0082) == 0x0000_0041 && Half(0x0000_0041) == 0x0000_0020 && Half(0x0000_0020) == 0x0000_0010 && Half(0x0000_0010) == 0x0000_0008;
    assert Half(0x0000_0008) == 0x0000_0004 && Half(0x0000_0004) == 0x0000_0002 && Half(0x0000_0002) == 0x0000_0001 && Half(0x0000_0001) == 0x0000_0000;
    assert Low(0x0000_0082) == 0 && Low(0x0000_0041) == 1 && Low(0x0000_0020) == 0 && Low(0x0000_0010) == 0;
    assert Low(0x0000_0008) == 0 && Low(0x0000_0004) == 0 && Low(0x0000_0002) == 0 && Low(0x0000_0001) == 1;
    hide Low, Half, BitsOf;
  }

  const POLY_BITS: seq<bool> := [false, false, false, true, true, true, true, false,
                                 true, true, false, true, true, true, false, false,
                                 false, true, true, false, true, true, true, true,
                                 false, true, false, false, false, false, false, true]

  lemma PolyBits()
    ensures BitsOf(POLY_REFLECTED, 32) == POLY_BITS
  {
    hide Low, Half, BitsOf;
    PolyByte0(24);
    PolyByte1(16);
    PolyByte2(8);
    PolyByte3(0);
    assert |BitsOf(0, 0)| == 0;
  }

  /** The reflected constant is the generator, highest power at the lowest bit. */
  lemma PolyIsGenerator(i: nat)
    requires i < 32
    ensures BitsOf(POLY_REFLECTED, 32)[i] <==> (31 - i) in GENERATOR
  {
    hide BitsOf;
    PolyBits();
  }

  lemma PolyTakenOff(w: bv32)
    ensures BitsOf(Xor(w, POLY_REFLECTED), 32) == TakeOff(BitsOf(w, 32))
  {
    hide Xor, BitsOf;
    XorBits(w, POLY_REFLECTED, 32);
    forall i: nat | i < 32 ensures BitsOf(Xor(w, POLY_REFLECTED), 32)[i] == TakeOff(BitsOf(w, 32))[i] {
      PolyIsGenerator(i);
    }
  }

  lemma LowIsBit(b: bv32)
    ensures Low(b) == 0 || Low(b) == 1
  {
  }

  lemma BitLow(bit: bv32)
    requires bit == 0 || bit == 1
    ensures Low(bit) == bit
  {
  }

  /** A step of the register is a step of the division. */
  lemma StepDivides(crc: bv32, bit: bv32)
    requires bit == 0 || bit == 1
    ensures BitsOf(TakeBit(crc, bit), 32) == DivideStep(BitsOf(crc, 32), bit == 1)
  {
    hide Low, Half, Xor, BitsOf, TakeOff;
    HalfBits(crc);
    LowDiffers(crc, bit);
    LowIsBit(Xor(crc, bit));
    BitLow(bit);
    OneBit(crc, 31);
    PolyTakenOff(Half(crc));
  }

  lemma {:induction false} BitsDivide(crc: bv32, b: bv32, n: nat)
    ensures BitsOf(TakeBits(crc, b, n), 32) == Divide(BitsOf(crc, 32), BitsOf(b, n))
    decreases n
  {
    hide TakeBit, DivideStep, Half, Low;
    if n > 0 {
      LowIsBit(b);
      StepDivides(crc, Low(b));
      BitsDivide(TakeBit(crc, Low(b)), Half(b), n - 1);
      DivideFirst(BitsOf(crc, 32), Low(b) == 1, BitsOf(Half(b), n - 1));
    }
  }

  lemma {:induction false} DivideFirst(rest: seq<bool>, bit: bool, message: seq<bool>)
    requires |rest| == 32
    ensures Divide(rest, [bit] + message) == Divide(DivideStep(rest, bit), message)
  {
    hide DivideStep;
    var all := [bit] + message;
    if message == [] {
      assert all[..0] == [] && all[0] == bit;
    } else {
      var init := message[..|message| - 1];
      DivideFirst(rest, bit, init);
      assert all[..|all| - 1] == [bit] + init && all[|all| - 1] == message[|message| - 1];
    }
  }

  lemma {:induction false} DivideOn(rest: seq<bool>, a: seq<bool>, b: seq<bool>)
    requires |rest| == 32
    ensures Divide(rest, a + b) == Divide(Divide(rest, a), b)
  {
    hide DivideStep;
    if b == [] {
      assert a + b == a;
    } else {
      var init := b[..|b| - 1];
      DivideOn(rest, a, init);
      assert (a + b)[..|a + b| - 1] == a + init && (a + b)[|a + b| - 1] == b[|b| - 1];
    }
  }

  /** Over every message the register holds the remainder of its division by the
      generator. */
  lemma {:induction false} RegisterIsRemainder(crc: bv32, bytes: seq<bv8>)
    ensures BitsOf(TakeAll(crc, bytes), 32) == Divide(BitsOf(crc, 32), MessageBits(bytes))
  {
    hide BitsOf, TakeBits, Divide;
    if bytes == [] {
      NothingDivided(BitsOf(crc, 32));
    } else {
      var init, last := bytes[..|bytes| - 1], bytes[|bytes| - 1] as bv32;
      RegisterIsRemainder(crc, init);
      BitsDivide(TakeAll(crc, init), last, 8);
      DivideOn(BitsOf(crc, 32), MessageBits(init), BitsOf(last, 8));
    }
  }

  lemma NothingDivided(rest: seq<bool>)
    requires |rest| == 32
    ensures Divide(rest, []) == rest
  {
  }
}
