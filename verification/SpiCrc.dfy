/** The checksum of SPI transfers: a table loop over a register that is kept byte-swapped. */
module SpiCrc {
  import opened Bytes
  import opened CrcBits
  import opened SpiCrcTable

  function Widen(v: bv8): bv16 {
    v as bv16
  }

  function EnterHigh(r: bv16, v: bv8): bv16 {
    r ^ (Widen(v) << 8)
  }

  function AddByte(r: bv16, b: byte): bv16 {
    Shifts(EnterHigh(r, Octet(b)), 8)
  }

  function Register(r: bv16, msg: seq<byte>): bv16
    decreases |msg|
  {
    if |msg| == 0 then r else Register(AddByte(r, msg[0]), msg[1..])
  }

  /** The checksum of a message from a start value, both as the code keeps them. */
  function Crc(init: bv16, msg: seq<byte>): bv16 {
    Swap(Register(Swap(init), msg))
  }

  // ----- the register, mirrored, is the shift register of CrcBits -----

  function TestBit(r: bv16, mask: bv16): bool {
    r & mask != 0
  }

  /** The register with its most significant bit at the low end, where message bits enter. */
  function Mirror(r: bv16): Reg {
    Reg(TestBit(r, 0x8000), TestBit(r, 0x4000), TestBit(r, 0x2000), TestBit(r, 0x1000),
        TestBit(r, 0x0800), TestBit(r, 0x0400), TestBit(r, 0x0200), TestBit(r, 0x0100),
        TestBit(r, 0x0080), TestBit(r, 0x0040), TestBit(r, 0x0020), TestBit(r, 0x0010),
        TestBit(r, 0x0008), TestBit(r, 0x0004), TestBit(r, 0x0002), TestBit(r, 0x0001))
  }

  lemma MirrorInjective(r: bv16, s: bv16)
    requires Mirror(r) == Mirror(s)
    ensures r == s
  {
  }

  lemma ShiftLeftOut(r: bv16)
    requires r & 0x8000 != 0
    ensures Mirror((r << 1) ^ 0x8005) == Shift(Mirror(r))
  {
  }

  lemma ShiftLeftKeep(r: bv16)
    requires r & 0x8000 == 0
    ensures Mirror(r << 1) == Shift(Mirror(r))
  {
  }

  lemma ShiftLeftBits(r: bv16)
    ensures Mirror(ShiftLeft(r)) == Shift(Mirror(r))
  {
    hide Mirror, Shift;
    if r & 0x8000 != 0 {
      ShiftLeftOut(r);
    } else {
      ShiftLeftKeep(r);
    }
  }

  lemma ShiftsBits(r: bv16)
    ensures Mirror(Shifts(r, 8)) == Shift8(Mirror(r))
  {
    hide Mirror, Shift, ShiftLeft;
    var r1 := ShiftLeft(r); var r2 := ShiftLeft(r1); var r3 := ShiftLeft(r2); var r4 := ShiftLeft(r3);
    var r5 := ShiftLeft(r4); var r6 := ShiftLeft(r5); var r7 := ShiftLeft(r6);
    ShiftLeftBits(r); ShiftLeftBits(r1); ShiftLeftBits(r2); ShiftLeftBits(r3);
    ShiftLeftBits(r4); ShiftLeftBits(r5); ShiftLeftBits(r6); ShiftLeftBits(r7);
    assert Shifts(r, 8) == Shifts(r2, 6) == Shifts(r4, 4) == Shifts(r6, 2) == Shifts(ShiftLeft(r7), 0);
  }

  function XorWords(a: bv16, b: bv16): bv16 {
    a ^ b
  }

  lemma XorTestBit(a: bv16, b: bv16, mask: bv16)
    requires mask & (mask - 1) == 0
    ensures TestBit(XorWords(a, b), mask) == (TestBit(a, mask) != TestBit(b, mask))
  {
    hide XorWords;
    TestBitIsMask(a, mask);
    TestBitIsMask(b, mask);
    XorMasked(a, b, mask);
  }

  lemma TestBitIsMask(a: bv16, mask: bv16)
    requires mask & (mask - 1) == 0
    ensures a & mask == 0 || a & mask == mask
  {
  }

  lemma XorMasked(a: bv16, b: bv16, mask: bv16)
    ensures XorWords(a, b) & mask == (a & mask) ^ (b & mask)
  {
  }

  lemma MirrorXor(a: bv16, b: bv16)
    ensures Mirror(XorWords(a, b)) == XorReg(Mirror(a), Mirror(b))
  {
    hide TestBit, XorWords;
    XorTestBit(a, b, 0x8000); XorTestBit(a, b, 0x4000); XorTestBit(a, b, 0x2000); XorTestBit(a, b, 0x1000);
    XorTestBit(a, b, 0x0800); XorTestBit(a, b, 0x0400); XorTestBit(a, b, 0x0200); XorTestBit(a, b, 0x0100);
    XorTestBit(a, b, 0x0080); XorTestBit(a, b, 0x0040); XorTestBit(a, b, 0x0020); XorTestBit(a, b, 0x0010);
    XorTestBit(a, b, 0x0008); XorTestBit(a, b, 0x0004); XorTestBit(a, b, 0x0002); XorTestBit(a, b, 0x0001);
  }

  lemma MirrorHighByte(v: bv8)
    ensures Mirror(Widen(v) << 8) == TopWaiting(v)
  {
  }

  lemma AddByteBits(r: bv16, b: byte)
    ensures Mirror(AddByte(r, b)) == Feed(Mirror(r), OrderedBits(MsbFirst, b))
  {
    hide Mirror, Shift8, XorReg, Shifts, Feed, XorWords, Octet, OrderedBits, EnterHigh, TopWaiting;
    EnterHighBits(r, Octet(b));
    ShiftsBits(EnterHigh(r, Octet(b)));
    FeedTopFirst(Mirror(r), b);
  }

  /** The bits of a byte, waiting with the top one at the low end. */
  function TopWaiting(v: bv8): Reg {
    Waiting(Bit(v, 128), Bit(v, 64), Bit(v, 32), Bit(v, 16), Bit(v, 8), Bit(v, 4), Bit(v, 2), Bit(v, 1))
  }

  lemma EnterHighBits(r: bv16, v: bv8)
    ensures Mirror(EnterHigh(r, v)) == XorReg(Mirror(r), TopWaiting(v))
  {
    assert EnterHigh(r, v) == XorWords(r, Widen(v) << 8);
    hide Mirror, XorReg, XorWords, EnterHigh, TopWaiting;
    MirrorXor(r, Widen(v) << 8);
    MirrorHighByte(v);
  }

  lemma FeedTopFirst(r: Reg, b: byte)
    ensures Feed(r, OrderedBits(MsbFirst, b)) == Shift8(XorReg(r, TopWaiting(Octet(b))))
  {
    hide Feed, Shift8, XorReg;
    OctetTopFirst(b);
    FeedByte(r, OrderedBits(MsbFirst, b));
    hide Bit, OrderedBits, Octet;
  }

  lemma OctetTopFirst(b: byte)
    ensures var v := Octet(b);
            OrderedBits(MsbFirst, b)
            == [Bit(v, 128), Bit(v, 64), Bit(v, 32), Bit(v, 16), Bit(v, 8), Bit(v, 4), Bit(v, 2), Bit(v, 1)]
  {
    assert Unpack8(Octet(b)) == ByteBits(b);
    hide Octet, Bit, ByteBits;
  }

  /** The byte-wise register is the bit string of the message, each byte from its top bit, fed into the
      shift register. */
  lemma {:induction false} RegisterBits(r: bv16, msg: seq<byte>)
    ensures Mirror(Register(r, msg)) == Feed(Mirror(r), MessageBits(MsbFirst, msg))
    decreases |msg|
  {
    hide Mirror, AddByte, OrderedBits, Step;
    if msg == [] {
    } else {
      AddByteBits(r, msg[0]);
      RegisterBits(AddByte(r, msg[0]), msg[1..]);
      FeedConcat(Mirror(r), OrderedBits(MsbFirst, msg[0]), MessageBits(MsbFirst, msg[1..]));
    }
  }

  lemma {:induction false} RegisterConcat(r: bv16, a: seq<byte>, b: seq<byte>)
    ensures Register(r, a + b) == Register(Register(r, a), b)
    decreases |a|
  {
    hide AddByte;
    if a == [] {
      assert a + b == b;
    } else {
      assert (a + b)[1..] == a[1..] + b;
      RegisterConcat(AddByte(r, a[0]), a[1..], b);
    }
  }

  // ----- the table loop -----

  lemma SwapTwice(r: bv16)
    ensures Swap(Swap(r)) == r
  {
  }

  lemma SwapXor(a: bv16, b: bv16)
    ensures Swap(XorWords(a, b)) == XorWords(Swap(a), Swap(b))
  {
  }

  function Down(s: bv16): bv16 {
    s >> 8
  }

  function HighPart(x: bv16): bv16 {
    x & 0xFF00
  }

  /** The table index: the low byte of the swapped register, XORed with the message byte. */
  function TableIndexOf(s: bv16, b: byte): (i: bv16)
    ensures i < 256
  {
    XorWords(s, Widen(Octet(b))) & 0xFF
  }

  lemma IndexBits(r: bv16, b: byte)
    ensures Up(TableIndexOf(Swap(r), b)) == HighPart(EnterHigh(r, Octet(b)))
    ensures Swap(Down(Swap(r))) == Up(EnterHigh(r, Octet(b)))
  {
    hide Octet;
  }

  lemma MirrorHalves(x: bv16)
    ensures Mirror(HighPart(x)) == LowHalf(Mirror(x)) && Mirror(Up(x)) == Down8(Mirror(x))
  {
  }

  /** Eight shifts act on the high byte; the low byte just moves up. */
  lemma ShiftsHalves(x: bv16)
    ensures Shifts(x, 8) == XorWords(Shifts(HighPart(x), 8), Up(x))
  {
    hide XorReg, Shift8, Shifts, LowHalf, Down8, Mirror, XorWords, HighPart, Up;
    MirrorHalves(x);
    ShiftsBits(x);
    Shift8Halves(Mirror(x));
    ShiftsBits(HighPart(x));
    MirrorXor(Shifts(HighPart(x), 8), Up(x));
    MirrorInjective(Shifts(x, 8), XorWords(Shifts(HighPart(x), 8), Up(x)));
  }

  /** One turn: shift the swapped register down and XOR the entry in. */
  lemma TableStep(r: bv16, b: byte)
    ensures var s := Swap(r); Swap(AddByte(r, b)) == XorWords(Down(s), Entry(TableIndexOf(s, b)))
  {
    hide Shifts, Octet, XorWords, Swap, EnterHigh, TableIndexOf, Down, Up, HighPart;
    var s := Swap(r);
    var i := TableIndexOf(s, b);
    IndexBits(r, b);
    ShiftsHalves(EnterHigh(r, Octet(b)));
    SwapXor(Shifts(Up(i), 8), Swap(Down(s)));
    SwapTwice(Down(s));
    XorCommutes(Entry(i), Down(s));
  }

  lemma XorCommutes(a: bv16, b: bv16)
    ensures XorWords(a, b) == XorWords(b, a)
  {
  }

  lemma LoopTurn(init: bv16, prefix: seq<byte>, b: byte)
    ensures var s := Crc(init, prefix);
            Crc(init, prefix + [b]) == XorWords(Down(s), TableEntry(TableIndexOf(s, b)))
  {
    hide AddByte, Swap, XorWords, Entry, TableEntry, TableIndexOf, Down;
    var r := Register(Swap(init), prefix);
    RegisterConcat(Swap(init), prefix, [b]);
    assert Register(r, [b]) == Register(AddByte(r, b), []);
    TableStep(r, b);
    TableMatches(TableIndexOf(Swap(r), b));
  }

  method SpiCrcString(inputstring: array<byte>, length: nat, initval: bv16) returns (result: bv16)
    requires length <= inputstring.Length
    ensures result == Crc(initval, inputstring[..length])
  {
    hide Crc, TableEntry, TableIndexOf, XorWords, Down;
    result := initval;
    EmptyMessage(initval);
    for i := 0 to length
      invariant result == Crc(initval, inputstring[..i])
    {
      LoopTurn(initval, inputstring[..i], inputstring[i]);
      assert inputstring[..i] + [inputstring[i]] == inputstring[..i + 1];
      result := XorWords(Down(result), TableEntry(TableIndexOf(result, inputstring[i])));
    }
  }

  lemma EmptyMessage(init: bv16)
    ensures Crc(init, []) == init
  {
    SwapTwice(init);
  }

  /** A message in two parts: the checksum of the first is the start value for the second. */
  lemma Chained(init: bv16, a: seq<byte>, b: seq<byte>)
    ensures Crc(init, a + b) == Crc(Crc(init, a), b)
  {
    hide Swap;
    RegisterConcat(Swap(init), a, b);
    SwapTwice(Register(Swap(init), a));
  }

  // ----- the checksum in memory, and what it detects -----

  /** A 16-bit value as it is stored: low byte first. */
  function Stored(c: bv16): (s: seq<byte>)
    ensures |s| == 2
  {
    [OctetValue(LowByte(c)), OctetValue(HighByte(c))]
  }

  function LowByte(c: bv16): bv8 {
    (c & 0xFF) as bv8
  }

  function HighByte(c: bv16): bv8 {
    (c >> 8) as bv8
  }

  /** The frame ends with the checksum of what comes before. */
  predicate Checked(init: bv16, frame: seq<byte>) {
    |frame| >= 2 && frame[|frame| - 2..] == Stored(Crc(init, frame[..|frame| - 2]))
  }

  function TopFirst(x: bv8): (s: seq<bool>)
    ensures |s| == 8
  {
    [Bit(x, 128), Bit(x, 64), Bit(x, 32), Bit(x, 16), Bit(x, 8), Bit(x, 4), Bit(x, 2), Bit(x, 1)]
  }

  /** In bits, the stored checksum is the register itself, in the order in which it would shift out. */
  lemma StoredBits(r: bv16)
    ensures MessageBits(MsbFirst, Stored(Swap(r))) == LowBitsOf(Mirror(r)) + HighBitsOf(Mirror(r))
  {
    hide Swap, Mirror, LowByte, HighByte, TopFirst, LowBitsOf, HighBitsOf;
    SwappedBytes(r);
    MirroredHighByte(r);
    MirroredLowByte(r);
    TwoByteBits(HighByte(r), LowByte(r));
  }

  lemma TwoByteBits(x: bv8, y: bv8)
    ensures MessageBits(MsbFirst, [OctetValue(x), OctetValue(y)]) == TopFirst(x) + TopFirst(y)
  {
    var a, b := OctetValue(x), OctetValue(y);
    TopBitFirst(x);
    TopBitFirst(y);
    hide OctetValue, OrderedBits, TopFirst;
    assert [a, b][1..] == [b];
    assert MessageBits(MsbFirst, [b]) == OrderedBits(MsbFirst, b) + [] == OrderedBits(MsbFirst, b);
  }

  lemma TopBitFirst(x: bv8)
    ensures OrderedBits(MsbFirst, OctetValue(x)) == TopFirst(x)
  {
    assert ByteBits(OctetValue(x)) == Unpack8(x);
    hide OctetValue, Bit;
  }

  lemma MirroredHighByte(r: bv16)
    ensures LowBitsOf(Mirror(r)) == TopFirst(HighByte(r))
  {
    HighBits(r);
    hide Mirror, HighByte, Bit;
  }

  lemma MirroredLowByte(r: bv16)
    ensures HighBitsOf(Mirror(r)) == TopFirst(LowByte(r))
  {
    LowBits(r);
    hide Mirror, LowByte, Bit;
  }

  lemma HighBits(r: bv16)
    ensures var x, m := HighByte(r), Mirror(r);
            && m.b0 == Bit(x, 128) && m.b1 == Bit(x, 64) && m.b2 == Bit(x, 32) && m.b3 == Bit(x, 16)
            && m.b4 == Bit(x, 8) && m.b5 == Bit(x, 4) && m.b6 == Bit(x, 2) && m.b7 == Bit(x, 1)
  {
  }

  lemma LowBits(r: bv16)
    ensures var y, m := LowByte(r), Mirror(r);
            && m.b8 == Bit(y, 128) && m.b9 == Bit(y, 64) && m.b10 == Bit(y, 32) && m.b11 == Bit(y, 16)
            && m.b12 == Bit(y, 8) && m.b13 == Bit(y, 4) && m.b14 == Bit(y, 2) && m.b15 == Bit(y, 1)
  {
  }

  lemma SwappedBytes(r: bv16)
    ensures LowByte(Swap(r)) == HighByte(r) && HighByte(Swap(r)) == LowByte(r)
  {
  }

  lemma ZeroMirror(r: bv16)
    ensures r == 0 <==> Mirror(r) == RegZero()
  {
    if Mirror(r) == RegZero() {
      MirrorInjective(r, 0);
    }
  }

  lemma SwapZero(r: bv16)
    ensures Swap(r) == 0 <==> r == 0
  {
  }

  /** Appending the checksum low byte first, and nothing else, brings the register to zero. */
  lemma CheckedIffZero(init: bv16, frame: seq<byte>)
    requires |frame| >= 2
    ensures Checked(init, frame) <==> Crc(init, frame) == 0
  {
    hide Swap, Mirror, Feed, MessageBits, Stored, RegZero, LowBitsOf, HighBitsOf;
    var body, tail := frame[..|frame| - 2], frame[|frame| - 2..];
    assert frame == body + tail;
    var r := Register(Swap(init), body);
    RegisterConcat(Swap(init), body, tail);
    RegisterBits(r, tail);
    StoredBits(r);
    ghost var s, t := MessageBits(MsbFirst, tail), MessageBits(MsbFirst, Stored(Swap(r)));
    FeedOwnBits(Mirror(r));
    SwapZero(Register(r, tail));
    ZeroMirror(Register(r, tail));
    if Crc(init, frame) == 0 {
      BitsRecovered(Mirror(r), s, t);
      MessageBitsInjective(MsbFirst, tail, Stored(Swap(r)));
    }
  }

  /** A change within 16 consecutive bits always changes the checksum. */
  lemma BurstChangesCrc(init: bv16, f: seq<byte>, g: seq<byte>, p: nat)
    requires WithinBurst(MsbFirst, f, g, p) && f != g
    ensures Crc(init, f) != Crc(init, g)
  {
    hide Swap, Mirror, Feed, MessageBits, WithinBurst;
    var x := Swap(init);
    RegisterBits(x, f);
    RegisterBits(x, g);
    BurstDetected(MsbFirst, Mirror(x), f, g, p);
    SwapTwice(Register(x, f));
    SwapTwice(Register(x, g));
  }

  /** A checked frame changed within 16 consecutive bits, checksum included, no longer passes the check. */
  lemma BurstUnchecks(init: bv16, f: seq<byte>, g: seq<byte>, p: nat)
    requires Checked(init, f) && WithinBurst(MsbFirst, f, g, p) && f != g
    ensures !Checked(init, g)
  {
    hide Crc;
    assert |f| == |g|;
    hide WithinBurst;
    CheckedIffZero(init, f);
    CheckedIffZero(init, g);
    BurstChangesCrc(init, f, g, p);
  }

  /** From different start values a message leads to different checksums. */
  lemma CrcInjective(a: bv16, b: bv16, msg: seq<byte>)
    requires Crc(a, msg) == Crc(b, msg)
    ensures a == b
  {
    hide Swap, Mirror, Feed, MessageBits;
    SwapTwice(Register(Swap(a), msg));
    SwapTwice(Register(Swap(b), msg));
    RegisterBits(Swap(a), msg);
    RegisterBits(Swap(b), msg);
    FeedInjective(Mirror(Swap(a)), Mirror(Swap(b)), MessageBits(MsbFirst, msg));
    MirrorInjective(Swap(a), Swap(b));
    SwapTwice(a);
    SwapTwice(b);
  }

  lemma StoredInjective(a: bv16, b: bv16)
    requires Stored(a) == Stored(b)
    ensures a == b
  {
    assert Stored(a)[0] == Stored(b)[0] && Stored(a)[1] == Stored(b)[1];
    hide OctetValue;
    assert Octet(OctetValue(LowByte(a))) == LowByte(a) && Octet(OctetValue(LowByte(b))) == LowByte(b);
    assert Octet(OctetValue(HighByte(a))) == HighByte(a) && Octet(OctetValue(HighByte(b))) == HighByte(b);
    BytesInjective(a, b);
  }

  lemma BytesInjective(a: bv16, b: bv16)
    requires LowByte(a) == LowByte(b) && HighByte(a) == HighByte(b)
    ensures a == b
  {
  }
}
