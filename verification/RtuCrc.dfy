/** The checksum of Modbus RTU frames: libmodbus computes it with two tables, the standard bit by bit. */
module RtuCrc {
  import opened Bytes
  import opened CrcBits
  import opened RtuCrcTable

  /** Each byte of the message is XORed into the low half, then eight shifts follow. */
  function AddByte(r: bv16, b: byte): bv16 {
    Shifts(EnterLow(r, Octet(b)), 8)
  }

  function EnterLow(r: bv16, v: bv8): bv16 {
    r ^ Widen(v)
  }

  function Widen(v: bv8): bv16 {
    v as bv16
  }

  function Register(r: bv16, msg: seq<byte>): bv16
    decreases |msg|
  {
    if |msg| == 0 then r else Register(AddByte(r, msg[0]), msg[1..])
  }

  function BitsOf(r: bv16): Reg {
    RegOf(LowHalfOf(r), HighHalfOf(r))
  }

  lemma ShiftRightOdd(r: bv16)
    requires r & 1 == 1
    ensures BitsOf((r >> 1) ^ 0xA001) == Shift(BitsOf(r))
  {
  }

  lemma ShiftRightEven(r: bv16)
    requires r & 1 == 0
    ensures BitsOf(r >> 1) == Shift(BitsOf(r))
  {
  }

  lemma LowBit(r: bv16)
    ensures r & 1 == 0 || r & 1 == 1
  {
  }

  lemma ShiftRightBits(r: bv16)
    ensures BitsOf(ShiftRight(r)) == Shift(BitsOf(r))
  {
    hide BitsOf, Shift;
    LowBit(r);
    if r & 1 == 1 {
      ShiftRightOdd(r);
    } else {
      ShiftRightEven(r);
    }
  }

  lemma ShiftsBits(r: bv16)
    ensures BitsOf(Shifts(r, 8)) == Shift8(BitsOf(r))
  {
    hide BitsOf, Shift, ShiftRight;
    var r1 := ShiftRight(r); var r2 := ShiftRight(r1); var r3 := ShiftRight(r2); var r4 := ShiftRight(r3);
    var r5 := ShiftRight(r4); var r6 := ShiftRight(r5); var r7 := ShiftRight(r6);
    ShiftRightBits(r); ShiftRightBits(r1); ShiftRightBits(r2); ShiftRightBits(r3);
    ShiftRightBits(r4); ShiftRightBits(r5); ShiftRightBits(r6); ShiftRightBits(r7);
    assert Shifts(r, 8) == Shifts(r2, 6) == Shifts(r4, 4) == Shifts(r6, 2) == Shifts(ShiftRight(r7), 0);
  }

  /** The bits of a byte, waiting in the low half of a register. */
  function WaitingByte(v: bv8): Reg {
    RegOf(v, 0)
  }

  lemma EnterByte(r: bv16, v: bv8)
    ensures BitsOf(EnterLow(r, v)) == XorReg(BitsOf(r), WaitingByte(v))
  {
    XorHalves(r, v);
    hide Unpack8, LowHalfOf, HighHalfOf, EnterLow, XorOctets;
    UnpackXor(LowHalfOf(r), v);
    UnpackZero();
  }

  lemma XorHalves(r: bv16, v: bv8)
    ensures LowHalfOf(EnterLow(r, v)) == XorOctets(LowHalfOf(r), v) && HighHalfOf(EnterLow(r, v)) == HighHalfOf(r)
  {
  }

  lemma FeedOctet(r: Reg, v: bv8)
    ensures Feed(r, Unpack8(v)) == Shift8(XorReg(r, WaitingByte(v)))
  {
    ghost var s := Unpack8(v);
    FeedByte(r, s);
    hide Feed, Shift8, XorReg;
    assert WaitingByte(v) == Waiting(s[0], s[1], s[2], s[3], s[4], s[5], s[6], s[7]);
  }

  lemma AddByteBits(r: bv16, b: byte)
    ensures BitsOf(AddByte(r, b)) == Feed(BitsOf(r), OrderedBits(LsbFirst, b))
  {
    hide BitsOf, Shift8, XorReg, WaitingByte, Shifts, Feed, EnterLow;
    var v := Octet(b);
    EnterByte(r, v);
    ShiftsBits(EnterLow(r, v));
    FeedOctet(BitsOf(r), v);
  }

  /** The standard's byte-wise register is the bit string of the message fed into the shift register. */
  lemma {:induction false} RegisterBits(r: bv16, msg: seq<byte>)
    ensures BitsOf(Register(r, msg)) == Feed(BitsOf(r), MessageBits(LsbFirst, msg))
    decreases |msg|
  {
    hide BitsOf, AddByte, OrderedBits, Step;
    if msg == [] {
    } else {
      AddByteBits(r, msg[0]);
      RegisterBits(AddByte(r, msg[0]), msg[1..]);
      FeedConcat(BitsOf(r), OrderedBits(LsbFirst, msg[0]), MessageBits(LsbFirst, msg[1..]));
    }
  }

  lemma BitsOfInjective(r: bv16, lo: bv8, hi: bv8)
    requires BitsOf(r) == RegOf(lo, hi)
    ensures LowHalfOf(r) == lo && HighHalfOf(r) == hi
  {
    RegOfInjective(LowHalfOf(r), HighHalfOf(r), lo, hi);
  }

  lemma {:induction false} RegisterConcat(r: bv16, a: seq<byte>, b: seq<byte>)
    ensures Register(r, a + b) == Register(Register(r, a), b)
    decreases |a|
  {
    hide AddByte;
    if a == [] {
      assert a + b == b;
    } else {
      assert (a + b)[1..] == a[1..] + b;
      RegisterConcat(AddByte(r, a[0]), a[1..], b);
    }
  }

  /** One turn of the table loop: look up `hi ^ v`, move `lo` up. */
  lemma TableStep(r: bv16, hi: bv8, lo: bv8, b: byte)
    requires BitsOf(r) == RegOf(hi, lo)
    ensures var i := Widen(XorOctets(hi, Octet(b)));
            BitsOf(AddByte(r, b)) == RegOf(XorOctets(lo, HiEntry(i)), LoEntry(i))
  {
    hide XorReg, RegOf, WaitingByte, Shift8, Shifts, LowHalf, Down8, BitsOf, Octet, HiEntry, LoEntry,
      EnterLow, XorOctets, Widen;
    var v := Octet(b);
    var i := Widen(XorOctets(hi, v));
    var x := XorReg(RegOf(hi, lo), WaitingByte(v));
    IndexBits(hi, lo, v);
    EnterByte(r, v);
    ShiftsBits(EnterLow(r, v));
    Shift8Halves(x);
    ShiftsBits(i);
    EntryXor(i, lo);
  }

  lemma IndexBits(hi: bv8, lo: bv8, v: bv8)
    ensures LowHalf(XorReg(RegOf(hi, lo), WaitingByte(v))) == BitsOf(Widen(XorOctets(hi, v)))
    ensures Down8(XorReg(RegOf(hi, lo), WaitingByte(v))) == RegOf(lo, 0)
  {
    hide Unpack8, LowHalfOf, HighHalfOf, XorOctets, Widen, RegOf, XorReg, LowHalf, Down8;
    WidenHalves(XorOctets(hi, v));
    XorLow(hi, lo, v);
  }

  lemma XorLow(hi: bv8, lo: bv8, v: bv8)
    ensures LowHalf(XorReg(RegOf(hi, lo), RegOf(v, 0))) == RegOf(XorOctets(hi, v), 0)
    ensures Down8(XorReg(RegOf(hi, lo), RegOf(v, 0))) == RegOf(lo, 0)
  {
    hide Unpack8, XorOctets;
    UnpackXor(hi, v);
    UnpackZero();
  }

  lemma WidenHalves(v: bv8)
    ensures LowHalfOf(Widen(v)) == v && HighHalfOf(Widen(v)) == 0
  {
  }

  lemma UnpackZero()
    ensures Unpack8(0) == [false, false, false, false, false, false, false, false]
  {
  }

  lemma EntryXor(i: bv16, lo: bv8)
    ensures XorReg(BitsOf(Shifts(i, 8)), RegOf(lo, 0)) == RegOf(XorOctets(lo, HiEntry(i)), LoEntry(i))
  {
    hide Shifts, LowHalfOf, HighHalfOf, XorOctets, RegOf, XorReg;
    RegOfXor(LowHalfOf(Shifts(i, 8)), HighHalfOf(Shifts(i, 8)), lo);
  }

  lemma RegOfXor(a: bv8, c: bv8, lo: bv8)
    ensures XorReg(RegOf(a, c), RegOf(lo, 0)) == RegOf(XorOctets(lo, a), c)
  {
    hide Unpack8, XorOctets;
    UnpackXor(lo, a);
    UnpackZero();
  }

  /** The two checksum bytes of a message, in the order of transmission. */
  function CrcHi(msg: seq<byte>): byte {
    OctetValue(LowHalfOf(Register(0xFFFF, msg)))
  }

  function CrcLo(msg: seq<byte>): byte {
    OctetValue(HighHalfOf(Register(0xFFFF, msg)))
  }

  /** The last two bytes of the frame are the checksum of those before them. */
  predicate Sealed(frame: seq<byte>) {
    && |frame| >= 2
    && var body := frame[..|frame| - 2];
       frame[|frame| - 2] == CrcHi(body) && frame[|frame| - 1] == CrcLo(body)
  }

  function TableIndexOf(hi: bv8, b: byte): (i: bv16)
    ensures i < 256
  {
    Widen(XorOctets(hi, Octet(b)))
  }

  /** One turn of the loop: the table index is `crc_hi ^ byte`, and the two halves change places. */
  lemma LoopTurn(prefix: seq<byte>, hi: bv8, lo: bv8, b: byte)
    requires BitsOf(Register(0xFFFF, prefix)) == RegOf(hi, lo)
    ensures var i := TableIndexOf(hi, b);
            BitsOf(Register(0xFFFF, prefix + [b])) == RegOf(XorOctets(lo, TableHi(i)), TableLo(i))
  {
    hide Register, AddByte, BitsOf, RegOf, XorOctets, Octet, HiEntry, LoEntry, Widen, TableHi, TableLo;
    TableMatches(TableIndexOf(hi, b));
    TableStep(Register(0xFFFF, prefix), hi, lo, b);
    RegisterExtend(prefix, b);
  }

  method Crc16(buffer: array<byte>, length: nat) returns (crc: word)
    requires length <= buffer.Length
    ensures crc == Word(CrcHi(buffer[..length]), CrcLo(buffer[..length]))
  {
    hide Register, BitsOf, RegOf, XorOctets, TableIndexOf, TableHi, TableLo;
    var crcHi: bv8, crcLo: bv8 := 0xFF, 0xFF;
    var k := 0;
    StartBits();
    while k < length
      invariant k <= length
      invariant BitsOf(Register(0xFFFF, buffer[..k])) == RegOf(crcHi, crcLo)
    {
      LoopTurn(buffer[..k], crcHi, crcLo, buffer[k]);
      assert buffer[..k] + [buffer[k]] == buffer[..k + 1];
      var i := TableIndexOf(crcHi, buffer[k]);
      crcHi := XorOctets(crcLo, TableHi(i));
      crcLo := TableLo(i);
      k := k + 1;
    }
    BitsOfInjective(Register(0xFFFF, buffer[..length]), crcHi, crcLo);
    crc := Word(OctetValue(crcHi), OctetValue(crcLo));
  }

  lemma StartBits()
    ensures BitsOf(Register(0xFFFF, [])) == RegOf(0xFF, 0xFF)
  {
  }

  lemma RegisterExtend(a: seq<byte>, b: byte)
    ensures Register(0xFFFF, a + [b]) == AddByte(Register(0xFFFF, a), b)
  {
    hide AddByte;
    RegisterConcat(0xFFFF, a, [b]);
    var r := Register(0xFFFF, a);
    assert Register(r, [b]) == Register(AddByte(r, b), []);
  }

  /** Appends the checksum, the byte of `crc >> 8` first. */
  method SendMsgPre(req: array<byte>, reqLength: nat) returns (length: nat)
    requires reqLength + 2 <= req.Length
    modifies req
    ensures length == reqLength + 2
    ensures req[..length] == old(req[..reqLength]) + [CrcHi(old(req[..reqLength])), CrcLo(old(req[..reqLength]))]
    ensures req[length..] == old(req[length..])
  {
    hide CrcHi, CrcLo;
    ghost var msg := req[..reqLength];
    ghost var rest := req[reqLength + 2..];
    var crc := Crc16(req, reqLength);
    req[reqLength] := crc / 256;
    req[reqLength + 1] := crc % 256;
    length := reqLength + 2;
    assert req[..length] == msg + [CrcHi(msg), CrcLo(msg)];
    assert req[length..] == rest;
  }

  lemma SealedBySending(msg: seq<byte>)
    ensures Sealed(msg + [CrcHi(msg), CrcLo(msg)])
  {
    var frame := msg + [CrcHi(msg), CrcLo(msg)];
    assert frame[..|frame| - 2] == msg;
  }

  lemma ZeroRegister(r: bv16)
    requires BitsOf(r) == RegOf(0, 0)
    ensures r == 0
  {
    BitsOfInjective(r, 0, 0);
    hide RegOf;
  }

  lemma FeedOwnBytes(lo: bv8, hi: bv8)
    ensures Feed(RegOf(lo, hi), Unpack8(lo) + Unpack8(hi)) == RegOf(0, 0)
  {
    hide Feed, Unpack8;
    var r := RegOf(lo, hi);
    FeedOwnBits(r);
    EightElements(Unpack8(lo));
    EightElements(Unpack8(hi));
    UnpackZero();
  }

  lemma TwoByteBits(x: byte, y: byte)
    ensures MessageBits(LsbFirst, [x, y]) == Unpack8(Octet(x)) + Unpack8(Octet(y))
  {
    hide Octet;
    assert [x, y][1..] == [y];
    assert MessageBits(LsbFirst, [y]) == OrderedBits(LsbFirst, y) + [] == OrderedBits(LsbFirst, y);
  }

  /** The receiver may just as well run the checksum over the whole frame and look for zero. */
  lemma SealedIffResidueZero(frame: seq<byte>)
    requires |frame| >= 2
    ensures Sealed(frame) <==> Register(0xFFFF, frame) == 0
  {
    hide Register, OctetValue, LowHalfOf, HighHalfOf;
    var body, x, y := frame[..|frame| - 2], frame[|frame| - 2], frame[|frame| - 1];
    assert frame == body + [x, y];
    RegisterConcat(0xFFFF, body, [x, y]);
    OwnBytesReachZero(Register(0xFFFF, body), x, y);
  }

  /** Two bytes take a register to zero exactly if they are its own halves. */
  lemma OwnBytesReachZero(r: bv16, x: byte, y: byte)
    ensures Register(r, [x, y]) == 0 <==> x == OctetValue(LowHalfOf(r)) && y == OctetValue(HighHalfOf(r))
  {
    hide Register, BitsOf, Feed, RegOf, Octet, Unpack8, MessageBits;
    RegisterBits(r, [x, y]);
    TwoByteBits(x, y);
    var lo, hi := LowHalfOf(r), HighHalfOf(r);
    BitsOfHalves(r);
    FeedOwnBytes(lo, hi);
    if x == OctetValue(lo) && y == OctetValue(hi) {
      ZeroRegister(Register(r, [x, y]));
    }
    if Register(r, [x, y]) == 0 {
      BitsOfZero();
      BitsRecovered(RegOf(lo, hi), Unpack8(Octet(x)) + Unpack8(Octet(y)), Unpack8(lo) + Unpack8(hi));
      SplitBits(Octet(x), Octet(y), lo, hi);
      OctetInjective(x, OctetValue(lo));
      OctetInjective(y, OctetValue(hi));
    }
  }

  lemma BitsOfHalves(r: bv16)
    ensures BitsOf(r) == RegOf(LowHalfOf(r), HighHalfOf(r))
  {
  }

  lemma BitsOfZero()
    ensures BitsOf(0) == RegOf(0, 0)
  {
  }

  lemma SplitBits(a: bv8, b: bv8, c: bv8, d: bv8)
    requires Unpack8(a) + Unpack8(b) == Unpack8(c) + Unpack8(d)
    ensures a == c && b == d
  {
    hide Unpack8, Pack8;
    assert Unpack8(a) == (Unpack8(a) + Unpack8(b))[..8] == (Unpack8(c) + Unpack8(d))[..8] == Unpack8(c);
    assert Unpack8(b) == (Unpack8(a) + Unpack8(b))[8..] == (Unpack8(c) + Unpack8(d))[8..] == Unpack8(d);
    PackUnpack(a);
    PackUnpack(b);
    PackUnpack(c);
    PackUnpack(d);
  }

  /** A sealed frame changed within 16 consecutive bits, checksum included, is no longer sealed. */
  lemma BurstUnseals(f: seq<byte>, g: seq<byte>, p: nat)
    requires Sealed(f) && f != g && WithinBurst(LsbFirst, f, g, p)
    ensures !Sealed(g)
  {
    hide Register, BitsOf, Feed, MessageBits;
    SealedIffResidueZero(f);
    SealedIffResidueZero(g);
    RegisterBits(0xFFFF, f);
    RegisterBits(0xFFFF, g);
    BurstDetected(LsbFirst, BitsOf(0xFFFF), f, g, p);
  }

  lemma TwoChangedBytesUnseal(before: seq<byte>, v: seq<byte>, w: seq<byte>, after: seq<byte>)
    requires |v| == |w| <= 2 && v != w && Sealed(before + v + after)
    ensures !Sealed(before + w + after)
  {
    hide Sealed, WithinBurst;
    var f, g := before + v + after, before + w + after;
    assert f[|before|..|before| + |v|] == v && g[|before|..|before| + |w|] == w;
    TwoBytesWithinBurst(LsbFirst, before, v, w, after);
    BurstUnseals(f, g, 8 * |before|);
  }

  // ----- the example of the standard -----

  lemma BitsOfTwo()
    ensures ByteBits(0x02) == [false, true, false, false, false, false, false, false]
  {
  }

  lemma BitsOfSeven()
    ensures ByteBits(0x07) == [true, true, true, false, false, false, false, false]
  {
  }

  lemma BitsOfSixtyFive()
    ensures ByteBits(0x41) == [true, false, false, false, false, false, true, false]
  {
  }

  lemma BitsOfEighteen()
    ensures ByteBits(0x12) == [false, true, false, false, true, false, false, false]
  {
  }

  lemma ExampleOctetBits()
    ensures Unpack8(0x02) == [false, true, false, false, false, false, false, false]
    ensures Unpack8(0x07) == [true, true, true, false, false, false, false, false]
    ensures Unpack8(0x41) == [true, false, false, false, false, false, true, false]
    ensures Unpack8(0x12) == [false, true, false, false, true, false, false, false]
  {
  }

  lemma OctetIs(b: byte, v: bv8)
    requires ByteBits(b) == Unpack8(v)
    ensures Octet(b) == v && OctetValue(v) == b
  {
    PackUnpack(v);
    PackUnpack(Octet(b));
    ByteBitsInjective(b, OctetValue(v));
  }

  lemma ExampleOctets()
    ensures Octet(0x02) == 0x02 && Octet(0x07) == 0x07 && OctetValue(0x41) == 0x41 && OctetValue(0x12) == 0x12
  {
    hide ByteBits, Unpack8, Octet, OctetValue;
    BitsOfTwo();
    BitsOfSeven();
    BitsOfSixtyFive();
    BitsOfEighteen();
    ExampleOctetBits();
    OctetIs(0x02, 0x02);
    OctetIs(0x07, 0x07);
    OctetIs(0x41, 0x41);
    OctetIs(0x12, 0x12);
  }

  lemma ExampleRegister()
    ensures AddByte(AddByte(0xFFFF, 0x02), 0x07) == 0x1241
  {
    hide Octet;
    ExampleOctets();
  }

  /** MODBUS over Serial Line V1.02, section 6.2.2: a message 02 07 is sent as 02 07 41 12. */
  lemma StandardExample()
    ensures CrcHi([0x02, 0x07]) == 0x41 && CrcLo([0x02, 0x07]) == 0x12
  {
    hide AddByte, Octet, OctetValue;
    ExampleOctets();
    ExampleRegister();
    assert [0x02, 0x07][1..] == [0x07];
  }
}
