/** The server's answers to Modbus requests, built from what the boards say, in the buffer that holds the request. */
module Gateway {
  import opened Bytes
  import opened BitPacking
  import opened Pdu
  import opened Refinement
  import opened Transport
  import opened TwoPhase
  import opened Boards
  import opened Standard
  import SpiCrc
  import Uart

  const HEADER := 7

  const SLAVE_OR_SERVER_FAILURE: byte := 4
  const GATEWAY_TARGET: byte := 11

  /** The coil that starts programming a board; it is only noted. */
  const FIRMWARE_COIL := 1004

  /** "SPI3.1.4" */
  const BOARD_IDENTITY: seq<byte> := [83, 80, 73, 51, 46, 49, 46, 52]
  const REPORT_MB_SLAVE_ID: byte := 181

  // ----- the answers -----

  /** `nb_response_exception` */
  function Refusal(fc: byte, code: byte): (pdu: seq<byte>)
    ensures |pdu| == 2
  {
    [Lo(fc + 0x80), code]
  }

  function ReadingBits(fc: byte, address: word, nb: word, before: seq<byte>, line: Wire): seq<byte>
    requires |before| == SECOND_BUFFER && Carries(line, SECOND_BUFFER)
  {
    hide BitsRead, Buffer;
    if nb < 1 || MAX_READ_BITS < nb then Refusal(fc, ILLEGAL_DATA_VALUE)
    else if BitsRead(before, address, nb, line) >= nb then
      [fc, Lo(ByteCount(nb))]
      + Buffer(before, ARM_OP_READ_BIT, BitsLength(nb), line)[SIZEOF_HEADER..SIZEOF_HEADER + ByteCount(nb)]
    else Refusal(fc, ILLEGAL_DATA_ADDRESS)
  }

  function GotRegisters(nb: word, before: seq<byte>, line: Wire): (bytes: seq<byte>)
    requires |before| == SECOND_BUFFER && Carries(line, SECOND_BUFFER) && nb <= REGS_MAX
    ensures |bytes| == 2 * nb && |bytes| % 2 == 0
  {
    hide Received;
    Buffer(before, ARM_OP_READ_REG, RegsLength(nb), line)[SIZEOF_HEADER..SIZEOF_HEADER + 2 * nb]
  }

  function ReadingRegisters(fc: byte, address: word, nb: word, before: seq<byte>, line: Wire): seq<byte>
    requires |before| == SECOND_BUFFER && Carries(line, SECOND_BUFFER)
  {
    hide RegsRead, GotRegisters, Swapped;
    if nb < 1 || MAX_READ_REGISTERS < nb then Refusal(fc, ILLEGAL_DATA_VALUE)
    else if RegsRead(before, address, nb, line) == nb then
      [fc, Lo(2 * nb)] + Swapped(GotRegisters(nb, before, line))
    else Refusal(fc, ILLEGAL_DATA_ADDRESS)
  }

  function WritingBit(fc: byte, address: word, data: word, echo: seq<byte>, line: Wire): seq<byte>
    requires Carries(line, SECOND_BUFFER)
  {
    if data != 0xFF00 && data != 0 then Refusal(fc, ILLEGAL_DATA_VALUE)
    else if address == FIRMWARE_COIL || BitWritten(line) == 1 then echo
    else Refusal(fc, SLAVE_OR_SERVER_FAILURE)
  }

  function WritingRegister(fc: byte, echo: seq<byte>, before: seq<byte>, line: Wire): seq<byte>
    requires |before| == SECOND_BUFFER && Carries(line, SECOND_BUFFER)
  {
    if RegsWritten(before, 1, line) == 1 then echo else Refusal(fc, ILLEGAL_DATA_ADDRESS)
  }

  function WritingBits(fc: byte, nb: word, echo: seq<byte>, before: seq<byte>, line: Wire): seq<byte>
    requires |before| == SECOND_BUFFER && Carries(line, SECOND_BUFFER)
  {
    if nb < 1 || MAX_WRITE_BITS < nb then Refusal(fc, ILLEGAL_DATA_VALUE)
    else if BitsWritten(before, nb, line) == nb then echo
    else Refusal(fc, ILLEGAL_DATA_ADDRESS)
  }

  function WritingRegisters(fc: byte, nb: word, echo: seq<byte>, before: seq<byte>, line: Wire): seq<byte>
    requires |before| == SECOND_BUFFER && Carries(line, SECOND_BUFFER)
  {
    if nb < 1 || MAX_WRITE_REGISTERS < nb then Refusal(fc, ILLEGAL_DATA_VALUE)
    else if RegsWritten(before, nb, line) == nb then echo
    else Refusal(fc, ILLEGAL_DATA_ADDRESS)
  }

  /** The answer to the request PDU at the head of `p`, for what the line to the board does and what an earlier
      reply left in its receive buffer. */
  function Serving(p: seq<byte>, address: word, before: seq<byte>, line: Wire): (pdu: seq<byte>)
    requires |p| >= MAX_PDU && |before| == SECOND_BUFFER && Carries(line, SECOND_BUFFER)
    ensures |pdu| >= 2
  {
    var fc, count := p[0], Word(p[3], p[4]);
    if fc == READ_COILS || fc == READ_DISCRETE_INPUTS then ReadingBits(fc, address, count, before, line)
    else if fc == READ_HOLDING_REGISTERS || fc == READ_INPUT_REGISTERS then
      ReadingRegisters(fc, address, count, before, line)
    else if fc == WRITE_SINGLE_COIL then WritingBit(fc, address, count, p[..5], line)
    else if fc == WRITE_SINGLE_REGISTER then WritingRegister(fc, p[..5], before, line)
    else if fc == WRITE_MULTIPLE_COILS then WritingBits(fc, count, p[..5], before, line)
    else if fc == WRITE_MULTIPLE_REGISTERS then WritingRegisters(fc, count, p[..5], before, line)
    else if fc == REPORT_SLAVE_ID then [fc, Lo(2 + |BOARD_IDENTITY|), REPORT_MB_SLAVE_ID, 0xFF] + BOARD_IDENTITY
    else Refusal(fc, ILLEGAL_FUNCTION)
  }

  function BitsAsked(address: word, nb: word): Order {
    if nb < 1 || MAX_READ_BITS < nb then Nothing else BitsWanted(address, (nb + 15) / 16)
  }

  function RegistersAsked(address: word, nb: word): Order {
    if nb < 1 || MAX_READ_REGISTERS < nb then Nothing else RegsWanted(address, nb)
  }

  function BitSet(address: word, data: word): Order {
    if (data != 0xFF00 && data != 0) || address == FIRMWARE_COIL then Nothing else BitGiven(address, data != 0)
  }

  function BitsSet(address: word, nb: word, bytes: seq<byte>): Order
    requires |bytes| >= MAX_PDU - 6
  {
    if nb < 1 || MAX_WRITE_BITS < nb then Nothing else BitsOrder(address, nb, bytes)
  }

  function RegistersSet(address: word, nb: word, bytes: seq<byte>): Order
    requires |bytes| >= MAX_PDU - 6
  {
    if nb < 1 || MAX_WRITE_REGISTERS < nb then Nothing else RegsGiven(address, BytesRegisters(bytes, nb))
  }

  /** What the board is told on account of the request. */
  function Ordering(p: seq<byte>, address: word): Order
    requires |p| >= MAX_PDU
  {
    var fc, count := p[0], Word(p[3], p[4]);
    if fc == READ_COILS || fc == READ_DISCRETE_INPUTS then BitsAsked(address, count)
    else if fc == READ_HOLDING_REGISTERS || fc == READ_INPUT_REGISTERS then RegistersAsked(address, count)
    else if fc == WRITE_SINGLE_COIL then BitSet(address, count)
    else if fc == WRITE_SINGLE_REGISTER then RegsGiven(address, [count])
    else if fc == WRITE_MULTIPLE_COILS then BitsSet(address, count, p[6..])
    else if fc == WRITE_MULTIPLE_REGISTERS then RegistersSet(address, count, p[6..])
    else Nothing
  }

  // ----- against the operations themselves -----

  /** A board as a register map: what can be written can be read as input, too. */
  function AsMapping(s: Store): Mapping {
    Mapping(Table(0, s.coils), Table(0, s.coils), Table(0, s.registers), Table(0, s.registers))
  }

  /** The client's call does what the operation itself does to the board's cells, and gives its result; where the
      operation is refused, the call fails and the board keeps its cells. */
  predicate Agrees(s: Store, call: Call, pdu: seq<byte>, order: Order)
    requires !TooMuch(call)
  {
    var e := Direct(AsMapping(s), call);
    && |pdu| >= 2
    && if e.outcome.Failed? then Finish(call, pdu).Failed? && Obeyed(s, order) == s
       else Finish(call, pdu) == e.outcome && Obeyed(s, order) == Store(e.m.bits.cells, e.m.registers.cells)
  }

  /** The calls that go through a board as they should, told from what is asked and what the board has. Replies count
      bits with eight bits; the board is told the low byte of a count of bits; the answer to a single coil comes
      before the board can say anything about it; two functions are missing. */
  predicate Suits(s: Store, call: Call) {
    match call
    case ReadBits(addr, nb) => nb <= 255 || Reach(addr) + nb > |s.coils|
    case ReadInputBits(addr, nb) => nb <= 255 || Reach(addr) + nb > |s.coils|
    case WriteBit(addr, status) =>
      Reach(addr) < |s.coils| && (Reach(addr) == FIRMWARE_COIL ==> s.coils[Reach(addr)] == (status != 0))
    case WriteBits(addr, src) =>
      var at, told := Reach(addr), |src| % 256;
      || |src| <= 255
      || (at + |src| > |s.coils| && (at + told > |s.coils| || s.coils[at..at + told] == Normal(src)[..told]))
    case MaskWrite(addr, _, _) => Reach(addr) >= |s.registers|
    case WriteAndRead(writeAddr, values, addr, nb) =>
      values == [] || nb == 0 || Reach(addr) + nb > |s.registers| || Reach(writeAddr) + |values| > |s.registers|
    case _ => true
  }

  lemma RefusalFails(call: Call, code: byte)
    requires !TooMuch(call) && code < EXCEPTION_MAX
    ensures Finish(call, Refusal(Code(call), code)).Failed?
  {
    hide Finish, Refusal;
    RefusedAs(call, code);
  }

  lemma ReadBitsAgree(s: Store, call: Call, before: seq<byte>, line: Wire)
    requires !TooMuch(call) && (call.ReadBits? || call.ReadInputBits?)
    requires |before| == SECOND_BUFFER && Carries(line, SECOND_BUFFER)
    requires Honest(s, BitsAsked(Reach(call.addr), call.nb), line)
    ensures var order := BitsAsked(Reach(call.addr), call.nb);
            Agrees(s, call, ReadingBits(Code(call), Reach(call.addr), call.nb, before, line), order) <==> Suits(s, call)
  {
    hide Finish, Refusal, UnpackBits, Honest, BitsRead, Buffer, Code, Reach, Lo;
    RefusalFails(call, ILLEGAL_DATA_VALUE);
    RefusalFails(call, ILLEGAL_DATA_ADDRESS);
    var at, nb := Reach(call.addr), call.nb;
    if nb > 0 {
      HonestBits(s, before, at, nb, line);
      if BitsRead(before, at, nb, line) >= nb {
        var rx2 := Buffer(before, ARM_OP_READ_BIT, BitsLength(nb), line);
        var bytes := rx2[SIZEOF_HEADER..SIZEOF_HEADER + ByteCount(nb)];
        FinishPackedBits(call, bytes);
        UnpackCut(rx2[SIZEOF_HEADER..], nb);
        assert rx2[SIZEOF_HEADER..][..ByteCount(nb)] == bytes;
      }
    }
  }

  lemma UnpackCut(bytes: seq<byte>, nb: nat)
    requires ByteCount(nb) <= |bytes|
    ensures UnpackBits(bytes[..ByteCount(nb)], nb) == UnpackBits(bytes, nb)
  {
    hide ByteBits;
  }

  lemma ReadRegistersAgree(s: Store, call: Call, before: seq<byte>, line: Wire)
    requires !TooMuch(call) && (call.ReadRegisters? || call.ReadInputRegisters?)
    requires |before| == SECOND_BUFFER && Carries(line, SECOND_BUFFER)
    requires Honest(s, RegistersAsked(Reach(call.addr), call.nb), line)
    ensures var order := RegistersAsked(Reach(call.addr), call.nb);
            Agrees(s, call, ReadingRegisters(Code(call), Reach(call.addr), call.nb, before, line), order)
  {
    hide Finish, Refusal, Honest, RegsRead, Buffer, Code, Reach, Lo, Swapped, HostBytes, RegisterBytes;
    RefusalFails(call, ILLEGAL_DATA_VALUE);
    RefusalFails(call, ILLEGAL_DATA_ADDRESS);
    var at, nb := Reach(call.addr), call.nb;
    if nb > 0 {
      HonestRegs(s, before, at, nb, line);
      if at + nb <= |s.registers| {
        SwappedToWire(s.registers[at..at + nb]);
        FinishReadRegisters(call, s.registers[at..at + nb]);
      }
    }
  }

  lemma WriteBitAgrees(s: Store, call: Call, echo: seq<byte>, line: Wire)
    requires call.WriteBit? && echo == RequestPdu(call)[..5] && Carries(line, SECOND_BUFFER)
    requires Honest(s, BitSet(Reach(call.addr), Reach(Field(call))), line)
    ensures var order := BitSet(Reach(call.addr), Reach(Field(call)));
            Agrees(s, call, WritingBit(Code(call), Reach(call.addr), Reach(Field(call)), echo, line), order)
            <==> Suits(s, call)
  {
    hide Finish, RequestPdu, Code, Reach, WritingBit, BitSet, Field, Honest, Obeyed;
    EchoConfirms(s, call, echo, line);
    if Reach(call.addr) < |s.coils| {
      BitObeyed(s, call);
    }
  }

  /** A single coil is set, unless it is the one that starts programming. */
  lemma BitObeyed(s: Store, call: Call)
    requires call.WriteBit? && Reach(call.addr) < |s.coils|
    ensures var at, value := Reach(call.addr), call.status != 0;
            var left := Obeyed(s, BitSet(at, Reach(Field(call))));
            && left.registers == s.registers
            && (left.coils == Put(s.coils, at, [value]) <==> at != FIRMWARE_COIL || s.coils[at] == value)
  {
    hide Reach;
    assert Reach(Field(call)) == if call.status != 0 then 0xFF00 else 0 by {
      OneBitField(call);
    }
    PutSame(s.coils, Reach(call.addr), [call.status != 0]);
    assert s.coils[Reach(call.addr)..Reach(call.addr) + 1] == [s.coils[Reach(call.addr)]];
  }

  lemma OneBitField(call: Call)
    requires call.WriteBit?
    ensures Reach(Field(call)) == if call.status != 0 then 0xFF00 else 0
  {
  }

  /** Writing changes nothing exactly where the cells have these values. */
  lemma PutSame<T>(cells: seq<T>, at: nat, values: seq<T>)
    requires at + |values| <= |cells|
    ensures Put(cells, at, values) == cells <==> cells[at..at + |values|] == values
  {
    var r := Put(cells, at, values);
    assert r[at..at + |values|] == values;
    if cells[at..at + |values|] == values {
      assert cells == cells[..at] + cells[at..at + |values|] + cells[at + |values|..];
    }
  }

  lemma WriteRegisterAgrees(s: Store, call: Call, echo: seq<byte>, before: seq<byte>, line: Wire)
    requires call.WriteRegister? && echo == RequestPdu(call)[..5]
    requires |before| == SECOND_BUFFER && Carries(line, SECOND_BUFFER)
    requires Honest(s, RegsGiven(Reach(call.addr), [Reach(Field(call))]), line)
    ensures Agrees(s, call, WritingRegister(Code(call), echo, before, line),
                   RegsGiven(Reach(call.addr), [Reach(Field(call))]))
  {
    hide Finish, Refusal, RequestPdu, Code, Honest, RegsWritten;
    assert echo[..5] == echo;
    RefusalFails(call, ILLEGAL_DATA_ADDRESS);
    FinishWrite(call, echo);
    HonestWrites(s, before, Reach(call.addr), [Reach(Field(call))], line);
  }

  lemma WriteBitsAgree(s: Store, call: Call, bytes: seq<byte>, echo: seq<byte>, before: seq<byte>, line: Wire)
    requires !TooMuch(call) && call.WriteBits? && echo == RequestPdu(call)[..5]
    requires |bytes| >= MAX_PDU - 6 && PackBits(Normal(call.src)) <= bytes
    requires |before| == SECOND_BUFFER && Carries(line, SECOND_BUFFER)
    requires Honest(s, BitsSet(Reach(call.addr), |call.src|, bytes), line)
    ensures Agrees(s, call, WritingBits(Code(call), |call.src|, echo, before, line),
                   BitsSet(Reach(call.addr), |call.src|, bytes))
            <==> Suits(s, call)
  {
    hide Finish, Refusal, RequestPdu, Code, Honest, BitsWritten, PackBits, Normal, BitsOrder, Obeyed;
    var at, nb := Reach(call.addr), |call.src|;
    assert echo[..5] == echo;
    RefusalFails(call, ILLEGAL_DATA_VALUE);
    RefusalFails(call, ILLEGAL_DATA_ADDRESS);
    FinishWrite(call, echo);
    if nb > 0 {
      HonestBitWrites(s, before, at, nb, bytes, line);
      BitsObeyed(s, call, bytes);
    } else {
      NothingObeyed(s);
    }
  }

  lemma NothingObeyed(s: Store)
    ensures Obeyed(s, Nothing) == s
  {
  }

  lemma BitsObeyed(s: Store, call: Call, bytes: seq<byte>)
    requires !TooMuch(call) && call.WriteBits? && call.src != []
    requires |bytes| >= MAX_PDU - 6 && PackBits(Normal(call.src)) <= bytes
    ensures var at, nb := Reach(call.addr), |call.src|;
            var left, told := Obeyed(s, BitsSet(at, nb, bytes)), Normal(call.src)[..nb % 256];
            && (nb <= 255 ==> told == Normal(call.src))
            && left.registers == s.registers
            && (at + nb % 256 > |s.coils| ==> left == s)
            && (at + nb % 256 <= |s.coils| ==>
                  left.coils == Put(s.coils, at, told) && (left == s <==> s.coils[at..at + nb % 256] == told))
  {
    hide PackBits, UnpackBits, Normal, Reach;
    var at, nb := Reach(call.addr), |call.src|;
    UnpackPrefix(Normal(call.src), bytes);
    UnpackFewer(bytes, nb, nb % 256);
    if at + nb % 256 <= |s.coils| {
      PutSame(s.coils, at, Normal(call.src)[..nb % 256]);
    }
  }

  lemma UnpackFewer(bytes: seq<byte>, nb: nat, few: nat)
    requires ByteCount(nb) <= |bytes| && few <= nb
    ensures ByteCount(few) <= |bytes| && UnpackBits(bytes, few) == UnpackBits(bytes, nb)[..few]
  {
    hide ByteBits;
  }

  lemma WriteRegistersAgree(s: Store, call: Call, bytes: seq<byte>, echo: seq<byte>, before: seq<byte>, line: Wire)
    requires !TooMuch(call) && call.WriteRegisters? && echo == RequestPdu(call)[..5]
    requires |bytes| >= MAX_PDU - 6 && RegisterBytes(call.values) <= bytes
    requires |before| == SECOND_BUFFER && Carries(line, SECOND_BUFFER)
    requires Honest(s, RegistersSet(Reach(call.addr), |call.values|, bytes), line)
    ensures Agrees(s, call, WritingRegisters(Code(call), |call.values|, echo, before, line),
                   RegistersSet(Reach(call.addr), |call.values|, bytes))
  {
    hide Finish, Refusal, RequestPdu, Code, Honest, RegsWritten, RegisterBytes, BytesRegisters;
    var at, nb := Reach(call.addr), |call.values|;
    assert echo[..5] == echo;
    RefusalFails(call, ILLEGAL_DATA_VALUE);
    RefusalFails(call, ILLEGAL_DATA_ADDRESS);
    FinishWrite(call, echo);
    RegistersPrefix(call.values, bytes);
    if nb > 0 {
      HonestWrites(s, before, at, call.values, line);
    }
  }

  /** A client that calls a board through the gateway gets what the operation itself gives on the board's cells, which
      change accordingly, if and only if the call suits the board. */
  lemma ClientSeesBoard(s: Store, call: Call, p: seq<byte>, before: seq<byte>, line: Wire)
    requires !TooMuch(call) && |p| >= MAX_PDU && RequestPdu(call) <= p
    requires |before| == SECOND_BUFFER && Carries(line, SECOND_BUFFER)
    requires Honest(s, Ordering(p, Reach(call.addr)), line)
    ensures Agrees(s, call, Serving(p, Reach(call.addr), before, line), Ordering(p, Reach(call.addr))) <==> Suits(s, call)
  {
    hide Agrees, Suits, RequestPdu, Payload, Word, Honest, ReadingBits, ReadingRegisters, WritingBit, WritingRegister,
      WritingBits, WritingRegisters, BitsAsked, RegistersAsked, BitSet, BitsSet, RegistersSet, PackBits, RegisterBytes;
    PayloadAt(call, p);
    RequestHead(call, p);
    match call
    case ReadBits(_, _) => ReadBitsAgree(s, call, before, line);
    case ReadInputBits(_, _) => ReadBitsAgree(s, call, before, line);
    case ReadRegisters(_, _) => ReadRegistersAgree(s, call, before, line); SuitsRegisters(s, call);
    case ReadInputRegisters(_, _) => ReadRegistersAgree(s, call, before, line); SuitsRegisters(s, call);
    case WriteBit(_, _) => WriteBitAgrees(s, call, p[..5], line);
    case WriteRegister(_, _) => WriteRegisterAgrees(s, call, p[..5], before, line); SuitsRegisters(s, call);
    case WriteBits(_, src) => WriteBitsPayload(call, p); WriteBitsAgree(s, call, p[6..], p[..5], before, line);
    case WriteRegisters(_, values) =>
      WriteRegistersPayload(call, p);
      WriteRegistersAgree(s, call, p[6..], p[..5], before, line);
      SuitsRegisters(s, call);
    case MaskWrite(_, _, _) => MissingFunctionAgrees(s, call);
    case WriteAndRead(_, _, _, _) => MissingFunctionAgrees(s, call);
  }

  lemma SuitsRegisters(s: Store, call: Call)
    requires call.ReadRegisters? || call.ReadInputRegisters? || call.WriteRegister? || call.WriteRegisters?
    ensures Suits(s, call)
  {
  }

  lemma MissingFunctionAgrees(s: Store, call: Call)
    requires !TooMuch(call) && (call.MaskWrite? || call.WriteAndRead?)
    ensures Agrees(s, call, Refusal(Code(call), ILLEGAL_FUNCTION), Nothing) <==> Suits(s, call)
  {
    hide Finish, Refusal, Code, Choose;
    RefusalFails(call, ILLEGAL_FUNCTION);
  }

  // ----- at another address -----

  /** The same call at another address. */
  function At(call: Call, reg: word): (moved: Call)
    ensures TooMuch(moved) == TooMuch(call) && Code(moved) == Code(call) && Field(moved) == Field(call)
  {
    call.(addr := reg)
  }

  function Moved(p: seq<byte>, reg: word): (q: seq<byte>)
    requires |p| >= 5
    ensures |q| == |p|
  {
    p[1 := Hi(reg)][2 := Lo(reg)]
  }

  lemma RequestMoved(call: Call, reg: word, p: seq<byte>)
    requires !TooMuch(call) && RequestPdu(call) <= p
    ensures RequestPdu(At(call, reg)) <= Moved(p, reg)
    ensures Moved(p, reg)[0] == p[0] && Moved(p, reg)[3] == p[3] && Moved(p, reg)[4] == p[4] && Moved(p, reg)[5..] == p[5..]
  {
    hide Payload, Hi, Lo;
    assert Payload(At(call, reg)) == Payload(call) by {
      SamePayload(call, reg);
    }
    var q: seq<byte>, q': seq<byte> := RequestPdu(call), RequestPdu(At(call, reg));
    assert q' == q[1 := Hi(reg)][2 := Lo(reg)];
  }

  lemma SamePayload(call: Call, reg: word)
    requires !TooMuch(call)
    ensures Payload(At(call, reg)) == Payload(call)
  {
    hide PackBits, RegisterBytes, Normal, Hi, Lo;
  }

  /** What a client makes of an answer does not depend on the address it asked for. */
  lemma FinishMoved(call: Call, reg: word, r: seq<byte>)
    requires !TooMuch(call) && |r| >= 2
    ensures Finish(At(call, reg), r) == Finish(call, r)
  {
    RequestHead(call, RequestPdu(call));
    RequestHead(At(call, reg), RequestPdu(At(call, reg)));
    hide RequestPdu, UnpackBits, BytesRegisters, Confirm;
    SameConfirmation(RequestPdu(call), RequestPdu(At(call, reg)), r);
  }

  lemma SameConfirmation(q: seq<byte>, q': seq<byte>, r: seq<byte>)
    requires |q| >= 5 && |q'| >= 5 && |r| >= 2 && q[0] == q'[0] && Word(q[3], q[4]) == Word(q'[3], q'[4])
    ensures Confirm(q, r) == Confirm(q', r)
  {
    hide Word, ByteCount;
  }

  /** The board's part is told from the function, the count and what follows it. */
  lemma ServingMoved(p: seq<byte>, reg: word, address: word, before: seq<byte>, line: Wire)
    requires |p| >= MAX_PDU && |before| == SECOND_BUFFER && Carries(line, SECOND_BUFFER)
    ensures var q := Moved(p, reg);
            && Ordering(q, address) == Ordering(p, address)
            && (Serving(q, address, before, line) == Serving(p, address, before, line)
                || (p[0] in {5, 6, 15, 16} && Serving(q, address, before, line) == q[..5]
                    && Serving(p, address, before, line) == p[..5]))
  {
    hide BitsRead, RegsRead, RegsWritten, BitsWritten, BitWritten, ReadingBits, ReadingRegisters, Word, Refusal, Hi, Lo,
      BitsAsked, RegistersAsked, BitSet, BitsSet, RegistersSet;
    var q := Moved(p, reg);
    assert q[6..] == p[6..] && q[0] == p[0] && q[3] == p[3] && q[4] == p[4];
  }

  lemma EchoMoved(call: Call, reg: word, p: seq<byte>)
    requires !TooMuch(call) && |p| >= MAX_PDU && RequestPdu(call) <= p && p[0] in {5, 6, 15, 16}
    ensures Finish(At(call, reg), Moved(p, reg)[..5]) == Finish(call, p[..5])
  {
    RequestHead(call, p);
    RequestMoved(call, reg, p);
    assert IsWrite(call) && !call.MaskWrite?;
    hide RequestPdu, Finish, Moved;
    assert p[..5][..5] == RequestPdu(call)[..5];
    FinishWrite(call, p[..5]);
    assert Moved(p, reg)[..5][..5] == RequestPdu(At(call, reg))[..5];
    FinishWrite(At(call, reg), Moved(p, reg)[..5]);
  }

  /** The same for a call that reaches the board at another address than the one in the request. */
  lemma ClientSeesBoardAt(s: Store, call: Call, reg: word, p: seq<byte>, before: seq<byte>, line: Wire)
    requires !TooMuch(call) && |p| >= MAX_PDU && RequestPdu(call) <= p
    requires |before| == SECOND_BUFFER && Carries(line, SECOND_BUFFER)
    requires Honest(s, Ordering(p, reg), line)
    ensures var pdu := Serving(p, reg, before, line);
            && Finish(call, pdu) == Finish(At(call, reg), pdu)
            && (Agrees(s, At(call, reg), pdu, Ordering(p, reg)) <==> Suits(s, At(call, reg)))
  {
    hide Serving, Ordering, Honest, Suits, Finish, RequestPdu, Moved, Direct, Obeyed;
    var q, pdu := Moved(p, reg), Serving(p, reg, before, line);
    RequestMoved(call, reg, p);
    ServingMoved(p, reg, reg, before, line);
    ClientSeesBoard(s, At(call, reg), q, before, line);
    FinishMoved(call, reg, pdu);
    if Serving(q, reg, before, line) != pdu {
      EchoMoved(call, reg, p);
    }
  }

  // ----- where the calls do not suit -----

  /** Every read of more than 255 coils is refused, whatever the board says. */
  lemma LongReadRefused(call: Call, p: seq<byte>, before: seq<byte>, line: Wire)
    requires !TooMuch(call) && (call.ReadBits? || call.ReadInputBits?) && call.nb > 255
    requires |p| >= MAX_PDU && RequestPdu(call) <= p && |before| == SECOND_BUFFER && Carries(line, SECOND_BUFFER)
    ensures Finish(call, Serving(p, Reach(call.addr), before, line)) == Failed(Exception(ILLEGAL_DATA_ADDRESS))
  {
    hide RequestPdu, Payload, Word, BitsRead, Finish;
    PayloadAt(call, p);
    RequestHead(call, p);
    RefusedAs(call, ILLEGAL_DATA_ADDRESS);
  }

  lemma RefusedAs(call: Call, code: byte)
    requires !TooMuch(call) && code < EXCEPTION_MAX
    ensures Finish(call, Refusal(Code(call), code)) == Failed(Exception(code))
  {
    hide Finish, Code, Lo;
    RefusedIsFailed(Mapping(Table(0, []), Table(0, []), Table(0, []), Table(0, [])), call, code);
    CodeRange(call);
  }

  /** A write of more than 255 coils is refused, too, and yet the board is told to write as many cells as the low
      byte of the count says. */
  lemma LongWriteCut(call: Call, p: seq<byte>, before: seq<byte>, line: Wire)
    requires !TooMuch(call) && call.WriteBits? && |call.src| > 255
    requires |p| >= MAX_PDU && RequestPdu(call) <= p && |before| == SECOND_BUFFER && Carries(line, SECOND_BUFFER)
    ensures Finish(call, Serving(p, Reach(call.addr), before, line)) == Failed(Exception(ILLEGAL_DATA_ADDRESS))
    ensures Ordering(p, Reach(call.addr))
            == BitsGiven(Reach(call.addr), (|call.src| + 15) / 16, Normal(call.src)[..|call.src| % 256])
  {
    hide RequestPdu, Payload, Word, Finish, PackBits, Serving, Ordering, WritingBits, BitsSet, Normal;
    PayloadAt(call, p);
    RequestHead(call, p);
    WriteBitsPayload(call, p);
    WriteDispatched(call, p, before, line);
    RefusedAs(call, ILLEGAL_DATA_ADDRESS);
    LongWriteAnswered(call, p[..5], before, line);
    LongWriteTold(call, p[6..]);
  }

  lemma WriteDispatched(call: Call, p: seq<byte>, before: seq<byte>, line: Wire)
    requires call.WriteBits? && |p| >= MAX_PDU && |before| == SECOND_BUFFER && Carries(line, SECOND_BUFFER)
    requires p[0] == Code(call)
    ensures Serving(p, Reach(call.addr), before, line) == WritingBits(Code(call), Word(p[3], p[4]), p[..5], before, line)
    ensures Ordering(p, Reach(call.addr)) == BitsSet(Reach(call.addr), Word(p[3], p[4]), p[6..])
  {
    hide WritingBits, BitsSet, Word, Reach;
  }

  lemma LongWriteAnswered(call: Call, echo: seq<byte>, before: seq<byte>, line: Wire)
    requires !TooMuch(call) && call.WriteBits? && |call.src| > 255
    requires |before| == SECOND_BUFFER && Carries(line, SECOND_BUFFER)
    ensures Reach(Field(call)) == |call.src|
    ensures WritingBits(Code(call), |call.src|, echo, before, line) == Refusal(Code(call), ILLEGAL_DATA_ADDRESS)
  {
    hide BitsWritten, Refusal;
  }

  lemma LongWriteTold(call: Call, bytes: seq<byte>)
    requires !TooMuch(call) && call.WriteBits? && |call.src| > 255
    requires |bytes| >= MAX_PDU - 6 && PackBits(Normal(call.src)) <= bytes
    ensures BitsSet(Reach(call.addr), |call.src|, bytes)
            == BitsGiven(Reach(call.addr), (|call.src| + 15) / 16, Normal(call.src)[..|call.src| % 256])
  {
    hide PackBits, UnpackBits, Normal, Reach;
    UnpackPrefix(Normal(call.src), bytes);
    UnpackFewer(bytes, |call.src|, |call.src| % 256);
  }

  /** A write to a coil that is not there is confirmed. */
  lemma MissingCoilConfirmed(s: Store, call: Call, p: seq<byte>, before: seq<byte>, line: Wire)
    requires call.WriteBit? && Reach(call.addr) >= |s.coils|
    requires |p| >= MAX_PDU && RequestPdu(call) <= p && |before| == SECOND_BUFFER && Carries(line, SECOND_BUFFER)
    requires Honest(s, Ordering(p, Reach(call.addr)), line)
    ensures Finish(call, Serving(p, Reach(call.addr), before, line)) == Written(1)
    ensures Direct(AsMapping(s), call).outcome.Failed?
  {
    hide RequestPdu, Payload, Word, Finish, JudgeHeader, Honest, WritingBit, BitSet, Code, Field, Reach;
    PayloadAt(call, p);
    RequestHead(call, p);
    OneBitCode(call);
    EchoConfirms(s, call, p[..5], line);
  }

  lemma OneBitCode(call: Call)
    requires call.WriteBit?
    ensures Code(call) == WRITE_SINGLE_COIL
  {
  }

  lemma EchoConfirms(s: Store, call: Call, echo: seq<byte>, line: Wire)
    requires call.WriteBit? && echo == RequestPdu(call)[..5] && Carries(line, SECOND_BUFFER)
    requires Honest(s, BitSet(Reach(call.addr), Reach(Field(call))), line)
    ensures WritingBit(Code(call), Reach(call.addr), Reach(Field(call)), echo, line) == echo
    ensures Finish(call, echo) == Written(1)
  {
    hide Finish, RequestPdu, Code, JudgeHeader;
    assert echo[..5] == echo;
    FinishWrite(call, echo);
  }

  /** 300 coils of a board that has them. */
  lemma ThreeHundredCoils(cells: seq<bool>, src: seq<byte>)
    requires |cells| == |src| == 300
    ensures var s := Store(cells, []);
            && Direct(AsMapping(s), ReadBits(0, 300)).outcome == Bits(cells) && !Suits(s, ReadBits(0, 300))
            && Direct(AsMapping(s), WriteBits(0, src)).outcome == Written(300) && !Suits(s, WriteBits(0, src))
  {
    assert cells[0..300] == cells;
  }

  // ----- what is refused -----

  predicate RefusedWith(pdu: seq<byte>, p: seq<byte>, code: byte)
    requires p != []
  {
    pdu == [(p[0] as int + 128) % 256, code]
  }

  /** What the board did is less than what was asked for. */
  predicate FallsShort(p: seq<byte>, address: word, before: seq<byte>, line: Wire)
    requires |p| >= 253 && |before| == SECOND_BUFFER && Carries(line, SECOND_BUFFER)
  {
    hide BitsRead, RegsRead, RegsWritten, BitsWritten;
    var fc, count := p[0], Number(p, 3);
    if fc in {1, 2} then BitsRead(before, address, count, line) < count
    else if fc in {3, 4} then count <= 125 && RegsRead(before, address, count, line) != count
    else if fc == 6 then RegsWritten(before, 1, line) != 1
    else if fc == 15 then BitsWritten(before, count, line) != count
    else fc == 16 && count <= 123 && RegsWritten(before, count, line) != count
  }

  predicate RefusedRight(p: seq<byte>, address: word, before: seq<byte>, line: Wire, a: seq<byte>)
    requires |p| >= 253 && |before| == SECOND_BUFFER && Carries(line, SECOND_BUFFER) && |a| >= 2
  {
    && (RefusedWith(a, p, 3) <==> Unsuitable(p) && p[0] != 23)
    && (RefusedWith(a, p, 1) <==> p[0] !in {1, 2, 3, 4, 5, 6, 15, 16, 17})
    && (RefusedWith(a, p, 4) <==> p[0] == 5 && !Unsuitable(p) && address != 1004 && BitWritten(line) != 1)
    && (RefusedWith(a, p, 2) <==>
          p[0] in {1, 2, 3, 4, 6, 15, 16} && !Unsuitable(p) && FallsShort(p, address, before, line))
    && (p[0] in {5, 6, 15, 16} && a[0] == p[0] ==> a == p[..5])
  }

  lemma ReadsRefused(p: seq<byte>, address: word, before: seq<byte>, line: Wire)
    requires |p| >= 253 && |before| == SECOND_BUFFER && Carries(line, SECOND_BUFFER) && p[0] in {1, 2, 3, 4}
    ensures RefusedRight(p, address, before, line, Serving(p, address, before, line))
  {
    hide ReadingBits, ReadingRegisters, BitsRead, RegsRead, BitWritten;
    if p[0] in {1, 2} {
      ReadBitsVerdict(p[0], address, Number(p, 3), before, line);
    } else {
      ReadRegistersVerdict(p[0], address, Number(p, 3), before, line);
    }
  }

  lemma ReadBitsVerdict(fc: byte, address: word, count: word, before: seq<byte>, line: Wire)
    requires |before| == SECOND_BUFFER && Carries(line, SECOND_BUFFER)
    ensures var a := ReadingBits(fc, address, count, before, line);
            if !(1 <= count <= 2000) then a == Refusal(fc, 3)
            else if BitsRead(before, address, count, line) < count then a == Refusal(fc, 2)
            else |a| > 2 && a[0] == fc
  {
    hide BitsRead, Buffer;
  }

  lemma ReadRegistersVerdict(fc: byte, address: word, count: word, before: seq<byte>, line: Wire)
    requires |before| == SECOND_BUFFER && Carries(line, SECOND_BUFFER)
    ensures var a := ReadingRegisters(fc, address, count, before, line);
            if !(1 <= count <= 125) then a == Refusal(fc, 3)
            else if RegsRead(before, address, count, line) != count then a == Refusal(fc, 2)
            else |a| > 2 && a[0] == fc
  {
    hide RegsRead, GotRegisters, Swapped;
  }

  lemma WritesRefused(p: seq<byte>, address: word, before: seq<byte>, line: Wire)
    requires |p| >= 253 && |before| == SECOND_BUFFER && Carries(line, SECOND_BUFFER) && p[0] in {5, 6, 15, 16}
    ensures RefusedRight(p, address, before, line, Serving(p, address, before, line))
  {
    hide BitWritten, RegsWritten, BitsWritten;
  }

  lemma OthersRefused(p: seq<byte>, address: word, before: seq<byte>, line: Wire)
    requires |p| >= 253 && |before| == SECOND_BUFFER && Carries(line, SECOND_BUFFER)
    requires p[0] !in {1, 2, 3, 4, 5, 6, 15, 16}
    ensures RefusedRight(p, address, before, line, Serving(p, address, before, line))
  {
    hide BitWritten, BOARD_IDENTITY;
    IdentityLength();
  }

  /** For any request bytes and whatever the line does: exception 3 exactly for an unsuitable value or count, 1 exactly for
      an unknown function, 4 exactly for a single coil that the board did not take in good order, and 2 exactly where
      the board fell short. The coil that starts programming is never refused, and a write is confirmed with the
      first five bytes of its request. */
  lemma RefusedExactly(p: seq<byte>, address: word, before: seq<byte>, line: Wire)
    requires |p| >= 253 && |before| == SECOND_BUFFER && Carries(line, SECOND_BUFFER)
    ensures var a, fc := Serving(p, address, before, line), p[0];
            && (RefusedWith(a, p, 3) <==> Unsuitable(p) && fc != 23)
            && (RefusedWith(a, p, 1) <==> fc !in {1, 2, 3, 4, 5, 6, 15, 16, 17})
            && (RefusedWith(a, p, 4) <==> fc == 5 && !Unsuitable(p) && address != 1004 && BitWritten(line) != 1)
            && (RefusedWith(a, p, 2) <==>
                  fc in {1, 2, 3, 4, 6, 15, 16} && !Unsuitable(p) && FallsShort(p, address, before, line))
            && (fc in {5, 6, 15, 16} && a[0] == fc ==> a == p[..5])
  {
    hide Serving, RefusedWith, Unsuitable, FallsShort, BitWritten;
    if p[0] in {1, 2, 3, 4} {
      ReadsRefused(p, address, before, line);
    } else if p[0] in {5, 6, 15, 16} {
      WritesRefused(p, address, before, line);
    } else {
      OthersRefused(p, address, before, line);
    }
  }

  /** Function 17: the identifier 181, the run indicator, and "SPI3.1.4". */
  lemma IdentityAnswered(p: seq<byte>, address: word, before: seq<byte>, line: Wire)
    requires |p| >= 253 && |before| == SECOND_BUFFER && Carries(line, SECOND_BUFFER) && p[0] == 17
    ensures Serving(p, address, before, line) == [17, 10, 181, 255, 83, 80, 73, 51, 46, 49, 46, 52]
  {
    IdentityLength();
  }

  /** A single coil is taken in good order if the header that came back has a good checksum and is idle or brings a
      character; where nothing comes back, it is not. */
  lemma CoilTaken(line: Wire)
    requires Carries(line, SECOND_BUFFER)
    ensures BitWritten(line) == 1 <==>
              line.Up? && SpiCrc.Checked(0, line.rx1)
              && (line.rx1[0] == 65 || (line.rx1[0] == 0xFA && line.rx1[2] == 0x55 && line.rx1[3] == 0x0E))
  {
    hide SpiCrc.Checked;
  }

  // ----- answers of an earlier request -----

  /** What the client is answered does not depend on what an earlier reply of the board left in the receive buffer. */
  ghost predicate OwnAnswer(p: seq<byte>, address: word, line: Wire)
    requires |p| >= MAX_PDU && Carries(line, SECOND_BUFFER)
  {
    forall a, b: seq<byte> | |a| == |b| == SECOND_BUFFER :: Serving(p, address, a, line) == Serving(p, address, b, line)
  }

  /** The requests whose answer is taken from the second phase of a reply. */
  predicate Consults(p: seq<byte>)
    requires |p| >= MAX_PDU
  {
    var fc, count := p[0], Word(p[3], p[4]);
    || (fc in {READ_COILS, READ_DISCRETE_INPUTS, WRITE_MULTIPLE_COILS} && 1 <= count <= 255)
    || (fc in {READ_HOLDING_REGISTERS, READ_INPUT_REGISTERS} && 1 <= count <= MAX_READ_REGISTERS)
    || fc == WRITE_SINGLE_REGISTER
    || (fc == WRITE_MULTIPLE_REGISTERS && 1 <= count <= MAX_WRITE_REGISTERS)
  }

  /** With a line that exchanges something or fails, an answer is always that of the own exchange. Where `ioctl` reports
      no bytes, the requests that need a reply are answered from what an earlier one left. */
  lemma OwnAnswerExactly(p: seq<byte>, address: word, line: Wire)
    requires |p| >= MAX_PDU && Carries(line, SECOND_BUFFER)
    ensures OwnAnswer(p, address, line) <==> line.Up? || line.ret < 0 || !Consults(p)
  {
    hide Serving, Word;
    if line.Up? || line.ret < 0 || !Consults(p) {
      forall a, b: seq<byte> | |a| == |b| == SECOND_BUFFER
        ensures Serving(p, address, a, line) == Serving(p, address, b, line)
      {
        SameAnswer(p, address, a, b, line);
      }
    } else {
      var a, b := OtherAnswer(p, address, line);
    }
  }

  lemma SameAnswer(p: seq<byte>, address: word, a: seq<byte>, b: seq<byte>, line: Wire)
    requires |p| >= MAX_PDU && |a| == |b| == SECOND_BUFFER && Carries(line, SECOND_BUFFER)
    requires line.Up? || line.ret < 0 || !Consults(p)
    ensures Serving(p, address, a, line) == Serving(p, address, b, line)
  {
    hide BitsRead, RegsRead, RegsWritten, BitsWritten, Word, Lo, Swapped, GotRegisters, Buffer, Refusal, ByteCount;
    var count := Word(p[3], p[4]);
    if line.Up? || line.ret < 0 {
      SameCounts(address, 1, a, b, line);
      if 1 <= count <= MAX_READ_BITS {
        SameBits(address, count, a, b, line);
      }
      if 1 <= count <= REGS_MAX {
        SameCounts(address, count, a, b, line);
      }
    }
  }

  lemma SameBits(address: word, nb: word, a: seq<byte>, b: seq<byte>, line: Wire)
    requires |a| == |b| == SECOND_BUFFER && Carries(line, SECOND_BUFFER) && (line.Up? || line.ret < 0)
    requires 1 <= nb <= MAX_READ_BITS
    ensures BitsLength(nb) <= 256 && ByteCount(nb) <= 250
    ensures BitsRead(a, address, nb, line) == BitsRead(b, address, nb, line)
    ensures BitsWritten(a, nb, line) == BitsWritten(b, nb, line)
    ensures BitsRead(a, address, nb, line) >= nb ==>
              Buffer(a, ARM_OP_READ_BIT, BitsLength(nb), line)[SIZEOF_HEADER..SIZEOF_HEADER + ByteCount(nb)]
              == Buffer(b, ARM_OP_READ_BIT, BitsLength(nb), line)[SIZEOF_HEADER..SIZEOF_HEADER + ByteCount(nb)]
  {
    hide Return;
    ReturnsFailure(line, BitsLength(nb));
    if line.Up? {
      SameFront(a, b, ARM_OP_READ_BIT, BitsLength(nb), line);
      SameFront(a, b, ARM_OP_WRITE_BITS, BitsLength(nb), line);
    }
  }

  lemma SameCounts(address: word, cnt: word, a: seq<byte>, b: seq<byte>, line: Wire)
    requires |a| == |b| == SECOND_BUFFER && Carries(line, SECOND_BUFFER) && (line.Up? || line.ret < 0)
    requires cnt <= REGS_MAX
    ensures RegsRead(a, address, cnt, line) == RegsRead(b, address, cnt, line)
    ensures RegsWritten(a, cnt, line) == RegsWritten(b, cnt, line)
    ensures line.Up? ==> GotRegisters(cnt, a, line) == GotRegisters(cnt, b, line)
    ensures line.Down? ==> RegsRead(a, address, cnt, line) < 0
  {
    hide Return;
    ReturnsFailure(line, RegsLength(cnt));
    if line.Up? {
      SameFront(a, b, ARM_OP_READ_REG, RegsLength(cnt), line);
      SameFront(a, b, ARM_OP_WRITE_REG, RegsLength(cnt), line);
    }
  }

  lemma ReturnsFailure(line: Wire, len2: nat)
    requires Carries(line, SECOND_BUFFER) && Rounded(len2) + CRC_SIZE <= SECOND_BUFFER
    ensures line.Down? ==> Result(len2, line) == line.ret
  {
  }

  lemma SameFront(a: seq<byte>, b: seq<byte>, op: byte, len2: nat, line: Wire)
    requires |a| == |b| == SECOND_BUFFER && Carries(line, SECOND_BUFFER) && line.Up?
    requires SIZEOF_HEADER <= len2 && Rounded(len2) + CRC_SIZE <= SECOND_BUFFER
    ensures var s, t := Buffer(a, op, len2, line), Buffer(b, op, len2, line);
            && s[0] == t[0] && s[1] == t[1] && s[2] == t[2] && s[3] == t[3]
            && forall n: nat | SIZEOF_HEADER <= n <= len2 :: s[SIZEOF_HEADER..n] == t[SIZEOF_HEADER..n]
  {
    var total := Rounded(len2) + CRC_SIZE;
    assert Buffer(a, op, len2, line)[..total] == line.rx2[..total] == Buffer(b, op, len2, line)[..total];
    assert forall k | 0 <= k < total :: Buffer(a, op, len2, line)[k] == line.rx2[k] == Buffer(b, op, len2, line)[k];
  }

  /** A buffer that says that all was done, and one that says that nothing was. */
  lemma OtherAnswer(p: seq<byte>, address: word, line: Wire) returns (a: seq<byte>, b: seq<byte>)
    requires |p| >= MAX_PDU && Carries(line, SECOND_BUFFER) && line.Down? && line.ret == 0 && Consults(p)
    ensures |a| == |b| == SECOND_BUFFER && Serving(p, address, a, line) != Serving(p, address, b, line)
  {
    hide Word, Swapped, ByteCount;
    var count := if p[0] == WRITE_SINGLE_REGISTER then 1 else Word(p[3], p[4]);
    a := [0, count, Lo(address), Hi(address)] + seq(SECOND_BUFFER - SIZEOF_HEADER, _ => 0);
    b := a[1 := 0];
    BytesForBits(count);
  }

  lemma BytesForBits(nb: nat)
    ensures nb > 0 ==> ByteCount(nb) > 0
    ensures nb <= 255 ==> ByteCount(nb) <= 32
  {
  }

  // ----- in place -----

  /** The two bytes of every pair change places. */
  function Swapped(s: seq<byte>): (t: seq<byte>)
    requires |s| % 2 == 0
    ensures |t| == |s|
  {
    seq(|s|, k requires 0 <= k < |s| => if k % 2 == 0 then s[k + 1] else s[k - 1])
  }

  lemma SwappedToWire(values: seq<word>)
    ensures Swapped(HostBytes(values)) == RegisterBytes(values)
  {
    hide Hi, Lo;
    forall k | 0 <= k < 2 * |values|
      ensures Swapped(HostBytes(values))[k] == RegisterBytes(values)[k]
    {
      if k % 2 == 0 {
        assert (k + 1) / 2 == k / 2;
      } else {
        assert (k - 1) / 2 == k / 2;
      }
    }
  }

  lemma SwappedToHost(bytes: seq<byte>)
    requires |bytes| % 2 == 0
    ensures HostRegisters(Swapped(bytes)) == BytesRegisters(bytes, |bytes| / 2)
  {
    hide Word;
  }

  /** The loops that swap the bytes of registers in the buffer. */
  method SwapPairs(rsp: array<byte>, at: nat, nb: nat)
    requires at + 2 * nb <= rsp.Length
    modifies rsp
    ensures rsp[..at] == old(rsp[..at]) && rsp[at..at + 2 * nb] == Swapped(old(rsp[at..at + 2 * nb]))
    ensures rsp[at + 2 * nb..] == old(rsp[at + 2 * nb..])
  {
    ghost var pairs := rsp[at..at + 2 * nb];
    for i := 0 to nb
      invariant rsp[..at] == old(rsp[..at]) && rsp[at + 2 * i..] == old(rsp[at + 2 * i..])
      invariant forall k | 0 <= k < 2 * i :: rsp[at + k] == Swapped(pairs)[k]
    {
      var j := at + 2 * i;
      assert rsp[at + 2 * i..][0] == pairs[2 * i] && rsp[at + 2 * i..][1] == pairs[2 * i + 1];
      var c := rsp[j];
      rsp[j] := rsp[j + 1];
      rsp[j + 1] := c;
    }
  }

  /** The answer stands behind the header. */
  predicate Stands(rsp: seq<byte>, length: nat, pdu: seq<byte>) {
    length == HEADER + |pdu| <= |rsp| && rsp[HEADER..length] == pdu
  }

  /** The identifiers of the request are still in the header. */
  predicate SameCaller(before: seq<byte>, after: seq<byte>)
    requires |before| == |after| == MAX_TCP_ADU
  {
    after[..4] == before[..4] && after[6] == before[6]
  }

  method Refuse(rsp: array<byte>, code: byte) returns (length: nat)
    requires rsp.Length == MAX_TCP_ADU
    modifies rsp
    ensures Stands(rsp[..], length, [Lo(old(rsp[HEADER]) as int + 0x80), code]) && SameCaller(old(rsp[..]), rsp[..])
  {
    rsp[HEADER] := Lo(rsp[HEADER] as int + 0x80);
    rsp[HEADER + 1] := code;
    length := HEADER + 2;
    rsp[4], rsp[5] := Hi(length - 6), Lo(length - 6);
  }

  method ReadBitsReply(arm: ArmHandle, address: word, nb: word, rsp: array<byte>, line: Wire) returns (length: nat)
    requires arm.Valid() && rsp.Length == MAX_TCP_ADU && rsp !in arm.Repr() && Carries(line, SECOND_BUFFER)
    modifies rsp, arm.tx1, arm.tx2, arm.rx1, arm.rx2, arm.queue, arm.queue.buffer
    ensures arm.Valid() && SameCaller(old(rsp[..]), rsp[..])
    ensures Stands(rsp[..], length, ReadingBits(old(rsp[HEADER]), address, nb, old(arm.rx2[..]), line))
    ensures Sends(old(arm.tx1[..]), old(arm.tx2[..]), arm.tx1[..], arm.tx2[..], BitsAsked(address, nb))
  {
    hide ByteCount, Lo, BitsRead, Buffer, Sends, HeaderIn, Uart.HeaderTaken, Uart.Written;
    if nb < 1 || MAX_READ_BITS < nb {
      NothingSent(arm.tx1[..], arm.tx2[..]);
      length := Refuse(rsp, ILLEGAL_DATA_VALUE);
    } else {
      ByteCountFits(nb);
      rsp[HEADER + 1] := Lo(ByteCount(nb));
      ghost var head := rsp[..];
      var n := Boards.ReadBits(arm, address, nb, rsp, HEADER + 2, line);
      if n >= 0 {
        RoomForBits(n);
      }
      ghost var data := BitsIn(arm.rx2[..], n);
      if n >= nb {
        FewerBytes(nb, n);
        length := HEADER + 2 + ByteCount(nb);
        BehindHead(head, rsp[..], data, ByteCount(nb));
        Shorter(arm.rx2[..], SIZEOF_HEADER, ByteCount(n), ByteCount(nb));
      } else {
        HeadKept(head, rsp[..], data);
        length := Refuse(rsp, ILLEGAL_DATA_ADDRESS);
      }
    }
  }

  lemma Shorter(s: seq<byte>, at: nat, n: nat, m: nat)
    requires m <= n && at + n <= |s|
    ensures s[at..at + n][..m] == s[at..at + m]
  {
  }

  lemma FewerBytes(nb: nat, n: nat)
    requires nb <= n
    ensures ByteCount(nb) <= ByteCount(n)
  {
  }

  /** What is copied behind the head of the answer leaves the head. */
  lemma HeadKept(before: seq<byte>, after: seq<byte>, data: seq<byte>)
    requires |before| == |after| == MAX_TCP_ADU && Uart.Written(before, after, HEADER + 2, data)
    ensures after[..HEADER + 2] == before[..HEADER + 2] && after[HEADER] == before[HEADER]
  {
    assert after[..HEADER + 2] == before[..HEADER + 2];
    assert after[..HEADER + 2][HEADER] == before[HEADER];
  }

  lemma BehindHead(before: seq<byte>, after: seq<byte>, data: seq<byte>, n: nat)
    requires |before| == |after| == MAX_TCP_ADU && Uart.Written(before, after, HEADER + 2, data) && n <= |data|
    ensures HEADER + 2 + n <= MAX_TCP_ADU
    ensures after[HEADER..HEADER + 2 + n] == [before[HEADER], before[HEADER + 1]] + data[..n]
    ensures after[..HEADER + 2] == before[..HEADER + 2] && after[HEADER + 2..HEADER + 2 + n] == data[..n]
  {
    assert after[..HEADER + 2] == before[..HEADER + 2];
    assert after[HEADER..HEADER + 2 + n] == before[HEADER..HEADER + 2] + data[..n];
  }

  lemma HeadAndRest(before: seq<byte>, after: seq<byte>, length: nat)
    requires |before| == |after| == MAX_TCP_ADU && HEADER + 2 <= length <= MAX_TCP_ADU
    requires after[..HEADER + 2] == before[..HEADER + 2]
    ensures after[HEADER..length] == [before[HEADER], before[HEADER + 1]] + after[HEADER + 2..length]
    ensures SameCaller(before, after)
  {
    HeadKept(before, after, after[HEADER + 2..]);
    assert after[..HEADER + 2][HEADER + 1] == before[HEADER + 1];
    assert after[..HEADER + 2][..4] == before[..4] && after[..HEADER + 2][6] == before[6];
  }

  method ReadRegistersReply(arm: ArmHandle, address: word, nb: word, rsp: array<byte>, line: Wire) returns (length: nat)
    requires arm.Valid() && rsp.Length == MAX_TCP_ADU && rsp !in arm.Repr() && Carries(line, SECOND_BUFFER)
    modifies rsp, arm.tx1, arm.tx2, arm.rx1, arm.rx2, arm.queue, arm.queue.buffer
    ensures arm.Valid() && SameCaller(old(rsp[..]), rsp[..])
    ensures Stands(rsp[..], length, ReadingRegisters(old(rsp[HEADER]), address, nb, old(arm.rx2[..]), line))
    ensures Sends(old(arm.tx1[..]), old(arm.tx2[..]), arm.tx1[..], arm.tx2[..], RegistersAsked(address, nb))
  {
    hide Lo, RegsRead, Buffer, Sends, SentAs, HeaderIn, Uart.HeaderTaken, Swapped, Uart.Written;
    if nb < 1 || MAX_READ_REGISTERS < nb {
      NothingSent(arm.tx1[..], arm.tx2[..]);
      length := Refuse(rsp, ILLEGAL_DATA_VALUE);
    } else {
      rsp[HEADER + 1] := Lo(2 * nb);
      ghost var head := rsp[..];
      var n := Boards.ReadRegs(arm, address, nb, rsp, HEADER + 2, line);
      if n == nb {
        ghost var data := arm.rx2[SIZEOF_HEADER..SIZEOF_HEADER + 2 * nb];
        ghost var mid := rsp[..];
        BehindHead(head, mid, data, 2 * nb);
        assert data[..2 * nb] == data == GotRegisters(nb, old(arm.rx2[..]), line);
        SwapPairs(rsp, HEADER + 2, nb);
        length := HEADER + 2 + 2 * nb;
        HeadAndRest(head, rsp[..], length);
      } else {
        HeadKept(head, rsp[..], if n < 0 then [] else arm.rx2[SIZEOF_HEADER..SIZEOF_HEADER + 2 * n]);
        length := Refuse(rsp, ILLEGAL_DATA_ADDRESS);
      }
    }
  }

  method WriteBitReply(arm: ArmHandle, address: word, data: word, rsp: array<byte>, line: Wire) returns (length: nat)
    requires arm.Valid() && rsp.Length == MAX_TCP_ADU && rsp !in arm.Repr() && Carries(line, SECOND_BUFFER)
    modifies rsp, arm.tx1, arm.tx2, arm.rx1, arm.rx2, arm.queue, arm.queue.buffer
    ensures arm.Valid() && SameCaller(old(rsp[..]), rsp[..])
    ensures Stands(rsp[..], length, WritingBit(old(rsp[HEADER]), address, data, old(rsp[HEADER..HEADER + 5]), line))
    ensures Sends(old(arm.tx1[..]), old(arm.tx2[..]), arm.tx1[..], arm.tx2[..], BitSet(address, data))
  {
    hide Lo, BitWritten, JudgeHeader, Uart.HeaderTaken, Sends;
    if data != 0xFF00 && data != 0 {
      NothingSent(arm.tx1[..], arm.tx2[..]);
      length := Refuse(rsp, ILLEGAL_DATA_VALUE);
    } else {
      var n := 1;
      if address != FIRMWARE_COIL {
        n := Boards.WriteBit(arm, address, data != 0, line);
      } else {
        NothingSent(arm.tx1[..], arm.tx2[..]);
      }
      if n == 1 {
        length := HEADER + 5;
      } else {
        length := Refuse(rsp, SLAVE_OR_SERVER_FAILURE);
      }
    }
  }

  method WriteRegisterReply(arm: ArmHandle, address: word, data: word, rsp: array<byte>, line: Wire) returns (length: nat)
    requires arm.Valid() && rsp.Length == MAX_TCP_ADU && rsp !in arm.Repr() && Carries(line, SECOND_BUFFER)
    modifies rsp, arm.tx1, arm.tx2, arm.rx1, arm.rx2, arm.queue, arm.queue.buffer
    ensures arm.Valid() && SameCaller(old(rsp[..]), rsp[..])
    ensures Stands(rsp[..], length, WritingRegister(old(rsp[HEADER]), old(rsp[HEADER..HEADER + 5]), old(arm.rx2[..]), line))
    ensures Sends(old(arm.tx1[..]), old(arm.tx2[..]), arm.tx1[..], arm.tx2[..], RegsGiven(address, [data]))
  {
    hide Lo, Hi, Word, RegsWritten, Sends, Answered;
    OneRegister(data);
    var n := Boards.WriteRegs(arm, address, 1, [Lo(data), Hi(data)], line);
    if n == 1 {
      length := HEADER + 5;
    } else {
      length := Refuse(rsp, ILLEGAL_DATA_ADDRESS);
    }
  }

  lemma OneRegister(data: word)
    ensures HostRegisters([Lo(data), Hi(data)]) == [data]
  {
  }

  method WriteBitsReply(arm: ArmHandle, address: word, nb: word, rsp: array<byte>, line: Wire) returns (length: nat)
    requires arm.Valid() && rsp.Length == MAX_TCP_ADU && rsp !in arm.Repr() && Carries(line, SECOND_BUFFER)
    modifies rsp, arm.tx1, arm.tx2, arm.rx1, arm.rx2, arm.queue, arm.queue.buffer
    ensures arm.Valid() && SameCaller(old(rsp[..]), rsp[..])
    ensures Stands(rsp[..], length, WritingBits(old(rsp[HEADER]), nb, old(rsp[HEADER..HEADER + 5]), old(arm.rx2[..]), line))
    ensures Sends(old(arm.tx1[..]), old(arm.tx2[..]), arm.tx1[..], arm.tx2[..], BitsSet(address, nb, old(rsp[HEADER + 6..])))
  {
    hide Lo, ByteCount, BitsOrder, BitsWritten, Sends, Answered;
    if nb < 1 || MAX_WRITE_BITS < nb {
      NothingSent(arm.tx1[..], arm.tx2[..]);
      length := Refuse(rsp, ILLEGAL_DATA_VALUE);
    } else {
      ByteCountFits(nb);
      var n := Boards.WriteBits(arm, address, nb, rsp[HEADER + 6..], line);
      if n == nb {
        length := HEADER + 5;
      } else {
        length := Refuse(rsp, ILLEGAL_DATA_ADDRESS);
      }
    }
  }

  method WriteRegistersReply(arm: ArmHandle, address: word, nb: word, rsp: array<byte>, line: Wire) returns (length: nat)
    requires arm.Valid() && rsp.Length == MAX_TCP_ADU && rsp !in arm.Repr() && Carries(line, SECOND_BUFFER)
    modifies rsp, arm.tx1, arm.tx2, arm.rx1, arm.rx2, arm.queue, arm.queue.buffer
    ensures arm.Valid() && SameCaller(old(rsp[..]), rsp[..])
    ensures Stands(rsp[..], length,
                   WritingRegisters(old(rsp[HEADER]), nb, old(rsp[HEADER..HEADER + 5]), old(arm.rx2[..]), line))
    ensures Sends(old(arm.tx1[..]), old(arm.tx2[..]), arm.tx1[..], arm.tx2[..],
                  RegistersSet(address, nb, old(rsp[HEADER + 6..])))
  {
    hide Lo, Word, Swapped, BytesRegisters, HostRegisters, RegsWritten, Sends, Answered;
    if nb < 1 || MAX_WRITE_REGISTERS < nb {
      NothingSent(arm.tx1[..], arm.tx2[..]);
      length := Refuse(rsp, ILLEGAL_DATA_VALUE);
    } else {
      ghost var before := rsp[..];
      var at := HEADER + 6;
      SwapPairs(rsp, at, nb);
      SwappedToHost(before[at..at + 2 * nb]);
      RegistersOfPrefix(before[at..], nb);
      assert before[at..][..2 * nb] == before[at..at + 2 * nb];
      assert rsp[..HEADER + 6] == before[..HEADER + 6];
      assert SameCaller(before, rsp[..]);
      var n := Boards.WriteRegs(arm, address, nb, rsp[at..at + 2 * nb], line);
      if n == nb {
        length := HEADER + 5;
        assert rsp[HEADER..length] == rsp[..HEADER + 6][HEADER..length];
      } else {
        assert rsp[HEADER] == rsp[..HEADER + 6][HEADER];
        length := Refuse(rsp, ILLEGAL_DATA_ADDRESS);
      }
    }
  }

  lemma RegistersOfPrefix(bytes: seq<byte>, nb: nat)
    requires 2 * nb <= |bytes|
    ensures BytesRegisters(bytes, nb) == BytesRegisters(bytes[..2 * nb], nb)
  {
    hide Word;
  }

  /** The switch of `nb_modbus_reply`. */
  method ArmReply(arm: ArmHandle, address: word, rsp: array<byte>, line: Wire) returns (length: nat)
    requires arm.Valid() && rsp.Length == MAX_TCP_ADU && rsp !in arm.Repr() && Carries(line, SECOND_BUFFER)
    modifies rsp, arm.tx1, arm.tx2, arm.rx1, arm.rx2, arm.queue, arm.queue.buffer
    ensures arm.Valid() && SameCaller(old(rsp[..]), rsp[..])
    ensures Stands(rsp[..], length, Serving(old(rsp[HEADER..]), address, old(arm.rx2[..]), line))
    ensures Sends(old(arm.tx1[..]), old(arm.tx2[..]), arm.tx1[..], arm.tx2[..], Ordering(old(rsp[HEADER..]), address))
  {
    hide ReadingBits, ReadingRegisters, WritingBit, WritingRegister, WritingBits, WritingRegisters, Word, Lo, Stands,
      SameCaller, BitsAsked, RegistersAsked, BitSet, BitsSet, RegistersSet, Sends;
    ghost var before := rsp[..];
    var fc, count := rsp[HEADER], Word(rsp[HEADER + 3], rsp[HEADER + 4]);
    assert before[HEADER..][..5] == before[HEADER..HEADER + 5] && before[HEADER..][6..] == before[HEADER + 6..];
    if fc == READ_COILS || fc == READ_DISCRETE_INPUTS {
      length := ReadBitsReply(arm, address, count, rsp, line);
    } else if fc == READ_HOLDING_REGISTERS || fc == READ_INPUT_REGISTERS {
      length := ReadRegistersReply(arm, address, count, rsp, line);
    } else if fc == WRITE_SINGLE_COIL {
      length := WriteBitReply(arm, address, count, rsp, line);
    } else if fc == WRITE_SINGLE_REGISTER {
      length := WriteRegisterReply(arm, address, count, rsp, line);
    } else if fc == WRITE_MULTIPLE_COILS {
      length := WriteBitsReply(arm, address, count, rsp, line);
    } else if fc == WRITE_MULTIPLE_REGISTERS {
      length := WriteRegistersReply(arm, address, count, rsp, line);
    } else {
      NothingSent(arm.tx1[..], arm.tx2[..]);
      if fc == REPORT_SLAVE_ID {
        length := ReportReply(rsp);
      } else {
        length := Refuse(rsp, ILLEGAL_FUNCTION);
      }
    }
  }

  method ReportReply(rsp: array<byte>) returns (length: nat)
    requires rsp.Length == MAX_TCP_ADU
    modifies rsp
    ensures Stands(rsp[..], length, [old(rsp[HEADER]), Lo(2 + |BOARD_IDENTITY|), REPORT_MB_SLAVE_ID, 0xFF] + BOARD_IDENTITY)
    ensures SameCaller(old(rsp[..]), rsp[..])
  {
    hide BOARD_IDENTITY;
    ghost var before := rsp[..];
    IdentityLength();
    rsp[HEADER + 2], rsp[HEADER + 3] := REPORT_MB_SLAVE_ID, 0xFF;
    var at := HEADER + 4;
    Uart.MemMove(rsp, at, BOARD_IDENTITY);
    length := at + |BOARD_IDENTITY|;
    rsp[HEADER + 1] := Lo(length - (HEADER + 1) - 1);
    assert rsp[at..length] == BOARD_IDENTITY;
    assert rsp[HEADER..at] == [before[HEADER], Lo(2 + |BOARD_IDENTITY|), REPORT_MB_SLAVE_ID, 0xFF];
    assert rsp[HEADER..length] == rsp[HEADER..at] + rsp[at..length];
  }

  lemma IdentityLength()
    ensures |BOARD_IDENTITY| == 8
  {
  }

  /** Unit 0 stands for all boards: hundreds of addresses select one. */
  function Route(unit: byte, address: word): (int, word) {
    if unit != 0 then (unit, address)
    else if address < 1000 then (address / 100 + 1, address % 100)
    else if address < 2000 then ((address - 1000) / 100 + 1, (address - 1000) % 100 + 1000)
    else if address < 3000 then ((address - 2000) / 100 + 1, (address - 2000) % 100 + 2000)
    else (1, address)
  }

  /** In digits: below 3000 the hundreds of an address for unit 0 are the board, counted from 0, and go out of it. */
  lemma RouteIs(unit: byte, address: word)
    ensures Route(unit, address)
            == if unit != 0 then (unit as int, address)
               else if address >= 3000 then (1, address)
               else (address % 1000 / 100 + 1, address - 100 * (address % 1000 / 100))
  {
    if unit == 0 && address < 3000 {
      var base := if address < 1000 then 0 else if address < 2000 then 1000 else 2000;
      var low := address - base;
      assert address % 1000 == low;
      assert low % 100 == low - 100 * (low / 100);
      assert Route(0, address) == (low / 100 + 1, low % 100 + base);
    }
  }

  const MAX_ARMS := 3

  /** The index of the board that is chosen; there is none behind the last one. */
  function Chosen(unit: byte, address: word): (k: nat) {
    Route(unit, address).0 - 1
  }

  function ArmOf(arms: seq<ArmHandle?>, unit: byte, address: word): ArmHandle?
    requires |arms| == MAX_ARMS
  {
    var k := Chosen(unit, address);
    if k < MAX_ARMS then arms[k] else null
  }

  /** Units are boards, at the address as it is; a board of unit 0 is told by the hundreds, and from 3000 on it is the
      first one. */
  lemma ChosenIs(unit: byte, address: word)
    ensures unit != 0 ==> Chosen(unit, address) == unit - 1 && Route(unit, address).1 == address
    ensures unit == 0 && address >= 3000 ==> Chosen(unit, address) == 0 && Route(unit, address).1 == address
    ensures unit == 0 && address < 3000 ==>
              var k := address % 1000 / 100;
              Chosen(unit, address) == k && Route(unit, address).1 == address - 100 * k
  {
    hide Route;
    RouteIs(unit, address);
  }

  /** Unit 0 reaches, with hundreds added to an address, what a unit of its own reaches without: the third hundreds are the
      third board, and there is none from the fourth on. */
  lemma UnitZeroReaches(arms: seq<ArmHandle?>, unit: byte, base: word, address: word)
    requires |arms| == 3 && 1 <= unit <= 10 && base in {0, 1000, 2000} && address < 100
    ensures var far := base + 100 * (unit - 1) + address;
            && Route(0, far) == Route(unit, base + address) == (unit as int, base + address)
            && ArmOf(arms, 0, far) == ArmOf(arms, unit, base + address) == if unit <= 3 then arms[unit - 1] else null
  {
  }

  ghost function Footprint(arm: ArmHandle?): set<object>
    reads arm, if arm == null then {} else {arm.queue}
  {
    if arm == null then {} else arm.Repr()
  }

  /** The handle chosen by the request can be used, and its buffers are not the request's. */
  ghost predicate Usable(arm: ArmHandle?, req: array<byte>)
    reads arm, if arm == null then {} else {arm.queue, arm.queue.buffer}
  {
    arm != null ==> arm.Valid() && req !in arm.Repr()
  }

  /** What a request comes to when it is meant for this board, at this address: the board's answer and order, or
      exception 11 where there is no board. */
  twostate predicate AnsweredBy(arm: ArmHandle?, reg: word, req: array<byte>, length: nat, line: Wire)
    reads req, arm, if arm == null then {} else {arm.queue, arm.queue.buffer, arm.tx1, arm.tx2}
  {
    && req.Length == MAX_TCP_ADU && Carries(line, SECOND_BUFFER)
    && if arm == null then Stands(req[..], length, [(old(req[7]) as int + 128) % 256, 11])
       else
         && old(arm.Valid()) && arm.Valid()
         && Stands(req[..], length, Serving(old(req[7..]), reg, old(arm.rx2[..]), line))
         && Sends(old(arm.tx1[..]), old(arm.tx2[..]), arm.tx1[..], arm.tx2[..], Ordering(old(req[7..]), reg))
  }

  /** From the switch on: the answer for the board that was chosen, with the new length in the header. */
  method BoardReply(arm: ArmHandle?, reg: word, req: array<byte>, line: Wire) returns (length: nat)
    requires req.Length == MAX_TCP_ADU && Carries(line, SECOND_BUFFER) && Usable(arm, req)
    modifies req, Footprint(arm)
    ensures SameCaller(old(req[..]), req[..]) && length >= 6 && req[4] == Hi(length - 6) && req[5] == Lo(length - 6)
    ensures AnsweredBy(arm, reg, req, length, line)
  {
    hide Serving, Ordering, Sends;
    if arm == null {
      length := Refuse(req, GATEWAY_TARGET);
    } else {
      length := ArmReply(arm, reg, req, line);
    }
    ghost var answer := req[..];
    req[4], req[5] := Hi(length - 6), Lo(length - 6);
    assert req[HEADER..] == answer[HEADER..];
    assert req[HEADER..length] == answer[HEADER..length];
  }

  /** `nb_modbus_reply`: the answer replaces the request, its header keeps the identifiers and gets the new length;
      the board that is meant is sent what the request amounts to, and no other one is sent anything. */
  method NbModbusReply(arms: seq<ArmHandle?>, req: array<byte>, line: Wire) returns (length: nat)
    requires |arms| == MAX_ARMS && req.Length == MAX_TCP_ADU && Carries(line, SECOND_BUFFER)
    requires forall arm <- arms :: Usable(arm, req)
    requires forall i, j | 0 <= i < j < MAX_ARMS :: Footprint(arms[i]) !! Footprint(arms[j])
    modifies req, Footprint(ArmOf(arms, req[6], Word(req[8], req[9])))
    ensures SameCaller(old(req[..]), req[..]) && length >= 6 && req[4] == Hi(length - 6) && req[5] == Lo(length - 6)
    ensures var unit, address := old(req[6]), Word(old(req[8]), old(req[9]));
            && (1 <= unit <= 3 ==> AnsweredBy(arms[unit - 1], address, req, length, line))
            && (unit > 3 ==> AnsweredBy(null, address, req, length, line))
            && (unit == 0 && address >= 3000 ==> AnsweredBy(arms[0], address, req, length, line))
            && (unit == 0 && address < 3000 ==>
                  var k := address % 1000 / 100;
                  AnsweredBy(if k < 3 then arms[k] else null, address - 100 * k, req, length, line))
    ensures var unit, address := old(req[6]), Word(old(req[8]), old(req[9]));
            var meant := if unit != 0 then unit as int - 1 else if address < 3000 then address % 1000 / 100 else 0;
            forall k | 0 <= k < 3 && k != meant && arms[k] != null ::
              arms[k].Valid() && arms[k].tx1[..] == old(arms[k].tx1[..]) && arms[k].tx2[..] == old(arms[k].tx2[..])
  {
    hide Word, Route, Chosen, AnsweredBy, SameCaller;
    var unit, address := req[6], Word(req[8], req[9]);
    ChosenIs(unit, address);
    var arm := ArmOf(arms, unit, address);
    ghost var meant: int := if unit != 0 then unit - 1 else if address < 3000 then address % 1000 / 100 else 0;
    assert arm == if meant < 3 then arms[meant] else null;
    assert arm != null ==> arm in arms;
    assert forall k | 0 <= k < 3 && k != meant :: Footprint(arms[k]) !! Footprint(arm);
    assert forall k | 0 <= k < 3 && arms[k] != null :: arms[k] in arms;
    length := BoardReply(arm, Route(unit, address).1, req, line);
  }

  /** The answer to a request with a proper header has a proper header, and the identifiers of the request. */
  lemma AnswerIsAdu(before: seq<byte>, after: seq<byte>, length: nat, tid: word, unit: byte, q: seq<byte>, pdu: seq<byte>)
    requires |before| == |after| == MAX_TCP_ADU && Adu(Tcp, tid, unit, q) <= before && SameCaller(before, after)
    requires Stands(after, length, pdu) && after[4] == Hi(|pdu| + 1) && after[5] == Lo(|pdu| + 1)
    ensures after[..length] == Adu(Tcp, tid, unit, pdu)
  {
    hide Hi, Lo;
    var req := Adu(Tcp, tid, unit, q);
    assert req[6] == before[6] && req[..4] == before[..4];
    assert after[..4] == [req[0], req[1], req[2], req[3]];
    assert after[..HEADER] == after[..4] + [after[4], after[5], after[6]];
    assert after[..length] == after[..HEADER] + after[HEADER..length];
  }
}
