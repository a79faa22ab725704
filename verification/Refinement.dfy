/** What each client call means, without any bytes: the operation applied to the tables themselves.
    And the theorem that going through request, server and confirmation comes to the same. */
module Refinement {
  import opened Bytes
  import opened BitPacking
  import opened Pdu

  datatype Effect = Effect(outcome: Outcome, m: Mapping)

  /** The address a call reaches: its 16 low bits. */
  function Reach(addr: int): word {
    addr % 65536
  }

  function Refused(m: Mapping, code: byte): Effect {
    Effect(Failed(Exception(code)), m)
  }

  function DirectReadBits(m: Mapping, table: Table<bool>, addr: int, nb: nat): Effect {
    if nb == 0 then Refused(m, ILLEGAL_DATA_VALUE)
    else if !table.Holds(Reach(addr), nb) then Refused(m, ILLEGAL_DATA_ADDRESS)
    else Effect(Bits(table.Slice(Reach(addr), nb)), m)
  }

  function DirectReadRegisters(m: Mapping, table: Table<word>, addr: int, nb: nat): Effect {
    if nb == 0 then Refused(m, ILLEGAL_DATA_VALUE)
    else if !table.Holds(Reach(addr), nb) then Refused(m, ILLEGAL_DATA_ADDRESS)
    else Effect(Registers(table.Slice(Reach(addr), nb)), m)
  }

  function DirectWriteBits(m: Mapping, addr: int, cells: seq<bool>): Effect {
    if |cells| == 0 then Refused(m, ILLEGAL_DATA_VALUE)
    else if !m.bits.Holds(Reach(addr), |cells|) then Refused(m, ILLEGAL_DATA_ADDRESS)
    else Effect(Written(|cells|), m.(bits := m.bits.Put(Reach(addr), cells)))
  }

  function DirectWriteRegisters(m: Mapping, addr: int, values: seq<word>): Effect {
    if |values| == 0 then Refused(m, ILLEGAL_DATA_VALUE)
    else if !m.registers.Holds(Reach(addr), |values|) then Refused(m, ILLEGAL_DATA_ADDRESS)
    else Effect(Written(|values|), m.(registers := m.registers.Put(Reach(addr), values)))
  }

  /** Where the AND mask has a 1 the register keeps its bit, elsewhere it takes the bit of the OR mask. */
  function Choose(data: word, andMask: word, orMask: word): (w: word) {
    var d, a, o := ToBits(data, 16), ToBits(andMask, 16), ToBits(orMask, 16);
    var bits := seq(16, k requires 0 <= k < 16 => if a[k] then d[k] else o[k]);
    ToFromBits(bits);
    FitsWord(FromBits(bits));
    FromBits(bits)
  }

  function DirectMaskWrite(m: Mapping, addr: int, andMask: word, orMask: word): Effect {
    if !m.registers.Holds(Reach(addr), 1) then Refused(m, ILLEGAL_DATA_ADDRESS)
    else
      var data := m.registers.cells[Reach(addr) - m.registers.start];
      Effect(Written(1), m.(registers := m.registers.Put(Reach(addr), [Choose(data, andMask, orMask)])))
  }

  function DirectWriteAndRead(m: Mapping, writeAddr: int, values: seq<word>, addr: int, nb: nat): Effect {
    var regs := m.registers;
    if |values| == 0 || nb == 0 then Refused(m, ILLEGAL_DATA_VALUE)
    else if !regs.Holds(Reach(addr), nb) || !regs.Holds(Reach(writeAddr), |values|) then
      Refused(m, ILLEGAL_DATA_ADDRESS)
    else
      var written := regs.Put(Reach(writeAddr), values);
      Effect(Registers(written.Slice(Reach(addr), nb)), m.(registers := written))
  }

  function Direct(m: Mapping, call: Call): Effect {
    if TooMuch(call) then Effect(Failed(TooMuchData), m)
    else match call
      case ReadBits(addr, nb) => DirectReadBits(m, m.bits, addr, nb)
      case ReadInputBits(addr, nb) => DirectReadBits(m, m.inputBits, addr, nb)
      case ReadRegisters(addr, nb) => DirectReadRegisters(m, m.registers, addr, nb)
      case ReadInputRegisters(addr, nb) => DirectReadRegisters(m, m.inputRegisters, addr, nb)
      case WriteBit(addr, status) => DirectWriteBits(m, addr, [status != 0])
      case WriteRegister(addr, value) => DirectWriteRegisters(m, addr, [value % 65536])
      case WriteBits(addr, src) => DirectWriteBits(m, addr, Normal(src))
      case WriteRegisters(addr, values) => DirectWriteRegisters(m, addr, values)
      case MaskWrite(addr, andMask, orMask) => DirectMaskWrite(m, addr, andMask, orMask)
      case WriteAndRead(writeAddr, values, addr, nb) => DirectWriteAndRead(m, writeAddr, values, addr, nb)
  }

  /** A write-and-read call that passes every check of the server although its write range starts
      below the first register. */
  predicate WritesBelowStart(m: Mapping, call: Call) {
    && call.WriteAndRead?
    && 1 <= |call.values| <= MAX_WR_WRITE_REGISTERS && 1 <= call.nb <= MAX_WR_READ_REGISTERS
    && m.registers.Holds(Reach(call.addr), call.nb)
    && Reach(call.writeAddr) < m.registers.start
    && Reach(call.writeAddr) - m.registers.start + |call.values| <= |m.registers.cells|
  }

  /** What the server made of the call's request, and what the client makes of the answer. */
  predicate Refines(m: Mapping, call: Call, answer: Answer)
    requires !TooMuch(call)
  {
    && answer.Answer? && 2 <= |answer.pdu| <= MAX_PDU
    && answer.m == Direct(m, call).m
    && Finish(call, answer.pdu) == Direct(m, call).outcome
  }

  lemma CountBytes(nb: nat)
    requires nb < 65536
    ensures Word(Hi(nb), Lo(nb)) == nb
  {
  }

  lemma AddressBytes(addr: int)
    ensures Word(Hi(addr), Lo(addr)) == Reach(addr)
  {
  }

  /** What the server finds at the head of the receive buffer. */
  lemma RequestHead(call: Call, p: seq<byte>)
    requires !TooMuch(call) && |p| >= 5 && p[..5] == RequestPdu(call)[..5]
    ensures p[0] == Code(call) && Word(p[1], p[2]) == Reach(call.addr) && Word(p[3], p[4]) == Reach(Field(call))
  {
    hide Payload, Code, Field;
    Head5(p, RequestPdu(call));
    AddressBytes(call.addr);
    AddressBytes(Field(call));
  }

  lemma Head5(p: seq<byte>, q: seq<byte>)
    requires |p| >= 5 && |q| >= 5 && p[..5] == q[..5]
    ensures p[0] == q[0] && p[1] == q[1] && p[2] == q[2] && p[3] == q[3] && p[4] == q[4]
  {
    assert forall k | 0 <= k < 5 :: p[k] == p[..5][k] == q[..5][k] == q[k];
  }

  lemma CodeRange(call: Call)
    ensures 0 < Code(call) < 0x80 && Lo(Code(call) + 0x80) == Code(call) + 0x80
  {
  }

  lemma ConfirmRefusal(q: seq<byte>, code: byte)
    requires |q| >= 5 && q[0] < 0x80 && code < EXCEPTION_MAX
    ensures Confirm(q, [q[0] + 0x80, code]) == Rejected(Exception(code))
  {
    hide ResponseLength;
  }

  lemma RefusedIsFailed(m: Mapping, call: Call, code: byte)
    requires !TooMuch(call) && code < EXCEPTION_MAX
    ensures Code(call) < 0x80 && Refuse(m, Code(call), code) == Answer(m, [Code(call) + 0x80, code])
    ensures Finish(call, [Code(call) + 0x80, code]) == Failed(Exception(code))
  {
    CodeRange(call);
    RequestHead(call, RequestPdu(call));
    ConfirmRefusal(RequestPdu(call), code);
    hide RequestPdu, Confirm, Code, Lo;
  }

  lemma ConfirmReadBits(q: seq<byte>, r: seq<byte>)
    requires |q| >= 5 && (q[0] == READ_COILS || q[0] == READ_DISCRETE_INPUTS)
    requires |r| == 2 + ByteCount(Word(q[3], q[4])) && r[0] == q[0] && r[1] == ByteCount(Word(q[3], q[4]))
    ensures Confirm(q, r) == Count(r[1])
  {
  }

  lemma ConfirmReadRegisters(q: seq<byte>, r: seq<byte>)
    requires |q| >= 5
    requires q[0] == READ_HOLDING_REGISTERS || q[0] == READ_INPUT_REGISTERS || q[0] == WRITE_AND_READ_REGISTERS
    requires |r| == 2 + 2 * Word(q[3], q[4]) && r[0] == q[0] && r[1] == 2 * Word(q[3], q[4])
    ensures Confirm(q, r) == Count(Word(q[3], q[4]))
  {
  }

  lemma UnpackPrefix(cells: seq<bool>, bytes: seq<byte>)
    requires PackBits(cells) <= bytes
    ensures UnpackBits(bytes, |cells|) == cells
  {
    hide PackBits, UnpackBits;
    UnpackPacked(cells, bytes[|PackBits(cells)|..]);
    assert bytes == PackBits(cells) + bytes[|PackBits(cells)|..];
  }

  lemma RegistersPrefix(values: seq<word>, bytes: seq<byte>)
    requires RegisterBytes(values) <= bytes
    ensures BytesRegisters(bytes, |values|) == values
  {
    hide RegisterBytes, BytesRegisters;
    RegistersRoundTrip(values, bytes[2 * |values|..]);
    assert bytes == RegisterBytes(values) + bytes[2 * |values|..];
  }

  lemma AfterTwo(x: byte, y: byte, t: seq<byte>)
    ensures var r := [x, y] + t; |r| == 2 + |t| && r[0] == x && r[1] == y && r[2..] == t
  {
  }

  /** The confirmation of a read of bits gives back the cells that were packed into it. */
  lemma FinishReadBits(call: Call, cells: seq<bool>)
    requires !TooMuch(call) && (call.ReadBits? || call.ReadInputBits?) && |cells| == call.nb
    ensures Finish(call, [Code(call), Lo(ByteCount(call.nb))] + PackBits(cells)) == Bits(cells)
  {
    hide PackBits, UnpackBits, Finish, ByteCount, Lo, Code;
    FinishPackedBits(call, PackBits(cells));
    UnpackPrefix(cells, PackBits(cells));
  }

  /** The same for any bytes that hold the cells; what stands in the padding plays no part. */
  lemma FinishPackedBits(call: Call, bytes: seq<byte>)
    requires !TooMuch(call) && (call.ReadBits? || call.ReadInputBits?) && |bytes| == ByteCount(call.nb)
    ensures Finish(call, [Code(call), Lo(ByteCount(call.nb))] + bytes) == Bits(UnpackBits(bytes, call.nb))
  {
    RequestHead(call, RequestPdu(call));
    assert Reach(Field(call)) == call.nb;
    ByteCountFits(call.nb);
    assert Code(call) == READ_COILS || Code(call) == READ_DISCRETE_INPUTS;
    hide UnpackBits, RequestPdu, Confirm, Finish, ByteCount, Lo, Word, Code, Reach, Field;
    var r := [Code(call), Lo(ByteCount(call.nb))] + bytes;
    AfterTwo(Code(call), Lo(ByteCount(call.nb)), bytes);
    ConfirmReadBits(RequestPdu(call), r);
    FinishBits(call, r);
  }

  lemma FinishBits(call: Call, r: seq<byte>)
    requires !TooMuch(call) && (call.ReadBits? || call.ReadInputBits?)
    requires |r| == 2 + ByteCount(call.nb) && Confirm(RequestPdu(call), r).Count?
    ensures Finish(call, r) == Bits(UnpackBits(r[2..], call.nb))
  {
    hide Confirm, RequestPdu, UnpackBits, ByteCount;
  }

  lemma DoubleFits(nb: nat)
    requires nb <= MAX_READ_REGISTERS
    ensures Lo(2 * nb) == 2 * nb
  {
  }

  lemma FinishRegisters(call: Call, r: seq<byte>, nb: nat)
    requires !TooMuch(call) && (call.ReadRegisters? || call.ReadInputRegisters? || call.WriteAndRead?)
    requires |r| == 2 + 2 * nb && Confirm(RequestPdu(call), r) == Count(nb)
    ensures Finish(call, r) == Registers(BytesRegisters(r[2..], nb))
  {
    hide Confirm, RequestPdu, BytesRegisters;
  }

  lemma FinishReadRegisters(call: Call, values: seq<word>)
    requires !TooMuch(call) && (call.ReadRegisters? || call.ReadInputRegisters? || call.WriteAndRead?)
    requires |values| == call.nb
    ensures Finish(call, [Code(call), Lo(2 * call.nb)] + RegisterBytes(values)) == Registers(values)
  {
    RequestHead(call, RequestPdu(call));
    DoubleFits(call.nb);
    assert Reach(Field(call)) == call.nb;
    assert Code(call) in {READ_HOLDING_REGISTERS, READ_INPUT_REGISTERS, WRITE_AND_READ_REGISTERS};
    hide RegisterBytes, BytesRegisters, RequestPdu, Confirm, Finish, Lo, Reach, Field, Word, Code;
    var r := [Code(call), Lo(2 * call.nb)] + RegisterBytes(values);
    AfterTwo(Code(call), Lo(2 * call.nb), RegisterBytes(values));
    ConfirmReadRegisters(RequestPdu(call), r);
    FinishRegisters(call, r, call.nb);
    RegistersPrefix(values, r[2..]);
  }

  lemma ConfirmOneWrite(q: seq<byte>, r: seq<byte>)
    requires |q| >= 5 && |r| >= 5 && r[0] == q[0]
    requires q[0] == WRITE_SINGLE_COIL || q[0] == WRITE_SINGLE_REGISTER || q[0] == MASK_WRITE_REGISTER
    requires |r| == if q[0] == MASK_WRITE_REGISTER then 7 else 5
    ensures Confirm(q, r) == Count(1)
  {
  }

  lemma ConfirmManyWrites(q: seq<byte>, r: seq<byte>)
    requires |q| >= 5 && |r| == 5 && r[0] == q[0] && r[3] == q[3] && r[4] == q[4]
    requires q[0] == WRITE_MULTIPLE_COILS || q[0] == WRITE_MULTIPLE_REGISTERS
    ensures Confirm(q, r) == Count(Word(q[3], q[4]))
  {
    hide Word;
  }

  predicate IsWrite(call: Call) {
    call.WriteBit? || call.WriteRegister? || call.WriteBits? || call.WriteRegisters? || call.MaskWrite?
  }

  lemma FinishWritten(call: Call, r: seq<byte>, rc: nat)
    requires !TooMuch(call) && IsWrite(call) && |r| >= 5 && Confirm(RequestPdu(call), r) == Count(rc)
    ensures Finish(call, r) == Written(rc)
  {
    hide Confirm, RequestPdu;
  }

  /** An echoed request, or one cut after its count, confirms the call. */
  lemma FinishWrite(call: Call, r: seq<byte>)
    requires !TooMuch(call) && IsWrite(call)
    requires |r| == (if call.MaskWrite? then 7 else 5) && r[..5] == RequestPdu(call)[..5]
    ensures Finish(call, r) == Written(if call.WriteBits? || call.WriteRegisters? then Reach(Field(call)) else 1)
  {
    var q := RequestPdu(call);
    RequestHead(call, q);
    Head5(r, q);
    hide RequestPdu, Confirm, Finish, Word, Reach, Field;
    if call.WriteBits? || call.WriteRegisters? {
      ConfirmManyWrites(q, r);
      FinishWritten(call, r, Reach(Field(call)));
    } else {
      ConfirmOneWrite(q, r);
      FinishWritten(call, r, 1);
    }
  }

  function BitTable(m: Mapping, call: Call): Table<bool> {
    if call.ReadInputBits? then m.inputBits else m.bits
  }

  function RegisterTable(m: Mapping, call: Call): Table<word> {
    if call.ReadInputRegisters? then m.inputRegisters else m.registers
  }

  lemma ReadBitsRefines(m: Mapping, call: Call)
    requires !TooMuch(call) && (call.ReadBits? || call.ReadInputBits?)
    ensures Refines(m, call, ServeReadBits(m, BitTable(m, call), Code(call), Reach(call.addr), call.nb))
  {
    hide Finish, PackBits, Refuse, Lo, Reach, Code;
    RefusedIsFailed(m, call, ILLEGAL_DATA_VALUE);
    RefusedIsFailed(m, call, ILLEGAL_DATA_ADDRESS);
    var table := BitTable(m, call);
    if call.nb != 0 && table.Holds(Reach(call.addr), call.nb) {
      FinishReadBits(call, table.Slice(Reach(call.addr), call.nb));
    }
  }

  lemma ReadRegistersRefines(m: Mapping, call: Call)
    requires !TooMuch(call) && (call.ReadRegisters? || call.ReadInputRegisters?)
    ensures Refines(m, call, ServeReadRegisters(m, RegisterTable(m, call), Code(call), Reach(call.addr), call.nb))
  {
    hide Finish, RegisterBytes, Refuse, Lo, Reach, Code;
    RefusedIsFailed(m, call, ILLEGAL_DATA_VALUE);
    RefusedIsFailed(m, call, ILLEGAL_DATA_ADDRESS);
    var table := RegisterTable(m, call);
    if call.nb != 0 && table.Holds(Reach(call.addr), call.nb) {
      FinishReadRegisters(call, table.Slice(Reach(call.addr), call.nb));
    }
  }

  lemma WriteBitRefines(m: Mapping, call: Call, echo: seq<byte>)
    requires call.WriteBit? && echo == RequestPdu(call)[..5]
    ensures Refines(m, call, ServeWriteBit(m, Code(call), Reach(call.addr), Reach(Field(call)), echo))
  {
    assert echo[..5] == echo;
    assert Reach(Field(call)) == if call.status != 0 then 0xFF00 else 0;
    hide Finish, Refuse, RequestPdu, Code, Reach, Field;
    RefusedIsFailed(m, call, ILLEGAL_DATA_ADDRESS);
    FinishWrite(call, echo);
  }

  lemma WriteRegisterRefines(m: Mapping, call: Call, echo: seq<byte>)
    requires call.WriteRegister? && echo == RequestPdu(call)[..5]
    ensures Refines(m, call, ServeWriteRegister(m, Code(call), Reach(call.addr), Reach(Field(call)), echo))
  {
    assert echo[..5] == echo;
    hide Finish, Refuse, RequestPdu, Code;
    RefusedIsFailed(m, call, ILLEGAL_DATA_ADDRESS);
    FinishWrite(call, echo);
  }

  lemma WriteBitsRefines(m: Mapping, call: Call, bytes: seq<byte>, echo: seq<byte>)
    requires !TooMuch(call) && call.WriteBits? && echo == RequestPdu(call)[..5]
    requires |bytes| >= MAX_PDU - 6 && PackBits(Normal(call.src)) <= bytes
    ensures Refines(m, call, ServeWriteBits(m, Code(call), Reach(call.addr), |call.src|, bytes, echo))
  {
    var n := |call.src|;
    hide Finish, Refuse, RequestPdu, Code, PackBits, UnpackBits, Reach, Normal, Table<bool>.Holds, Table<bool>.Put;
    if n == 0 {
      RefusedIsFailed(m, call, ILLEGAL_DATA_VALUE);
    } else if !m.bits.Holds(Reach(call.addr), n) {
      RefusedIsFailed(m, call, ILLEGAL_DATA_ADDRESS);
    } else {
      WrittenBitsRefine(m, call, bytes, echo);
    }
  }

  lemma WrittenBitsRefine(m: Mapping, call: Call, bytes: seq<byte>, echo: seq<byte>)
    requires !TooMuch(call) && call.WriteBits? && echo == RequestPdu(call)[..5]
    requires |bytes| >= MAX_PDU - 6 && PackBits(Normal(call.src)) <= bytes
    requires call.src != [] && m.bits.Holds(Reach(call.addr), |call.src|)
    ensures Refines(m, call, ServeWriteBits(m, Code(call), Reach(call.addr), |call.src|, bytes, echo))
  {
    assert echo[..5] == echo;
    assert Reach(Field(call)) == |call.src|;
    hide Finish, Refuse, RequestPdu, Code, PackBits, UnpackBits, Reach, Normal;
    FinishWrite(call, echo);
    UnpackPrefix(Normal(call.src), bytes);
  }

  lemma WriteRegistersRefines(m: Mapping, call: Call, bytes: seq<byte>, echo: seq<byte>)
    requires !TooMuch(call) && call.WriteRegisters? && echo == RequestPdu(call)[..5]
    requires |bytes| >= MAX_PDU - 6 && RegisterBytes(call.values) <= bytes
    ensures Refines(m, call, ServeWriteRegisters(m, Code(call), Reach(call.addr), |call.values|, bytes, echo))
  {
    assert echo[..5] == echo;
    assert Reach(Field(call)) == |call.values|;
    hide Finish, Refuse, RequestPdu, Code, RegisterBytes, BytesRegisters, Reach;
    RefusedIsFailed(m, call, ILLEGAL_DATA_VALUE);
    RefusedIsFailed(m, call, ILLEGAL_DATA_ADDRESS);
    FinishWrite(call, echo);
    RegistersPrefix(call.values, bytes);
  }

  lemma MaskIsChoice(data: word, andMask: word, orMask: word)
    ensures Mask(data, andMask, orMask) == Choose(data, andMask, orMask)
  {
    var d, a, o := ToBits(data, 16), ToBits(andMask, 16), ToBits(orMask, 16);
    assert MaskBits(d, a, o) == seq(16, k requires 0 <= k < 16 => if a[k] then d[k] else o[k]);
  }

  lemma MaskWriteRefines(m: Mapping, call: Call, echo: seq<byte>)
    requires call.MaskWrite? && |echo| == 7 && echo[..5] == RequestPdu(call)[..5]
    ensures Refines(m, call, ServeMaskWrite(m, Code(call), Reach(call.addr), call.andMask, call.orMask, echo))
  {
    hide Finish, Refuse, RequestPdu, Code, Reach, Mask, Choose;
    RefusedIsFailed(m, call, ILLEGAL_DATA_ADDRESS);
    FinishWrite(call, echo);
    if m.registers.Holds(Reach(call.addr), 1) {
      MaskIsChoice(m.registers.Slice(Reach(call.addr), 1)[0], call.andMask, call.orMask);
    }
  }

  function ServedWriteAndRead(m: Mapping, call: Call, bytes: seq<byte>): Answer
    requires !TooMuch(call) && call.WriteAndRead? && |bytes| >= MAX_PDU - 10
  {
    ServeWriteAndRead(m, Code(call), Reach(call.addr), call.nb, Reach(call.writeAddr), |call.values|,
                      2 * |call.values|, bytes)
  }

  lemma WriteAndReadRefines(m: Mapping, call: Call, bytes: seq<byte>)
    requires !TooMuch(call) && call.WriteAndRead?
    requires |bytes| >= MAX_PDU - 10 && RegisterBytes(call.values) <= bytes
    ensures if WritesBelowStart(m, call) then ServedWriteAndRead(m, call, bytes) == OutOfBounds
            else Refines(m, call, ServedWriteAndRead(m, call, bytes))
  {
    hide Finish, Refuse, Code, RegisterBytes, BytesRegisters, Reach;
    RefusedIsFailed(m, call, ILLEGAL_DATA_VALUE);
    RefusedIsFailed(m, call, ILLEGAL_DATA_ADDRESS);
    RegistersPrefix(call.values, bytes);
    var regs, a, w := m.registers, Reach(call.addr), Reach(call.writeAddr);
    if |call.values| > 0 && call.nb > 0 && regs.Holds(a, call.nb) && regs.Holds(w, |call.values|) {
      FinishReadRegisters(call, regs.Put(w, call.values).Slice(a, call.nb));
    }
  }

  /** What follows the basis, as it lies in the receive buffer. */
  lemma PayloadAt(call: Call, p: seq<byte>)
    requires !TooMuch(call) && RequestPdu(call) <= p
    ensures Payload(call) <= p[5..]
    ensures p[..5] == RequestPdu(call)[..5]
  {
    hide Payload, Code, Field;
    var q := RequestPdu(call);
    assert p[5..][..|q| - 5] == p[..|q|][5..] == q[5..] == Payload(call);
  }

  lemma BytesAt(t: seq<byte>, head: seq<byte>, body: seq<byte>, p: seq<byte>)
    requires t == head + body && |p| >= 5 && t <= p[5..]
    ensures forall k | 0 <= k < |head| :: p[5 + k] == head[k]
    ensures body <= p[5 + |head|..]
  {
    assert forall k | 0 <= k < |t| :: p[5 + k] == p[5..][k] == t[k];
    assert forall k | 0 <= k < |body| :: p[5 + |head|..][k] == p[5..][|head| + k] == body[k];
  }

  lemma FiveAt(p: seq<byte>, head: seq<byte>)
    requires |head| == 5 && |p| >= 10 && forall k | 0 <= k < 5 :: p[5 + k] == head[k]
    ensures p[5] == head[0] && p[6] == head[1] && p[7] == head[2] && p[8] == head[3] && p[9] == head[4]
  {
    assert p[5 + 0] == head[0] && p[5 + 1] == head[1] && p[5 + 2] == head[2] && p[5 + 3] == head[3] && p[5 + 4] == head[4];
  }

  lemma WriteAndReadFields(call: Call, p: seq<byte>)
    requires !TooMuch(call) && call.WriteAndRead? && |p| >= 10 && Payload(call) <= p[5..]
    ensures Word(p[5], p[6]) == Reach(call.writeAddr) && Word(p[7], p[8]) == |call.values|
    ensures p[9] == 2 * |call.values| && RegisterBytes(call.values) <= p[10..]
  {
    hide RegisterBytes;
    var head := [Hi(call.writeAddr), Lo(call.writeAddr), Hi(|call.values|), Lo(|call.values|), Lo(2 * |call.values|)];
    assert Payload(call) == head + RegisterBytes(call.values);
    hide Payload;
    BytesAt(Payload(call), head, RegisterBytes(call.values), p);
    FiveAt(p, head);
    AddressBytes(call.writeAddr);
    CountBytes(|call.values|);
    DoubleFits(|call.values|);
  }

  lemma MaskField(call: Call, p: seq<byte>)
    requires call.MaskWrite? && |p| >= 7 && Payload(call) <= p[5..]
    ensures Word(p[5], p[6]) == call.orMask
  {
    BytesAt(Payload(call), Payload(call), [], p);
    assert p[5 + 0] == Hi(call.orMask) && p[5 + 1] == Lo(call.orMask);
    CountBytes(call.orMask);
  }

  lemma PayloadLength(call: Call)
    requires !TooMuch(call)
    ensures |RequestPdu(call)| == 5 + |Payload(call)|
    ensures call.ReadBits? || call.ReadInputBits? ==> |RequestPdu(call)| == 5
    ensures call.ReadRegisters? || call.ReadInputRegisters? ==> |RequestPdu(call)| == 5
    ensures call.WriteBit? || call.WriteRegister? ==> |RequestPdu(call)| == 5
    ensures call.MaskWrite? ==> |RequestPdu(call)| == 7
  {
  }

  /** The server's answer to any call, with any bytes behind the request in its buffer, leaves the
      tables as the operation itself would and gives the client its result - except for the one
      path the range check forgets. */
  lemma ServeRefines(m: Mapping, call: Call, p: seq<byte>)
    requires !TooMuch(call)
    requires |p| >= MAX_PDU && RequestPdu(call) <= p
    ensures if WritesBelowStart(m, call) then Serve(m, p, |RequestPdu(call)|) == OutOfBounds
            else Refines(m, call, Serve(m, p, |RequestPdu(call)|))
  {
    hide Refines, RequestPdu, Word, Payload, ServeReadBits, ServeReadRegisters, ServeWriteBit, ServeWriteRegister,
      ServeWriteBits, ServeWriteRegisters, ServeMaskWrite, ServeWriteAndRead, Refuse, PackBits, RegisterBytes;
    PayloadAt(call, p);
    PayloadLength(call);
    RequestHead(call, p);
    match call
    case ReadBits(_, _) => ReadBitsRefines(m, call);
    case ReadInputBits(_, _) => ReadBitsRefines(m, call);
    case ReadRegisters(_, _) => ReadRegistersRefines(m, call);
    case ReadInputRegisters(_, _) => ReadRegistersRefines(m, call);
    case WriteBit(_, _) => WriteBitRefines(m, call, p[..5]);
    case WriteRegister(_, _) => WriteRegisterRefines(m, call, p[..5]);
    case WriteBits(_, src) => WriteBitsPayload(call, p); WriteBitsRefines(m, call, p[6..], p[..5]);
    case WriteRegisters(_, values) => WriteRegistersPayload(call, p); WriteRegistersRefines(m, call, p[6..], p[..5]);
    case MaskWrite(_, _, _) =>
      assert p[..7][..5] == p[..5];
      MaskField(call, p);
      MaskWriteRefines(m, call, p[..7]);
    case WriteAndRead(_, _, _, _) => WriteAndReadFields(call, p); WriteAndReadRefines(m, call, p[10..]);
  }

  lemma WriteBitsPayload(call: Call, p: seq<byte>)
    requires !TooMuch(call) && call.WriteBits? && |p| >= 6 && Payload(call) <= p[5..]
    ensures PackBits(Normal(call.src)) <= p[6..]
  {
    hide PackBits;
    BytesAt(Payload(call), [Lo(ByteCount(|call.src|))], PackBits(Normal(call.src)), p);
  }

  lemma WriteRegistersPayload(call: Call, p: seq<byte>)
    requires !TooMuch(call) && call.WriteRegisters? && |p| >= 6 && Payload(call) <= p[5..]
    ensures RegisterBytes(call.values) <= p[6..]
  {
    hide RegisterBytes;
    BytesAt(Payload(call), [Lo(2 * |call.values|)], RegisterBytes(call.values), p);
  }
}
