/** Requests and responses without their transport: what a client call asks for, what the server
    answers, and what the client makes of the answer. */
module Pdu {
  import opened Bytes
  import opened BitPacking

  const READ_COILS: byte := 0x01
  const READ_DISCRETE_INPUTS: byte := 0x02
  const READ_HOLDING_REGISTERS: byte := 0x03
  const READ_INPUT_REGISTERS: byte := 0x04
  const WRITE_SINGLE_COIL: byte := 0x05
  const WRITE_SINGLE_REGISTER: byte := 0x06
  const READ_EXCEPTION_STATUS: byte := 0x07
  const WRITE_MULTIPLE_COILS: byte := 0x0F
  const WRITE_MULTIPLE_REGISTERS: byte := 0x10
  const REPORT_SLAVE_ID: byte := 0x11
  const MASK_WRITE_REGISTER: byte := 0x16
  const WRITE_AND_READ_REGISTERS: byte := 0x17

  const MAX_READ_BITS := 2000
  const MAX_WRITE_BITS := 1968
  const MAX_READ_REGISTERS := 125
  const MAX_WRITE_REGISTERS := 123
  const MAX_WR_WRITE_REGISTERS := 121
  const MAX_WR_READ_REGISTERS := 125
  const MAX_PDU := 253

  const ILLEGAL_FUNCTION: byte := 1
  const ILLEGAL_DATA_ADDRESS: byte := 2
  const ILLEGAL_DATA_VALUE: byte := 3
  const EXCEPTION_MAX := 12

  /** "LMB3.1.4" */
  const IDENTITY: seq<byte> := [76, 77, 66, 51, 46, 49, 46, 52]
  const SLAVE_ID: byte := 180

  /** One table of the register map; its first cell has the address `start`. */
  datatype Table<T> = Table(start: nat, cells: seq<T>) {
    predicate Holds(address: word, nb: nat) {
      start <= address && address - start + nb <= |cells|
    }

    function Slice(address: word, nb: nat): (s: seq<T>)
      requires Holds(address, nb)
      ensures |s| == nb
    {
      cells[address - start..address - start + nb]
    }

    function Put(address: word, values: seq<T>): (t: Table<T>)
      requires Holds(address, |values|)
      ensures t.start == start && |t.cells| == |cells|
    {
      var at := address - start;
      Table(start, cells[..at] + values + cells[at + |values|..])
    }
  }

  lemma ByteCountFits(nb: nat)
    requires nb <= MAX_READ_BITS
    ensures ByteCount(nb) <= 250 && Lo(ByteCount(nb)) == ByteCount(nb)
    ensures nb <= MAX_WRITE_BITS ==> ByteCount(nb) <= 246
  {
  }

  datatype Mapping = Mapping(bits: Table<bool>, inputBits: Table<bool>,
                             registers: Table<word>, inputRegisters: Table<word>)

  /** Registers travel high byte first. */
  function RegisterBytes(values: seq<word>): (s: seq<byte>)
    ensures |s| == 2 * |values|
  {
    seq(2 * |values|, k requires 0 <= k < 2 * |values| =>
      if k % 2 == 0 then Hi(values[k / 2]) else Lo(values[k / 2]))
  }

  function BytesRegisters(bytes: seq<byte>, nb: nat): (values: seq<word>)
    requires 2 * nb <= |bytes|
    ensures |values| == nb
  {
    seq(nb, i requires 0 <= i < nb => Word(bytes[2 * i], bytes[2 * i + 1]))
  }

  lemma RegistersRoundTrip(values: seq<word>, rest: seq<byte>)
    ensures BytesRegisters(RegisterBytes(values) + rest, |values|) == values
  {
    hide RegisterBytes, Word, Hi, Lo;
    forall i | 0 <= i < |values|
      ensures Word((RegisterBytes(values) + rest)[2 * i], (RegisterBytes(values) + rest)[2 * i + 1]) == values[i]
    {
      RegisterBytesAt(values, i);
      WordOfHalves(values[i]);
    }
  }

  lemma WordOfHalves(w: word)
    ensures Word(Hi(w), Lo(w)) == w
  {
  }

  lemma RegisterBytesAt(values: seq<word>, i: nat)
    requires i < |values|
    ensures RegisterBytes(values)[2 * i] == Hi(values[i])
    ensures RegisterBytes(values)[2 * i + 1] == Lo(values[i])
  {
    assert (2 * i) / 2 == i && (2 * i) % 2 == 0;
    assert (2 * i + 1) / 2 == i && (2 * i + 1) % 2 == 1;
  }

  /** `(data & and) | (or & ~and)` on 16-bit words. */
  function MaskBits(data: seq<bool>, a: seq<bool>, o: seq<bool>): (r: seq<bool>)
    requires |data| == |a| == |o|
    ensures |r| == |data|
  {
    seq(|data|, k requires 0 <= k < |data| => (data[k] && a[k]) || (o[k] && !a[k]))
  }

  function Mask(data: word, andMask: word, orMask: word): word {
    var bits := MaskBits(ToBits(data, 16), ToBits(andMask, 16), ToBits(orMask, 16));
    ToFromBits(bits);
    FitsWord(FromBits(bits));
    FromBits(bits)
  }

  lemma FitsWord(n: nat)
    ensures Fits(n, 16) <==> n < 65536
  {
    FitsByte(n / 256);
    var h := n / 2 / 2 / 2 / 2;
    assert Fits(n, 16) == Fits(n / 2, 15) == Fits(n / 2 / 2, 14) == Fits(n / 2 / 2 / 2, 13) == Fits(h, 12);
    assert Fits(h, 12) == Fits(h / 2, 11) == Fits(h / 2 / 2, 10) == Fits(h / 2 / 2 / 2, 9)
        == Fits(h / 2 / 2 / 2 / 2, 8);
  }

  // ----- the client's side of a call -----

  /** The calls of the client library. Addresses and single values are C ints: only their 16 low bits travel. */
  datatype Call =
    | ReadBits(addr: int, nb: nat)
    | ReadInputBits(addr: int, nb: nat)
    | ReadRegisters(addr: int, nb: nat)
    | ReadInputRegisters(addr: int, nb: nat)
    | WriteBit(addr: int, status: int)
    | WriteRegister(addr: int, value: int)
    | WriteBits(addr: int, src: seq<byte>)
    | WriteRegisters(addr: int, values: seq<word>)
    | MaskWrite(addr: int, andMask: word, orMask: word)
    | WriteAndRead(writeAddr: int, values: seq<word>, addr: int, nb: nat)

  datatype Error =
    | TooMuchData
    | Exception(code: byte)
    | BadExceptionCode
    | BadData
    | BadSlave

  datatype Outcome =
    | Bits(cells: seq<bool>)
    | Registers(values: seq<word>)
    | Written(count: nat)
    | Failed(error: Error)

  predicate TooMuch(call: Call) {
    match call
    case ReadBits(_, nb) => nb > MAX_READ_BITS
    case ReadInputBits(_, nb) => nb > MAX_READ_BITS
    case ReadRegisters(_, nb) => nb > MAX_READ_REGISTERS
    case ReadInputRegisters(_, nb) => nb > MAX_READ_REGISTERS
    case WriteBit(_, _) => false
    case WriteRegister(_, _) => false
    case WriteBits(_, src) => |src| > MAX_WRITE_BITS
    case WriteRegisters(_, values) => |values| > MAX_WRITE_REGISTERS
    case MaskWrite(_, _, _) => false
    case WriteAndRead(_, values, _, nb) => |values| > MAX_WR_WRITE_REGISTERS || nb > MAX_WR_READ_REGISTERS
  }

  /** Function code, address and count, as every request basis starts. */
  function Basis(fc: byte, addr: int, nb: int): (q: seq<byte>)
    ensures |q| == 5
  {
    [fc, Hi(addr), Lo(addr), Hi(nb), Lo(nb)]
  }

  function Code(call: Call): byte {
    match call
    case ReadBits(_, _) => READ_COILS
    case ReadInputBits(_, _) => READ_DISCRETE_INPUTS
    case ReadRegisters(_, _) => READ_HOLDING_REGISTERS
    case ReadInputRegisters(_, _) => READ_INPUT_REGISTERS
    case WriteBit(_, _) => WRITE_SINGLE_COIL
    case WriteRegister(_, _) => WRITE_SINGLE_REGISTER
    case WriteBits(_, _) => WRITE_MULTIPLE_COILS
    case WriteRegisters(_, _) => WRITE_MULTIPLE_REGISTERS
    case MaskWrite(_, _, _) => MASK_WRITE_REGISTER
    case WriteAndRead(_, _, _, _) => WRITE_AND_READ_REGISTERS
  }

  /** The third field of a request: a count, the value of a single write, or the AND mask. */
  function Field(call: Call): int {
    match call
    case ReadBits(_, nb) => nb
    case ReadInputBits(_, nb) => nb
    case ReadRegisters(_, nb) => nb
    case ReadInputRegisters(_, nb) => nb
    case WriteBit(_, status) => if status != 0 then 0xFF00 else 0
    case WriteRegister(_, value) => value
    case WriteBits(_, src) => |src|
    case WriteRegisters(_, values) => |values|
    case MaskWrite(_, andMask, _) => andMask
    case WriteAndRead(_, _, _, nb) => nb
  }

  /** What follows the five bytes of the basis. */
  function Payload(call: Call): (t: seq<byte>)
    requires !TooMuch(call)
    ensures |t| <= MAX_PDU - 5
  {
    match call
    case WriteBits(_, src) => [Lo(ByteCount(|src|))] + PackBits(Normal(src))
    case WriteRegisters(_, values) => [Lo(2 * |values|)] + RegisterBytes(values)
    case MaskWrite(_, _, orMask) => [Hi(orMask), Lo(orMask)]
    case WriteAndRead(writeAddr, values, _, _) =>
      [Hi(writeAddr), Lo(writeAddr), Hi(|values|), Lo(|values|), Lo(2 * |values|)] + RegisterBytes(values)
    case _ => []
  }

  function RequestPdu(call: Call): (q: seq<byte>)
    requires !TooMuch(call)
    ensures 5 <= |q| <= MAX_PDU
  {
    Basis(Code(call), call.addr, Field(call)) + Payload(call)
  }

  // ----- the server's side -----

  /** `OutOfBounds` is the one path on which the server would write below a table. */
  datatype Answer =
    | Answer(m: Mapping, pdu: seq<byte>)
    | Silent
    | OutOfBounds

  function Refuse(m: Mapping, fc: byte, code: byte): Answer {
    Answer(m, [Lo(fc + 0x80), code])
  }

  function ServeReadBits(m: Mapping, table: Table<bool>, fc: byte, address: word, nb: word): Answer {
    if nb < 1 || MAX_READ_BITS < nb then Refuse(m, fc, ILLEGAL_DATA_VALUE)
    else if !table.Holds(address, nb) then Refuse(m, fc, ILLEGAL_DATA_ADDRESS)
    else Answer(m, [fc, Lo(ByteCount(nb))] + PackBits(table.Slice(address, nb)))
  }

  function ServeReadRegisters(m: Mapping, table: Table<word>, fc: byte, address: word, nb: word): Answer {
    if nb < 1 || MAX_READ_REGISTERS < nb then Refuse(m, fc, ILLEGAL_DATA_VALUE)
    else if !table.Holds(address, nb) then Refuse(m, fc, ILLEGAL_DATA_ADDRESS)
    else Answer(m, [fc, Lo(2 * nb)] + RegisterBytes(table.Slice(address, nb)))
  }

  function ServeWriteBit(m: Mapping, fc: byte, address: word, data: word, echo: seq<byte>): Answer {
    if !m.bits.Holds(address, 1) then Refuse(m, fc, ILLEGAL_DATA_ADDRESS)
    else if data == 0xFF00 || data == 0 then Answer(m.(bits := m.bits.Put(address, [data != 0])), echo)
    else Refuse(m, fc, ILLEGAL_DATA_VALUE)
  }

  function ServeWriteRegister(m: Mapping, fc: byte, address: word, data: word, echo: seq<byte>): Answer {
    if !m.registers.Holds(address, 1) then Refuse(m, fc, ILLEGAL_DATA_ADDRESS)
    else Answer(m.(registers := m.registers.Put(address, [data])), echo)
  }

  function ServeWriteBits(m: Mapping, fc: byte, address: word, nb: word, bytes: seq<byte>, echo: seq<byte>): Answer
    requires |bytes| >= MAX_PDU - 6
  {
    if nb < 1 || MAX_WRITE_BITS < nb then Refuse(m, fc, ILLEGAL_DATA_VALUE)
    else if !m.bits.Holds(address, nb) then Refuse(m, fc, ILLEGAL_DATA_ADDRESS)
    else Answer(m.(bits := m.bits.Put(address, UnpackBits(bytes, nb))), echo)
  }

  function ServeWriteRegisters(m: Mapping, fc: byte, address: word, nb: word, bytes: seq<byte>, echo: seq<byte>): Answer
    requires |bytes| >= MAX_PDU - 6
  {
    if nb < 1 || MAX_WRITE_REGISTERS < nb then Refuse(m, fc, ILLEGAL_DATA_VALUE)
    else if !m.registers.Holds(address, nb) then Refuse(m, fc, ILLEGAL_DATA_ADDRESS)
    else Answer(m.(registers := m.registers.Put(address, BytesRegisters(bytes, nb))), echo)
  }

  function ServeMaskWrite(m: Mapping, fc: byte, address: word, andMask: word, orMask: word, echo: seq<byte>): Answer {
    if !m.registers.Holds(address, 1) then Refuse(m, fc, ILLEGAL_DATA_ADDRESS)
    else
      var masked := Mask(m.registers.Slice(address, 1)[0], andMask, orMask);
      Answer(m.(registers := m.registers.Put(address, [masked])), echo)
  }

  /** The range check tests the read address twice and the lower end of the write range never. */
  function ServeWriteAndRead(m: Mapping, fc: byte, address: word, nb: word, writeAddress: word, nbWrite: word,
                             byteCount: byte, bytes: seq<byte>): Answer
    requires |bytes| >= MAX_PDU - 10
  {
    var regs := m.registers;
    if nbWrite < 1 || MAX_WR_WRITE_REGISTERS < nbWrite || nb < 1 || MAX_WR_READ_REGISTERS < nb
       || byteCount != 2 * nbWrite then
      Refuse(m, fc, ILLEGAL_DATA_VALUE)
    else if !regs.Holds(address, nb) || writeAddress - regs.start + nbWrite > |regs.cells| then
      Refuse(m, fc, ILLEGAL_DATA_ADDRESS)
    else if writeAddress < regs.start then
      OutOfBounds
    else
      var written := regs.Put(writeAddress, BytesRegisters(bytes, nbWrite));
      Answer(m.(registers := written), [fc, Lo(2 * nb)] + RegisterBytes(written.Slice(address, nb)))
  }

  /** What `modbus_reply` does with a request PDU of `n` bytes at the head of the receive buffer `p`. */
  function Serve(m: Mapping, p: seq<byte>, n: nat): Answer
    requires |p| >= MAX_PDU && n <= |p|
  {
    var fc, address, count := p[0], Word(p[1], p[2]), Word(p[3], p[4]);
    if fc == READ_COILS then ServeReadBits(m, m.bits, fc, address, count)
    else if fc == READ_DISCRETE_INPUTS then ServeReadBits(m, m.inputBits, fc, address, count)
    else if fc == READ_HOLDING_REGISTERS then ServeReadRegisters(m, m.registers, fc, address, count)
    else if fc == READ_INPUT_REGISTERS then ServeReadRegisters(m, m.inputRegisters, fc, address, count)
    else if fc == WRITE_SINGLE_COIL then ServeWriteBit(m, fc, address, count, p[..n])
    else if fc == WRITE_SINGLE_REGISTER then ServeWriteRegister(m, fc, address, count, p[..n])
    else if fc == WRITE_MULTIPLE_COILS then ServeWriteBits(m, fc, address, count, p[6..], p[..5])
    else if fc == WRITE_MULTIPLE_REGISTERS then ServeWriteRegisters(m, fc, address, count, p[6..], p[..5])
    else if fc == REPORT_SLAVE_ID then Answer(m, [fc, Lo(2 + |IDENTITY|), SLAVE_ID, 0xFF] + IDENTITY)
    else if fc == READ_EXCEPTION_STATUS then Silent
    else if fc == MASK_WRITE_REGISTER then ServeMaskWrite(m, fc, address, count, Word(p[5], p[6]), p[..n])
    else if fc == WRITE_AND_READ_REGISTERS then
      ServeWriteAndRead(m, fc, address, count, Word(p[5], p[6]), Word(p[7], p[8]), p[9], p[10..])
    else Refuse(m, fc, ILLEGAL_FUNCTION)
  }

  // ----- the client again -----

  datatype Confirmation = Count(rc: nat) | Rejected(error: Error)

  datatype Length = Known(length: nat) | Undefined

  /** `compute_response_length_from_request`, without header and checksum. */
  function ResponseLength(q: seq<byte>): Length
    requires |q| >= 5
  {
    var f, nb := q[0], Word(q[3], q[4]);
    if f == READ_COILS || f == READ_DISCRETE_INPUTS then Known(2 + ByteCount(nb))
    else if f == WRITE_AND_READ_REGISTERS || f == READ_HOLDING_REGISTERS || f == READ_INPUT_REGISTERS then
      Known(2 + 2 * nb)
    else if f == READ_EXCEPTION_STATUS then Known(3)
    else if f == REPORT_SLAVE_ID then Undefined
    else if f == MASK_WRITE_REGISTER then Known(7)
    else Known(5)
  }

  /** `check_confirmation` after the backend's own check. */
  function Confirm(q: seq<byte>, r: seq<byte>): Confirmation
    requires |q| >= 5 && |r| >= 2
  {
    var f := r[0];
    if f >= 0x80 then
      if |r| == 2 && q[0] == f - 0x80 then
        if r[1] < EXCEPTION_MAX then Rejected(Exception(r[1])) else Rejected(BadExceptionCode)
      else Rejected(BadExceptionCode)
    else if !(ResponseLength(q) == Known(|r|) || ResponseLength(q) == Undefined) then Rejected(BadData)
    else if f != q[0] then Rejected(BadData)
    else
      var nb := Word(q[3], q[4]);
      if f == READ_COILS || f == READ_DISCRETE_INPUTS then
        if ByteCount(nb) == r[1] then Count(r[1]) else Rejected(BadData)
      else if f == WRITE_AND_READ_REGISTERS || f == READ_HOLDING_REGISTERS || f == READ_INPUT_REGISTERS then
        if nb == r[1] / 2 then Count(r[1] / 2) else Rejected(BadData)
      else if f == WRITE_MULTIPLE_COILS || f == WRITE_MULTIPLE_REGISTERS then
        if nb == Word(r[3], r[4]) then Count(Word(r[3], r[4])) else Rejected(BadData)
      else if f == REPORT_SLAVE_ID then Count(r[1])
      else Count(1)
  }

  /** For any response whatever: once it is accepted, the decoding loops stay inside it. */
  lemma DecodeStaysInside(q: seq<byte>, r: seq<byte>)
    requires |q| >= 5 && |r| >= 2 && Confirm(q, r).Count?
    ensures q[0] == READ_COILS || q[0] == READ_DISCRETE_INPUTS ==>
              Confirm(q, r).rc == ByteCount(Word(q[3], q[4])) && 2 + Confirm(q, r).rc == |r|
    ensures q[0] == READ_HOLDING_REGISTERS || q[0] == READ_INPUT_REGISTERS || q[0] == WRITE_AND_READ_REGISTERS ==>
              Confirm(q, r).rc == Word(q[3], q[4]) && 2 + 2 * Confirm(q, r).rc == |r|
  {
  }

  lemma RequestCount(call: Call)
    requires !TooMuch(call)
    requires call.ReadBits? || call.ReadInputBits? || call.ReadRegisters? || call.ReadInputRegisters? || call.WriteAndRead?
    ensures var q := RequestPdu(call); Word(q[3], q[4]) == call.nb
  {
    hide Payload;
  }

  /** `check_confirmation` and the decoding that follows it, call by call. */
  function Finish(call: Call, r: seq<byte>): Outcome
    requires !TooMuch(call) && |r| >= 2
  {
    var q := RequestPdu(call);
    match Confirm(q, r)
    case Rejected(error) => Failed(error)
    case Count(rc) =>
      DecodeStaysInside(q, r);
      if call.ReadBits? || call.ReadInputBits? then
        RequestCount(call);
        Bits(UnpackBits(r[2..], call.nb))
      else if call.ReadRegisters? || call.ReadInputRegisters? || call.WriteAndRead? then
        Registers(BytesRegisters(r[2..], rc))
      else
        Written(rc)
  }
}
