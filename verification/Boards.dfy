/** Registers and coils of a board behind the SPI line: the operations that read and write them, what these send,
    and what a board that keeps to its side makes of it. */
module Boards {
  import opened Bytes
  import opened BitPacking
  import opened SpiCrc
  import opened TwoPhase
  import Standard
  import Uart

  const ARM_OP_READ_BIT: byte := 1
  const ARM_OP_READ_REG: byte := 4
  const ARM_OP_WRITE_BIT: byte := 5
  const ARM_OP_WRITE_REG: byte := 6
  const ARM_OP_WRITE_BITS: byte := 15

  const REGS_MAX := 126

  /** As many registers as the buffers hold. */
  const REGS_ROOM := 146

  /** Bytes that hold the most bits a reply can announce. */
  const BITS_ROOM := 32

  /** Registers as the boards take and give them: low byte first. */
  function HostBytes(values: seq<word>): (s: seq<byte>)
    ensures |s| == 2 * |values|
  {
    seq(2 * |values|, k requires 0 <= k < 2 * |values| =>
      if k % 2 == 0 then Lo(values[k / 2]) else Hi(values[k / 2]))
  }

  function HostRegisters(bytes: seq<byte>): (values: seq<word>)
    ensures |values| == |bytes| / 2
  {
    seq(|bytes| / 2, i requires 0 <= i < |bytes| / 2 => Word(bytes[2 * i + 1], bytes[2 * i]))
  }

  // ----- the line -----

  /** As much of the second phase as is transferred. */
  function Cut(line: Wire, total: nat): (wire: Wire)
    requires line.Up? ==> total <= |line.rx2|
    ensures Carries(line, SECOND_BUFFER) && total <= SECOND_BUFFER ==> Carries(wire, total)
  {
    if line.Down? then line else Up(line.rx1, line.rx2[..total])
  }

  /** What an operation with a second phase of `len2` bytes returns, for a second receive buffer that held `before`
      and a line that would go on sending. */
  function Result(len2: nat, line: Wire): int
    requires Carries(line, SECOND_BUFFER) && Rounded(len2) + CRC_SIZE <= SECOND_BUFFER
  {
    Return(Cut(line, Rounded(len2) + CRC_SIZE))
  }

  /** What the second receive buffer holds then. */
  function Buffer(before: seq<byte>, op: byte, len2: nat, line: Wire): (rx2: seq<byte>)
    requires |before| == SECOND_BUFFER
    requires Carries(line, SECOND_BUFFER) && Rounded(len2) + CRC_SIZE <= SECOND_BUFFER
    ensures |rx2| == SECOND_BUFFER
  {
    Received(before, op, Cut(line, Rounded(len2) + CRC_SIZE))
  }

  /** `SIZEOF_HEADER + (((cnt + 15) >> 4) << 1)` */
  function BitsLength(cnt: word): nat {
    SIZEOF_HEADER + 2 * ((cnt + 15) / 16)
  }

  function RegsLength(cnt: byte): nat {
    SIZEOF_HEADER + 2 * cnt
  }

  predicate Repeats(rx2: seq<byte>, op: byte, reg: word) {
    |rx2| >= SIZEOF_HEADER && rx2[0] == op && rx2[2] == Lo(reg) && rx2[3] == Hi(reg)
  }

  // ----- what the operations return -----

  function BitsRead(before: seq<byte>, reg: word, cnt: word, line: Wire): (n: int)
    requires |before| == SECOND_BUFFER && Carries(line, SECOND_BUFFER)
    ensures n < 256
  {
    hide Return, Received;
    if BitsLength(cnt) > 256 then -1
    else
      var rc, rx2 := Result(BitsLength(cnt), line), Buffer(before, ARM_OP_READ_BIT, BitsLength(cnt), line);
      if rc < 0 then rc else if !Repeats(rx2, ARM_OP_READ_BIT, reg) then -1 else rx2[1]
  }

  function RegsRead(before: seq<byte>, reg: word, cnt: byte, line: Wire): (n: int)
    requires |before| == SECOND_BUFFER && Carries(line, SECOND_BUFFER) && cnt <= REGS_ROOM
    ensures n <= cnt
  {
    hide Return, Received;
    var rc, rx2 := Result(RegsLength(cnt), line), Buffer(before, ARM_OP_READ_REG, RegsLength(cnt), line);
    if rc < 0 then rc else if !Repeats(rx2, ARM_OP_READ_REG, reg) || rx2[1] > cnt then -1 else rx2[1]
  }

  function RegsWritten(before: seq<byte>, cnt: byte, line: Wire): (n: int)
    requires |before| == SECOND_BUFFER && Carries(line, SECOND_BUFFER)
    ensures n < 256
  {
    hide Return, Received;
    if cnt > REGS_MAX then -1
    else
      var rc, rx2 := Result(RegsLength(cnt), line), Buffer(before, ARM_OP_WRITE_REG, RegsLength(cnt), line);
      if rc < 0 then rc else if rx2[0] != ARM_OP_WRITE_REG then -1 else rx2[1]
  }

  function BitsWritten(before: seq<byte>, cnt: word, line: Wire): (n: int)
    requires |before| == SECOND_BUFFER && Carries(line, SECOND_BUFFER)
    ensures n < 256
  {
    hide Return, Received;
    if BitsLength(cnt) > 256 then -1
    else
      var rc, rx2 := Result(BitsLength(cnt), line), Buffer(before, ARM_OP_WRITE_BITS, BitsLength(cnt), line);
      if rc < 0 then rc else if rx2[0] != ARM_OP_WRITE_BITS then -1 else Uart.Min(cnt, rx2[1])
  }

  /** The reply comes while the header goes out, so it can say nothing about the write. */
  function BitWritten(line: Wire): (n: int)
    requires Carries(line, SECOND_BUFFER)
  {
    hide Checked;
    if line.Up? && JudgeHeader(line.rx1).ok then 1 else -1
  }

  // ----- what a board is asked -----

  datatype Order =
    | Nothing
    | BitsWanted(reg: word, words: nat)
    | RegsWanted(reg: word, cnt: nat)
    | BitGiven(reg: word, value: bool)
    | BitsGiven(reg: word, words: nat, cells: seq<bool>)
    | RegsGiven(reg: word, values: seq<word>)

  /** The length of the second phase, in an order that has one. */
  function SecondLength(order: Order): nat {
    match order
    case BitsWanted(_, words) => SIZEOF_HEADER + 2 * words
    case RegsWanted(_, cnt) => SIZEOF_HEADER + 2 * cnt
    case BitsGiven(_, words, _) => SIZEOF_HEADER + 2 * words
    case RegsGiven(_, values) => SIZEOF_HEADER + 2 * |values|
    case _ => 0
  }

  /** What the two phases that go out say, to a board that reads lengths from their headers. */
  function OrderIn(tx1: seq<byte>, tx2: seq<byte>): Order
    requires |tx1| >= SIZEOF_HEADER && |tx2| == SECOND_BUFFER
  {
    var op, len, reg := tx1[0], if tx1[1] == 0 then 256 else tx1[1], Word(tx1[3], tx1[2]);
    var words := if len < SIZEOF_HEADER then 0 else (len - SIZEOF_HEADER) / 2;
    if op == ARM_OP_READ_BIT then BitsWanted(reg, words)
    else if op == ARM_OP_READ_REG then RegsWanted(reg, words)
    else if op == ARM_OP_WRITE_BIT then BitGiven(reg, tx1[1] != 0)
    else if op == ARM_OP_WRITE_BITS then BitsGiven(reg, words, UnpackBits(tx2[SIZEOF_HEADER..], tx2[1]))
    else if op == ARM_OP_WRITE_REG && tx2[1] == words then
      RegsGiven(reg, HostRegisters(tx2[SIZEOF_HEADER..SIZEOF_HEADER + 2 * words]))
    else Nothing
  }

  /** The order goes out under its checksums; where there is none, nothing goes out. */
  predicate Sends(before1: seq<byte>, before2: seq<byte>, tx1: seq<byte>, tx2: seq<byte>, order: Order) {
    hide Checked, Crc;
    && |tx1| == SIZEOF_HEADER + CRC_SIZE && |tx2| == SECOND_BUFFER
    && if order.Nothing? then tx1 == before1 && tx2 == before2
       else
         && OrderIn(tx1, tx2) == order
         && if order.BitGiven? then Checked(0, tx1)
            else
              && SecondLength(order) + CRC_SIZE <= SECOND_BUFFER && Intact(tx1, tx2[..SecondLength(order) + CRC_SIZE])
              && Repeats(tx2, tx1[0], Word(tx1[3], tx1[2]))
  }

  /** The second send buffer before a write. */
  function Loaded(tx2: seq<byte>, len: byte, body: seq<byte>): (s: seq<byte>)
    requires |tx2| == SECOND_BUFFER && SIZEOF_HEADER + |body| <= SECOND_BUFFER
    ensures |s| == SECOND_BUFFER
  {
    tx2[..1] + [len] + tx2[2..SIZEOF_HEADER] + body + tx2[SIZEOF_HEADER + |body|..]
  }

  /** A read is sent as what it asks for, whatever is left in the send buffer. */
  lemma ReadSent(tx1: seq<byte>, tx2: seq<byte>, before1: seq<byte>, before: seq<byte>, op: byte, reg: word, words: nat)
    requires words <= REGS_MAX && SentAs(tx1, tx2, before, op, reg, SIZEOF_HEADER + 2 * words)
    ensures op == ARM_OP_READ_BIT ==> Sends(before1, before, tx1, tx2, BitsWanted(reg, words))
    ensures op == ARM_OP_READ_REG ==> Sends(before1, before, tx1, tx2, RegsWanted(reg, words))
  {
    hide Intact, OrderIn, SentAs, Word;
    HeaderSent(tx1, tx2, before, op, reg, words);
    SentIsIntact(tx1, tx2, before, op, reg, SIZEOF_HEADER + 2 * words);
    ReadAsked(tx1, tx2, reg, words);
  }

  lemma ReadAsked(tx1: seq<byte>, tx2: seq<byte>, reg: word, words: nat)
    requires |tx1| >= SIZEOF_HEADER && |tx2| == SECOND_BUFFER && words <= REGS_MAX
    requires Word(tx1[3], tx1[2]) == reg && (if tx1[1] == 0 then 256 else tx1[1]) == SIZEOF_HEADER + 2 * words
    ensures tx1[0] == ARM_OP_READ_BIT ==> OrderIn(tx1, tx2) == BitsWanted(reg, words)
    ensures tx1[0] == ARM_OP_READ_REG ==> OrderIn(tx1, tx2) == RegsWanted(reg, words)
  {
    hide Word, UnpackBits, HostRegisters;
  }

  lemma HeaderSent(tx1: seq<byte>, tx2: seq<byte>, before: seq<byte>, op: byte, reg: word, words: nat)
    requires words <= REGS_MAX && SentAs(tx1, tx2, before, op, reg, SIZEOF_HEADER + 2 * words)
    ensures |tx1| == SIZEOF_HEADER + CRC_SIZE && |tx2| == |before| == SECOND_BUFFER
    ensures tx1[0] == op && Word(tx1[3], tx1[2]) == reg
    ensures (if tx1[1] == 0 then 256 else tx1[1]) == SIZEOF_HEADER + 2 * words
    ensures tx2[..SIZEOF_HEADER + 2 * words] == Addressed(before, op, reg)[..SIZEOF_HEADER + 2 * words]
    ensures op != ARM_OP_WRITE_STR ==> Repeats(tx2, op, reg)
  {
    hide WithCrc, Crc, HeaderBytes, Addressed;
    PhaseBytes(tx1, tx2, before, op, reg, SIZEOF_HEADER + 2 * words);
    var n := SIZEOF_HEADER + 2 * words;
    var h, body := HeaderBytes(op, Lo(n), reg), Addressed(before, op, reg)[..n];
    SentFirst(0, h, tx1);
    SentFirst(Crc(0, h), body, tx2[..n + CRC_SIZE]);
    HeaderFields(op, Lo(n), reg, tx1);
    assert tx2[..n] == tx2[..n + CRC_SIZE][..n];
  }

  lemma SentFirst(init: bv16, s: seq<byte>, t: seq<byte>)
    requires t == WithCrc(init, s)
    ensures |t| == |s| + CRC_SIZE && t[..|s|] == s
  {
    hide Crc, Stored;
  }

  lemma HeaderFields(op: byte, len: byte, reg: word, tx1: seq<byte>)
    requires |tx1| >= SIZEOF_HEADER && tx1[..SIZEOF_HEADER] == HeaderBytes(op, len, reg)
    ensures tx1[0] == op && tx1[1] == len && Word(tx1[3], tx1[2]) == reg
  {
    var h := HeaderBytes(op, len, reg);
    assert tx1[0] == h[0] && tx1[1] == h[1] && tx1[2] == h[2] && tx1[3] == h[3];
  }

  /** What a board is asked for. More than 126 registers make a second phase whose length loses its high byte in the
      header of the first: the board reads 128 registers fewer, or none. */
  function RegsAsked(cnt: byte): nat {
    if cnt <= REGS_MAX then cnt else if cnt < 128 then 0 else cnt - 128
  }

  lemma RegsSentFor(tx1: seq<byte>, tx2: seq<byte>, before: seq<byte>, reg: word, cnt: byte)
    requires |tx1| == SIZEOF_HEADER + CRC_SIZE && |tx2| == SECOND_BUFFER && cnt <= REGS_ROOM
    requires SentAs(tx1, tx2, before, ARM_OP_READ_REG, reg, RegsLength(cnt))
    ensures OrderIn(tx1, tx2) == RegsWanted(reg, RegsAsked(cnt))
  {
    hide WithCrc, Crc, HeaderBytes, UnpackBits, HostRegisters, Word;
    SentFirst(0, HeaderBytes(ARM_OP_READ_REG, Lo(RegsLength(cnt)), reg), tx1);
    HeaderFields(ARM_OP_READ_REG, Lo(RegsLength(cnt)), reg, tx1);
    assert Lo(RegsLength(cnt)) == if cnt < REGS_MAX then SIZEOF_HEADER + 2 * cnt else 2 * cnt - 252;
  }

  function BitsOrder(reg: word, cnt: word, values: seq<byte>): Order
    requires ByteCount(cnt) <= |values|
  {
    BitsGiven(reg, (cnt + 15) / 16, UnpackBits(values, Lo(cnt)))
  }

  /** Of a write of bits the count loses its high byte. */
  lemma BitsSent(tx1: seq<byte>, tx2: seq<byte>, old1: seq<byte>, old2: seq<byte>, reg: word, cnt: word, values: seq<byte>)
    requires |old2| == SECOND_BUFFER && BitsLength(cnt) <= 256 && ByteCount(cnt) <= |values|
    requires SentAs(tx1, tx2, Loaded(old2, Lo(cnt), values[..ByteCount(cnt)]), ARM_OP_WRITE_BITS, reg, BitsLength(cnt))
    ensures Sends(old1, old2, tx1, tx2, BitsOrder(reg, cnt, values))
  {
    hide Intact, SentAs, Word, Loaded, Addressed, ByteBits;
    var words, body := (cnt + 15) / 16, values[..ByteCount(cnt)];
    var before := Loaded(old2, Lo(cnt), body);
    HeaderSent(tx1, tx2, before, ARM_OP_WRITE_BITS, reg, words);
    SentIsIntact(tx1, tx2, before, ARM_OP_WRITE_BITS, reg, BitsLength(cnt));
    BodySent(tx2, old2, Lo(cnt), body, ARM_OP_WRITE_BITS, reg, SIZEOF_HEADER + 2 * words);
    assert UnpackBits(tx2[SIZEOF_HEADER..], Lo(cnt)) == UnpackBits(values, Lo(cnt));
  }

  lemma RegsSent(tx1: seq<byte>, tx2: seq<byte>, old1: seq<byte>, old2: seq<byte>, reg: word, values: seq<byte>)
    requires |old2| == SECOND_BUFFER && |values| % 2 == 0 && |values| <= 2 * REGS_MAX
    requires SentAs(tx1, tx2, Loaded(old2, |values| / 2, values), ARM_OP_WRITE_REG, reg, SIZEOF_HEADER + |values|)
    ensures Sends(old1, old2, tx1, tx2, RegsGiven(reg, HostRegisters(values)))
  {
    hide Intact, SentAs, Word, Loaded, Addressed;
    var cnt := |values| / 2;
    var before := Loaded(old2, cnt, values);
    HeaderSent(tx1, tx2, before, ARM_OP_WRITE_REG, reg, cnt);
    SentIsIntact(tx1, tx2, before, ARM_OP_WRITE_REG, reg, SIZEOF_HEADER + 2 * cnt);
    BodySent(tx2, old2, cnt, values, ARM_OP_WRITE_REG, reg, SIZEOF_HEADER + 2 * cnt);
    assert tx2[SIZEOF_HEADER..SIZEOF_HEADER + 2 * cnt] == values;
  }

  lemma BodySent(tx2: seq<byte>, old2: seq<byte>, len: byte, body: seq<byte>, op: byte, reg: word, n: nat)
    requires |tx2| == |old2| == SECOND_BUFFER && SIZEOF_HEADER + |body| <= n <= SECOND_BUFFER
    requires tx2[..n] == Addressed(Loaded(old2, len, body), op, reg)[..n]
    ensures tx2[1] == len && forall k | 0 <= k < |body| :: tx2[SIZEOF_HEADER + k] == body[k]
  {
    var s := Addressed(Loaded(old2, len, body), op, reg);
    assert tx2[1] == tx2[..n][1] == s[1];
    forall k | 0 <= k < |body|
      ensures tx2[SIZEOF_HEADER + k] == body[k]
    {
      assert tx2[SIZEOF_HEADER + k] == tx2[..n][SIZEOF_HEADER + k] == s[SIZEOF_HEADER + k];
    }
  }

  // ----- the operations -----

  /** What came back, and what is done with a character that came in the header. */
  twostate predicate Answered(arm: ArmHandle, op: byte, len2: nat, line: Wire)
    reads arm, arm.queue, arm.queue.buffer, arm.rx2
  {
    && old(arm.Valid()) && arm.Valid() && Carries(line, SECOND_BUFFER) && Rounded(len2) + CRC_SIZE <= SECOND_BUFFER
    && arm.rx2[..] == Buffer(old(arm.rx2[..]), op, len2, line)
    && arm.queue.Value() == Uart.HeaderTaken(old(arm.queue.Value()), HeaderIn(Cut(line, Rounded(len2) + CRC_SIZE)))
  }

  /** The bytes that hold `n` bits of a reply. */
  function BitsIn(rx2: seq<byte>, n: int): seq<byte> {
    if n < 0 || SIZEOF_HEADER + ByteCount(n) > |rx2| then [] else rx2[SIZEOF_HEADER..SIZEOF_HEADER + ByteCount(n)]
  }

  /** `read_bits` */
  method ReadBits(arm: ArmHandle, reg: word, cnt: word, result: array<byte>, at: nat, line: Wire) returns (n: int)
    requires arm.Valid() && result !in arm.Repr() && at + BITS_ROOM <= result.Length && Carries(line, SECOND_BUFFER)
    modifies arm.tx1, arm.tx2, arm.rx1, arm.rx2, arm.queue, arm.queue.buffer, result
    ensures arm.Valid() && n == BitsRead(old(arm.rx2[..]), reg, cnt, line)
    ensures Uart.Written(old(result[..]), result[..], at, BitsIn(arm.rx2[..], n))
    ensures Sends(old(arm.tx1[..]), old(arm.tx2[..]), arm.tx1[..], arm.tx2[..],
                  if BitsLength(cnt) > 256 then Nothing else BitsWanted(reg, (cnt + 15) / 16))
    ensures if BitsLength(cnt) > 256 then arm.rx2[..] == old(arm.rx2[..])
            else Answered(arm, ARM_OP_READ_BIT, BitsLength(cnt), line)
  {
    hide Return, SentAs, Uart.Written, ByteCount, Received, HeaderIn, Uart.HeaderTaken, Sends;
    var len2 := BitsLength(cnt);
    Uart.WrittenNothing(result[..], at);
    if len2 > 256 {
      NothingSent(arm.tx1[..], arm.tx2[..]);
      return -1;
    }
    ghost var pieces;
    n, pieces := arm.TwoPhaseOp(ARM_OP_READ_BIT, reg, len2, Cut(line, len2 + CRC_SIZE));
    ReadSent(arm.tx1[..], arm.tx2[..], old(arm.tx1[..]), old(arm.tx2[..]), ARM_OP_READ_BIT, reg, (cnt + 15) / 16);
    assert result[..] == old(result[..]);
    if n < 0 {
      return;
    }
    if arm.rx2[0] != ARM_OP_READ_BIT || arm.rx2[2] != Lo(reg) || arm.rx2[3] != Hi(reg) {
      return -1;
    }
    n := arm.rx2[1];
    RoomForBits(n);
    assert arm.rx2[..][SIZEOF_HEADER..SIZEOF_HEADER + ByteCount(n)] == arm.rx2[SIZEOF_HEADER..SIZEOF_HEADER + ByteCount(n)];
    Uart.MemMove(result, at, arm.rx2[SIZEOF_HEADER..SIZEOF_HEADER + ByteCount(n)]);
  }

  lemma RoomForBits(n: byte)
    ensures ByteCount(n) <= BITS_ROOM
  {
  }

  lemma NothingSent(tx1: seq<byte>, tx2: seq<byte>)
    requires |tx1| == SIZEOF_HEADER + CRC_SIZE && |tx2| == SECOND_BUFFER
    ensures Sends(tx1, tx2, tx1, tx2, Nothing)
  {
  }

  /** `read_regs` */
  method ReadRegs(arm: ArmHandle, reg: word, cnt: byte, result: array<byte>, at: nat, line: Wire) returns (n: int)
    requires arm.Valid() && result !in arm.Repr() && cnt <= REGS_ROOM && at + 2 * cnt <= result.Length
    requires Carries(line, SECOND_BUFFER)
    modifies arm.tx1, arm.tx2, arm.rx1, arm.rx2, arm.queue, arm.queue.buffer, result
    ensures arm.Valid() && n == RegsRead(old(arm.rx2[..]), reg, cnt, line)
    ensures Uart.Written(old(result[..]), result[..], at,
                         if n < 0 then [] else arm.rx2[SIZEOF_HEADER..SIZEOF_HEADER + 2 * n])
    ensures OrderIn(arm.tx1[..], arm.tx2[..]) == RegsWanted(reg, RegsAsked(cnt))
    ensures cnt <= REGS_MAX ==>
              Sends(old(arm.tx1[..]), old(arm.tx2[..]), arm.tx1[..], arm.tx2[..], RegsWanted(reg, cnt))
    ensures SentAs(arm.tx1[..], arm.tx2[..], old(arm.tx2[..]), ARM_OP_READ_REG, reg, RegsLength(cnt))
    ensures Answered(arm, ARM_OP_READ_REG, RegsLength(cnt), line)
  {
    hide Return, SentAs, Uart.Written, Received, HeaderIn, Uart.HeaderTaken, Sends, OrderIn;
    var len2 := RegsLength(cnt);
    Uart.WrittenNothing(result[..], at);
    ghost var pieces;
    n, pieces := arm.TwoPhaseOp(ARM_OP_READ_REG, reg, len2, Cut(line, len2 + CRC_SIZE));
    RegsSentFor(arm.tx1[..], arm.tx2[..], old(arm.tx2[..]), reg, cnt);
    if cnt <= REGS_MAX {
      ReadSent(arm.tx1[..], arm.tx2[..], old(arm.tx1[..]), old(arm.tx2[..]), ARM_OP_READ_REG, reg, cnt);
    }
    assert result[..] == old(result[..]);
    if n < 0 {
      return;
    }
    if arm.rx2[0] != ARM_OP_READ_REG || arm.rx2[1] > cnt || arm.rx2[2] != Lo(reg) || arm.rx2[3] != Hi(reg) {
      return -1;
    }
    n := arm.rx2[1];
    Uart.MemMove(result, at, arm.rx2[SIZEOF_HEADER..SIZEOF_HEADER + 2 * n]);
  }

  /** The count and the values, before a write is sent. */
  method Load(arm: ArmHandle, len: byte, body: seq<byte>)
    requires arm.Valid() && SIZEOF_HEADER + |body| <= SECOND_BUFFER
    modifies arm.tx2
    ensures arm.tx2[..] == Loaded(old(arm.tx2[..]), len, body)
  {
    arm.tx2[1] := len;
    forall k | 0 <= k < |body| {
      arm.tx2[SIZEOF_HEADER + k] := body[k];
    }
  }

  /** `write_regs` */
  method WriteRegs(arm: ArmHandle, reg: word, cnt: byte, values: seq<byte>, line: Wire) returns (n: int)
    requires arm.Valid() && |values| == 2 * cnt && Carries(line, SECOND_BUFFER)
    modifies arm.tx1, arm.tx2, arm.rx1, arm.rx2, arm.queue, arm.queue.buffer
    ensures arm.Valid() && n == RegsWritten(old(arm.rx2[..]), cnt, line)
    ensures Sends(old(arm.tx1[..]), old(arm.tx2[..]), arm.tx1[..], arm.tx2[..],
                  if cnt > REGS_MAX then Nothing else RegsGiven(reg, HostRegisters(values)))
    ensures if cnt > REGS_MAX then arm.rx2[..] == old(arm.rx2[..])
            else Answered(arm, ARM_OP_WRITE_REG, RegsLength(cnt), line)
  {
    hide Return, SentAs, Received, HeaderIn, Uart.HeaderTaken, Sends, HostRegisters, Loaded;
    if cnt > REGS_MAX {
      NothingSent(arm.tx1[..], arm.tx2[..]);
      return -1;
    }
    var len2 := RegsLength(cnt);
    Load(arm, cnt, values);
    ghost var pieces;
    n, pieces := arm.TwoPhaseOp(ARM_OP_WRITE_REG, reg, len2, Cut(line, len2 + CRC_SIZE));
    RegsSent(arm.tx1[..], arm.tx2[..], old(arm.tx1[..]), old(arm.tx2[..]), reg, values);
    if n < 0 {
      return;
    }
    if arm.rx2[0] != ARM_OP_WRITE_REG {
      return -1;
    }
    n := arm.rx2[1];
  }

  /** `write_bits` */
  method WriteBits(arm: ArmHandle, reg: word, cnt: word, values: seq<byte>, line: Wire) returns (n: int)
    requires arm.Valid() && ByteCount(cnt) <= |values| && Carries(line, SECOND_BUFFER)
    modifies arm.tx1, arm.tx2, arm.rx1, arm.rx2, arm.queue, arm.queue.buffer
    ensures arm.Valid() && n == BitsWritten(old(arm.rx2[..]), cnt, line)
    ensures Sends(old(arm.tx1[..]), old(arm.tx2[..]), arm.tx1[..], arm.tx2[..],
                  if BitsLength(cnt) > 256 then Nothing else BitsOrder(reg, cnt, values))
    ensures if BitsLength(cnt) > 256 then arm.rx2[..] == old(arm.rx2[..])
            else Answered(arm, ARM_OP_WRITE_BITS, BitsLength(cnt), line)
  {
    hide Return, SentAs, Received, HeaderIn, Uart.HeaderTaken, Sends, BitsOrder, Loaded;
    var len2 := BitsLength(cnt);
    if len2 > 256 {
      NothingSent(arm.tx1[..], arm.tx2[..]);
      return -1;
    }
    Load(arm, Lo(cnt), values[..ByteCount(cnt)]);
    ghost var pieces;
    n, pieces := arm.TwoPhaseOp(ARM_OP_WRITE_BITS, reg, len2, Cut(line, len2 + CRC_SIZE));
    BitsSent(arm.tx1[..], arm.tx2[..], old(arm.tx1[..]), old(arm.tx2[..]), reg, cnt, values);
    if n < 0 {
      return;
    }
    if arm.rx2[0] != ARM_OP_WRITE_BITS {
      return -1;
    }
    n := cnt;
    if n > arm.rx2[1] {
      n := arm.rx2[1];
    }
  }

  /** `write_bit` */
  method WriteBit(arm: ArmHandle, reg: word, value: bool, line: Wire) returns (n: int)
    requires arm.Valid() && Carries(line, SECOND_BUFFER)
    modifies arm.tx1, arm.rx1, arm.queue, arm.queue.buffer
    ensures arm.Valid() && n == BitWritten(line)
    ensures Sends(old(arm.tx1[..]), old(arm.tx2[..]), arm.tx1[..], arm.tx2[..], BitGiven(reg, value))
    ensures arm.queue.Value()
            == if line.Up? then Uart.HeaderTaken(old(arm.queue.Value()), JudgeHeader(line.rx1).header)
               else old(arm.queue.Value())
  {
    hide JudgeHeader, Sends, WithCrc, Uart.HeaderTaken;
    var bit: byte := if value then 1 else 0;
    var rc := arm.OnePhaseOp(ARM_OP_WRITE_BIT, reg, bit, line.Up?, if line.Up? then line.rx1 else arm.rx1[..]);
    BitSent(arm.tx1[..], arm.tx2[..], old(arm.tx1[..]), old(arm.tx2[..]), reg, value);
    n := if rc < 0 then rc else 1;
  }

  lemma BitSent(tx1: seq<byte>, tx2: seq<byte>, old1: seq<byte>, old2: seq<byte>, reg: word, value: bool)
    requires |tx2| == SECOND_BUFFER && tx1 == WithCrc(0, HeaderBytes(ARM_OP_WRITE_BIT, if value then 1 else 0, reg))
    ensures Sends(old1, old2, tx1, tx2, BitGiven(reg, value))
  {
    hide WithCrc, HeaderBytes, Checked, Crc, Word, UnpackBits, HostRegisters;
    var bit: byte := if value then 1 else 0;
    var h := HeaderBytes(ARM_OP_WRITE_BIT, bit, reg);
    WithCrcChecked(0, h);
    SentFirst(0, h, tx1);
    HeaderFields(ARM_OP_WRITE_BIT, bit, reg, tx1);
  }

  // ----- in bytes -----

  /** What an order looks like on the wire: operation, length of the second phase and register in the first, count
      and cells in the second. */
  lemma OrderBytes(tx1: seq<byte>, tx2: seq<byte>)
    requires |tx1| >= 4 && |tx2| == SECOND_BUFFER
    ensures var reg := tx1[2] as int + 256 * tx1[3] as int;
            match OrderIn(tx1, tx2)
            case BitsWanted(r, words) => tx1[0] == 1 && r == reg && (4 <= tx1[1] ==> words == (tx1[1] - 4) / 2)
            case RegsWanted(r, cnt) => tx1[0] == 4 && r == reg && (4 <= tx1[1] ==> cnt == (tx1[1] - 4) / 2)
            case BitGiven(r, value) => tx1[0] == 5 && r == reg && (value <==> tx1[1] != 0)
            case BitsGiven(r, _, cells) =>
              && tx1[0] == 15 && r == reg && |cells| == tx2[1] as int
              && forall i | 0 <= i < |cells| :: cells[i] == Standard.BitOf(tx2[4 + i / 8], i % 8)
            case RegsGiven(r, values) =>
              && tx1[0] == 6 && r == reg && |values| == tx2[1] as int && 4 + 2 * |values| <= SECOND_BUFFER
              && forall i | 0 <= i < |values| :: values[i] == tx2[4 + 2 * i] as int + 256 * tx2[5 + 2 * i] as int
            case Nothing => tx1[0] !in {1, 4, 5, 15}
  {
    hide Standard.BitOf, UnpackBits;
    if tx1[0] == 15 {
      Standard.UnpackedSo(tx2[4..], tx2[1]);
    }
  }

  /** A reply of another operation, or to a read of another register, is not taken; what is taken is its byte 1. */
  lemma RepliesTaken(before: seq<byte>, reg: word, cnt: byte, line: Wire)
    requires |before| == SECOND_BUFFER && Carries(line, SECOND_BUFFER) && cnt <= 126
    ensures var rc, rx2 := Result(RegsLength(cnt), line), Buffer(before, 4, RegsLength(cnt), line);
            RegsRead(before, reg, cnt, line)
            == if rc < 0 then rc
               else if rx2[0] == 4 && rx2[1] <= cnt && rx2[2] == reg % 256 && rx2[3] == reg / 256 then rx2[1] else -1
    ensures var rc, rx2 := Result(RegsLength(cnt), line), Buffer(before, 6, RegsLength(cnt), line);
            RegsWritten(before, cnt, line) == if rc < 0 then rc else if rx2[0] == 6 then rx2[1] else -1
    ensures forall more: byte | more > 126 :: RegsWritten(before, more, line) == -1
  {
    hide Return, Received;
  }

  lemma BitRepliesTaken(before: seq<byte>, reg: word, cnt: word, line: Wire)
    requires |before| == SECOND_BUFFER && Carries(line, SECOND_BUFFER)
    ensures BitsLength(cnt) > 256 ==> BitsRead(before, reg, cnt, line) == -1 && BitsWritten(before, cnt, line) == -1
    ensures BitsLength(cnt) <= 256 ==>
              var rc, rx2 := Result(BitsLength(cnt), line), Buffer(before, 1, BitsLength(cnt), line);
              BitsRead(before, reg, cnt, line)
              == if rc < 0 then rc
                 else if rx2[0] == 1 && rx2[2] == reg % 256 && rx2[3] == reg / 256 then rx2[1] else -1
    ensures BitsLength(cnt) <= 256 ==>
              var rc, rx2 := Result(BitsLength(cnt), line), Buffer(before, 15, BitsLength(cnt), line);
              BitsWritten(before, cnt, line)
              == if rc < 0 then rc else if rx2[0] != 15 then -1 else if cnt < rx2[1] then cnt else rx2[1]
  {
    hide Return, Received;
  }

  // ----- a board that keeps to its side -----

  /** What a board holds: coils and registers, both from address 0. */
  datatype Store = Store(coils: seq<bool>, registers: seq<word>)

  function Put<T>(cells: seq<T>, at: nat, values: seq<T>): (r: seq<T>)
    requires at + |values| <= |cells|
    ensures |r| == |cells|
  {
    cells[..at] + values + cells[at + |values|..]
  }

  /** What the board makes of an order: it writes all of it or nothing. */
  function Obeyed(s: Store, order: Order): Store {
    match order
    case BitGiven(reg, value) =>
      if reg < |s.coils| then s.(coils := Put(s.coils, reg, [value])) else s
    case BitsGiven(reg, _, cells) =>
      if reg + |cells| <= |s.coils| then s.(coils := Put(s.coils, reg, cells)) else s
    case RegsGiven(reg, values) =>
      if reg + |values| <= |s.registers| then s.(registers := Put(s.registers, reg, values)) else s
    case _ => s
  }

  function Available(size: nat, reg: nat, cnt: nat): (n: nat)
    ensures n <= cnt && (n > 0 ==> reg + n <= size)
  {
    if reg < size then Uart.Min(cnt, size - reg) else 0
  }

  function Cells<T>(cells: seq<T>, reg: nat, n: nat): (s: seq<T>)
    requires n > 0 ==> reg + n <= |cells|
    ensures |s| == n
  {
    if n == 0 then [] else cells[reg..reg + n]
  }

  /** The second phase of the reply: a read gives what there is, as far as eight bits can count it; a write gives the
      number of cells written. */
  predicate Reports(s: Store, order: Order, rx2: seq<byte>)
    requires |rx2| == SECOND_BUFFER
  {
    match order
    case BitsWanted(reg, words) =>
      && Repeats(rx2, ARM_OP_READ_BIT, reg)
      && rx2[1] == Uart.Min(Available(|s.coils|, reg, 16 * words), 255)
      && UnpackBits(rx2[SIZEOF_HEADER..], rx2[1]) == Cells(s.coils, reg, rx2[1])
    case RegsWanted(reg, cnt) =>
      && Repeats(rx2, ARM_OP_READ_REG, reg)
      && cnt <= REGS_MAX && rx2[1] == Available(|s.registers|, reg, cnt)
      && rx2[SIZEOF_HEADER..SIZEOF_HEADER + 2 * rx2[1]] == HostBytes(Cells(s.registers, reg, rx2[1]))
    case BitsGiven(reg, _, cells) =>
      rx2[0] == ARM_OP_WRITE_BITS && rx2[1] == if reg + |cells| <= |s.coils| then |cells| else 0
    case RegsGiven(reg, values) =>
      rx2[0] == ARM_OP_WRITE_REG && rx2[1] == if reg + |values| <= |s.registers| then |values| else 0
    case _ => true
  }

  /** The line reaches a board that holds `s` and takes the order. */
  predicate Honest(s: Store, order: Order, line: Wire) {
    hide Judge, JudgeHeader, Reports;
    && Carries(line, SECOND_BUFFER)
    && (!order.Nothing? ==>
          && line.Up?
          && if order.BitGiven? then JudgeHeader(line.rx1).ok
             else
               && SecondLength(order) + CRC_SIZE <= SECOND_BUFFER
               && Judge(line.rx1, line.rx2[..SecondLength(order) + CRC_SIZE]).ok && Reports(s, order, line.rx2))
  }

  /** The orders that a second phase holds. */
  predicate Proper(order: Order) {
    match order
    case BitsWanted(_, words) => words <= REGS_MAX
    case RegsWanted(_, cnt) => cnt <= REGS_MAX
    case BitsGiven(_, words, cells) => words <= REGS_MAX && |cells| <= 255
    case RegsGiven(_, values) => |values| <= REGS_MAX
    case _ => true
  }

  /** The second phase of the reply, as far as it says something. */
  function Report(s: Store, order: Order): (r: seq<byte>)
    requires Proper(order)
  {
    match order
    case BitsWanted(reg, words) =>
      var n := Uart.Min(Available(|s.coils|, reg, 16 * words), 255);
      [ARM_OP_READ_BIT, n, Lo(reg), Hi(reg)] + PackBits(Cells(s.coils, reg, n))
    case RegsWanted(reg, cnt) =>
      var n := Available(|s.registers|, reg, cnt);
      [ARM_OP_READ_REG, n, Lo(reg), Hi(reg)] + HostBytes(Cells(s.registers, reg, n))
    case BitsGiven(reg, _, cells) =>
      [ARM_OP_WRITE_BITS, if reg + |cells| <= |s.coils| then |cells| else 0, Lo(reg), Hi(reg)]
    case RegsGiven(reg, values) =>
      [ARM_OP_WRITE_REG, if reg + |values| <= |s.registers| then |values| else 0, Lo(reg), Hi(reg)]
    case _ => []
  }

  lemma ReportFits(s: Store, order: Order)
    requires Proper(order)
    ensures |Report(s, order)| <= SecondLength(order)
  {
    hide PackBits, HostBytes;
  }

  /** What follows the report does not change what it says. */
  lemma ReportReports(s: Store, order: Order, rx2: seq<byte>)
    requires Proper(order) && |rx2| == SECOND_BUFFER && Report(s, order) <= rx2
    ensures Reports(s, order, rx2)
  {
    hide PackBits, HostBytes, UnpackBits, Available, Cells, ByteCount, Lo, Hi;
    var r := Report(s, order);
    if order.BitsWanted? || order.RegsWanted? || order.BitsGiven? || order.RegsGiven? {
      HeadAgrees(r, rx2);
    }
    if order.BitsWanted? {
      var n := Uart.Min(Available(|s.coils|, order.reg, 16 * order.words), 255);
      PackedAgrees(Cells(s.coils, order.reg, n), rx2[SIZEOF_HEADER..]);
    }
  }

  lemma HeadAgrees(r: seq<byte>, rx2: seq<byte>)
    requires SIZEOF_HEADER <= |r| && r <= rx2
    ensures rx2[0] == r[0] && rx2[1] == r[1] && rx2[2] == r[2] && rx2[3] == r[3]
    ensures r[SIZEOF_HEADER..] <= rx2[SIZEOF_HEADER..] && rx2[SIZEOF_HEADER..|r|] == r[SIZEOF_HEADER..]
  {
    assert rx2[SIZEOF_HEADER..][..|r| - SIZEOF_HEADER] == r[SIZEOF_HEADER..];
  }

  lemma PackedAgrees(cells: seq<bool>, bytes: seq<byte>)
    requires PackBits(cells) <= bytes
    ensures UnpackBits(bytes, |cells|) == cells
  {
    hide PackBits, UnpackBits;
    UnpackPacked(cells, bytes[|PackBits(cells)|..]);
    assert bytes == PackBits(cells) + bytes[|PackBits(cells)|..];
  }

  /** There is a reply that is honest, to every order and for everything a board may hold. */
  lemma HonestReply(s: Store, order: Order) returns (line: Wire)
    requires Proper(order)
    ensures Honest(s, order, line)
  {
    hide Crc, Stored, Judge, JudgeHeader, Reports, Report, WithCrc, Checked;
    ReportFits(s, order);
    var n := SecondLength(order);
    var body := Report(s, order) + seq(n - |Report(s, order)|, _ => 0);
    var rx1, second := WithCrc(0, IDLE_HEADER), WithCrc(Crc(0, IDLE_HEADER), body);
    HonestReplyAccepted(IDLE_HEADER, body);
    IdleAccepted();
    line := Up(rx1, second + seq(SECOND_BUFFER - |second|, _ => 0));
    assert line.rx2[..n + CRC_SIZE] == second;
    BodyFirst(Crc(0, IDLE_HEADER), body);
    assert Report(s, order) <= line.rx2;
    ReportReports(s, order, line.rx2);
  }

  lemma IdleAccepted()
    ensures JudgeHeader(WithCrc(0, IDLE_HEADER)).ok
  {
    hide Crc, Stored, Checked;
    WithCrcChecked(0, IDLE_HEADER);
    assert WithCrc(0, IDLE_HEADER)[..SIZEOF_HEADER] == IDLE_HEADER;
  }

  /** Where both sides keep to it, a read of bits gives as many as are asked for if and only if they are there and
      no more than 255. */
  lemma HonestBits(s: Store, before: seq<byte>, reg: word, cnt: word, line: Wire)
    requires |before| == SECOND_BUFFER && 1 <= cnt && BitsLength(cnt) <= 256
    requires Honest(s, BitsWanted(reg, (cnt + 15) / 16), line)
    ensures var n := BitsRead(before, reg, cnt, line);
            && (n >= cnt <==> cnt <= 255 && reg + cnt <= |s.coils|)
            && (n >= cnt ==>
                  var data := Buffer(before, ARM_OP_READ_BIT, BitsLength(cnt), line)[SIZEOF_HEADER..];
                  ByteCount(cnt) <= |data| && UnpackBits(data, cnt) == s.coils[reg..reg + cnt])
  {
    hide Judge, ByteBits;
    var rx2, total := Buffer(before, ARM_OP_READ_BIT, BitsLength(cnt), line), BitsLength(cnt) + CRC_SIZE;
    assert rx2[..total] == line.rx2[..total];
    assert forall k | 0 <= k < total :: rx2[k] == line.rx2[k];
    if BitsRead(before, reg, cnt, line) >= cnt {
      forall k | 0 <= k < cnt
        ensures UnpackBits(rx2[SIZEOF_HEADER..], cnt)[k] == s.coils[reg + k]
      {
        assert UnpackBits(line.rx2[SIZEOF_HEADER..], line.rx2[1])[k] == s.coils[reg + k];
      }
    }
  }

  lemma HonestRegs(s: Store, before: seq<byte>, reg: word, cnt: byte, line: Wire)
    requires |before| == SECOND_BUFFER && 1 <= cnt <= REGS_MAX && Honest(s, RegsWanted(reg, cnt), line)
    ensures RegsRead(before, reg, cnt, line) == cnt <==> reg + cnt <= |s.registers|
    ensures reg + cnt <= |s.registers| ==>
              Buffer(before, ARM_OP_READ_REG, RegsLength(cnt), line)[SIZEOF_HEADER..SIZEOF_HEADER + 2 * cnt]
              == HostBytes(s.registers[reg..reg + cnt])
  {
    hide Judge, HostBytes;
    var rx2, total := Buffer(before, ARM_OP_READ_REG, RegsLength(cnt), line), RegsLength(cnt) + CRC_SIZE;
    assert rx2[..total] == line.rx2[..total];
    assert forall k | 0 <= k < total :: rx2[k] == line.rx2[k];
    assert rx2[SIZEOF_HEADER..SIZEOF_HEADER + 2 * cnt] == line.rx2[SIZEOF_HEADER..SIZEOF_HEADER + 2 * cnt];
  }

  lemma HonestWrites(s: Store, before: seq<byte>, reg: word, values: seq<word>, line: Wire)
    requires |before| == SECOND_BUFFER && 1 <= |values| <= REGS_MAX && Honest(s, RegsGiven(reg, values), line)
    ensures RegsWritten(before, |values|, line) == |values| <==> reg + |values| <= |s.registers|
  {
    hide Judge;
    var rx2, total := Buffer(before, ARM_OP_WRITE_REG, RegsLength(|values|), line), RegsLength(|values|) + CRC_SIZE;
    assert rx2[..total] == line.rx2[..total];
  }

  /** A write of up to 255 bits reports them all if and only if the cells are there; a longer one never does. */
  lemma HonestBitWrites(s: Store, before: seq<byte>, reg: word, cnt: word, values: seq<byte>, line: Wire)
    requires |before| == SECOND_BUFFER && 1 <= cnt && BitsLength(cnt) <= 256 && ByteCount(cnt) <= |values|
    requires Honest(s, BitsOrder(reg, cnt, values), line)
    ensures BitsWritten(before, cnt, line) == cnt <==> cnt <= 255 && reg + cnt <= |s.coils|
  {
    hide Judge, UnpackBits, ByteCount;
    var rx2, total := Buffer(before, ARM_OP_WRITE_BITS, BitsLength(cnt), line), BitsLength(cnt) + CRC_SIZE;
    assert rx2[..total] == line.rx2[..total];
  }
}
