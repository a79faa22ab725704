/** Two-phase SPI operations: a header, then a block of up to 256 bytes that is cut into short transfers. Each
    phase carries a checksum, and the second continues the first. */
module TwoPhase {
  import opened Bytes
  import opened CrcBits
  import opened SpiCrc
  import opened Uart

  const MAX_SPI_RX := 64

  const SIZEOF_HEADER := 4

  const CRC_SIZE := 2

  const ARM_OP_WRITE_CHAR: byte := 65
  const ARM_OP_WRITE_STR: byte := 100
  const ARM_OP_READ_STR: byte := 101

  /** The longest string that is asked for in one operation. */
  const SPI_STR_MAX := 240

  const SECOND_BUFFER := 298

  /** The longest second phase the buffers hold. */
  const SECOND_MAX := SECOND_BUFFER - CRC_SIZE

  /** Transfers have an even length. */
  function Rounded(len2: nat): nat {
    if len2 % 2 == 1 then len2 + 1 else len2
  }

  /** The lengths of the transfers that carry the second phase; number `i` starts at byte `64 i`. */
  function TransferLengths(total: nat): seq<nat>
    requires 2 <= total <= 5 * MAX_SPI_RX
  {
    if total <= MAX_SPI_RX then [total]
    else if total <= 2 * MAX_SPI_RX then [MAX_SPI_RX, total - MAX_SPI_RX]
    else if total <= 3 * MAX_SPI_RX then [MAX_SPI_RX, MAX_SPI_RX, total - 2 * MAX_SPI_RX]
    else if total <= 4 * MAX_SPI_RX then [MAX_SPI_RX, MAX_SPI_RX, MAX_SPI_RX, total - 3 * MAX_SPI_RX]
    else [MAX_SPI_RX, MAX_SPI_RX, MAX_SPI_RX, MAX_SPI_RX, total - 4 * MAX_SPI_RX]
  }

  predicate AllFullButLast(lengths: seq<nat>) {
    forall i | 0 <= i < |lengths| - 1 :: lengths[i] == MAX_SPI_RX
  }

  /** Where the last of the transfers ends, when the first starts at `from`. */
  function EndOf(from: nat, lengths: seq<nat>): nat
    requires lengths != []
  {
    from + MAX_SPI_RX * (|lengths| - 1) + lengths[|lengths| - 1]
  }

  /** The pieces of the buffer that the transfers carry. */
  function Pieces(buf: seq<byte>, from: nat, lengths: seq<nat>): seq<seq<byte>>
    requires AllFullButLast(lengths) && (lengths != [] ==> EndOf(from, lengths) <= |buf|)
    decreases |lengths|
  {
    if lengths == [] then []
    else [buf[from..from + lengths[0]]] + Pieces(buf, from + MAX_SPI_RX, lengths[1..])
  }

  function Joined(pieces: seq<seq<byte>>): seq<byte> {
    if pieces == [] then [] else pieces[0] + Joined(pieces[1..])
  }

  lemma {:induction false} PiecesJoin(buf: seq<byte>, from: nat, lengths: seq<nat>)
    requires lengths != [] && AllFullButLast(lengths) && EndOf(from, lengths) <= |buf|
    ensures Joined(Pieces(buf, from, lengths)) == buf[from..EndOf(from, lengths)]
    decreases |lengths|
  {
    var first, rest := buf[from..from + lengths[0]], Pieces(buf, from + MAX_SPI_RX, lengths[1..]);
    assert ([first] + rest)[1..] == rest;
    if |lengths| > 1 {
      PiecesJoin(buf, from + MAX_SPI_RX, lengths[1..]);
    }
  }

  /** The transfers cover the second phase, checksum included, without gap or overlap, and none is longer than
      the hardware can take or shorter than a word. */
  lemma TransfersCover(buf: seq<byte>, len2: nat)
    requires 1 <= len2 <= SECOND_MAX && |buf| >= Rounded(len2) + CRC_SIZE
    ensures var total := Rounded(len2) + CRC_SIZE;
            var lengths := TransferLengths(total);
            && 1 <= |lengths| <= 5
            && (forall n <- lengths :: 2 <= n <= 64 && n % 2 == 0)
            && AllFullButLast(lengths) && EndOf(0, lengths) == total
            && Joined(Pieces(buf, 0, lengths)) == buf[..total]
  {
    var total := Rounded(len2) + CRC_SIZE;
    PiecesJoin(buf, 0, TransferLengths(total));
  }

  // ----- frames -----

  /** `arm_comm_header` */
  function HeaderBytes(op: byte, len: byte, reg: word): (h: seq<byte>)
    ensures |h| == SIZEOF_HEADER
  {
    [op, len, Lo(reg), Hi(reg)]
  }

  function WithCrc(init: bv16, s: seq<byte>): (f: seq<byte>)
    ensures |f| == |s| + CRC_SIZE
  {
    s + Stored(Crc(init, s))
  }

  /** The checksum of the first phase, where the second goes on. */
  function FirstCrc(rx1: seq<byte>): bv16
    requires |rx1| == SIZEOF_HEADER + CRC_SIZE
  {
    Crc(0, rx1[..SIZEOF_HEADER])
  }

  predicate Intact(first: seq<byte>, second: seq<byte>) {
    hide Checked, Crc;
    |first| == SIZEOF_HEADER + CRC_SIZE && Checked(0, first) && Checked(FirstCrc(first), second)
  }

  /** What an operation makes of a reply: whether it succeeds, and a character that came in the header. */
  datatype Verdict = Verdict(ok: bool, header: Header)

  predicate IdlePattern(rx1: seq<byte>)
    requires |rx1| >= SIZEOF_HEADER
  {
    rx1[0] == 0xFA && rx1[2] == 0x55 && rx1[3] == 0x0E
  }

  function HeaderOf(rx1: seq<byte>): Header
    requires |rx1| >= SIZEOF_HEADER
  {
    if rx1[0] == ARM_OP_WRITE_CHAR then Char(rx1[3], rx1[2]) else Idle
  }

  /** `second` is all that was received in the second phase. */
  function Judge(rx1: seq<byte>, second: seq<byte>): Verdict
    requires |rx1| == SIZEOF_HEADER + CRC_SIZE
  {
    hide Checked, Crc;
    if !Checked(0, rx1) then Verdict(false, Idle)
    else
      Verdict(Intact(rx1, second) && (HeaderOf(rx1).Char? || IdlePattern(rx1)), HeaderOf(rx1))
  }

  /** The same for an operation of one phase. */
  function JudgeHeader(rx1: seq<byte>): Verdict
    requires |rx1| == SIZEOF_HEADER + CRC_SIZE
  {
    hide Checked;
    if !Checked(0, rx1) then Verdict(false, Idle)
    else Verdict(HeaderOf(rx1).Char? || IdlePattern(rx1), HeaderOf(rx1))
  }

  lemma WithCrcChecked(init: bv16, s: seq<byte>)
    ensures Checked(init, WithCrc(init, s))
  {
    hide Crc, Stored;
    var f := WithCrc(init, s);
    assert f[..|f| - 2] == s && f[|f| - 2..] == Stored(Crc(init, s));
  }

  /** A reply that is built the way the operations are built is accepted if its header is idle or brings a
      character - whatever was asked. */
  lemma HonestReplyAccepted(h: seq<byte>, body: seq<byte>)
    requires |h| == SIZEOF_HEADER
    ensures Judge(WithCrc(0, h), WithCrc(Crc(0, h), body))
            == Verdict(h[0] == ARM_OP_WRITE_CHAR || IdlePattern(h), HeaderOf(h))
  {
    hide Checked, Crc, Stored;
    var rx1 := WithCrc(0, h);
    WithCrcChecked(0, h);
    WithCrcChecked(Crc(0, h), body);
    assert rx1[..SIZEOF_HEADER] == h;
    assert rx1[0] == h[0] && rx1[2] == h[2] && rx1[3] == h[3];
  }

  /** Under a good first checksum, byte 3 of a header that begins with 65 goes to the end of the queue, and byte 2 counts
      the remote queue, 256 as 0 - whatever becomes of the second phase, and without one. */
  lemma CharacterTaken(q: Queue, rx1: seq<byte>, second: seq<byte>, remote: nat)
    requires q.Valid() && |rx1| == 6 && 1 <= remote <= 256
    requires Checked(0, rx1) && rx1[0] == 65 && rx1[2] == remote % 256
    ensures HeaderTaken(q, Judge(rx1, second).header) == WithCharacter(q, rx1[3], remote - 1)
    ensures HeaderTaken(q, JudgeHeader(rx1).header) == WithCharacter(q, rx1[3], remote - 1)
    ensures JudgeHeader(rx1).ok
    ensures Judge(rx1, second).ok <==> Intact(rx1, second)
  {
    hide Checked, Intact;
  }

  /** One more character at the end of a queue that is not full; a full one counts it. */
  function WithCharacter(q: Queue, ch: byte, remain: int): Queue {
    if |q.chars| < 256 then Queue(q.chars + [ch], remain, q.overflow) else Queue(q.chars, remain, q.overflow + 1)
  }

  /** Any other header leaves the queue alone, and succeeds only if it is FA xx 55 0E. */
  lemma OnlyCharactersTaken(q: Queue, rx1: seq<byte>, second: seq<byte>)
    requires q.Valid() && |rx1| == 6 && (rx1[0] != 65 || !Checked(0, rx1))
    ensures HeaderTaken(q, Judge(rx1, second).header) == q && HeaderTaken(q, JudgeHeader(rx1).header) == q
    ensures JudgeHeader(rx1).ok <==> Checked(0, rx1) && rx1[0] == 0xFA && rx1[2] == 0x55 && rx1[3] == 0x0E
    ensures Judge(rx1, second).ok <==> Intact(rx1, second) && JudgeHeader(rx1).ok
  {
    hide Checked, FirstCrc;
  }

  /** A reply whose first phase is damaged within 16 bits is turned down before anything is taken from it; one
      whose second phase is damaged so is turned down too. */
  lemma DamageRejected(rx1: seq<byte>, second: seq<byte>, bad1: seq<byte>, bad2: seq<byte>, p: nat)
    requires |rx1| == |bad1| == SIZEOF_HEADER + CRC_SIZE && Intact(rx1, second)
    ensures WithinBurst(MsbFirst, rx1, bad1, p) && rx1 != bad1 ==> Judge(bad1, second) == Verdict(false, Idle)
    ensures WithinBurst(MsbFirst, second, bad2, p) && second != bad2 ==> !Judge(rx1, bad2).ok
  {
    hide Checked, WithinBurst, Crc;
    if WithinBurst(MsbFirst, rx1, bad1, p) && rx1 != bad1 {
      BurstUnchecks(0, rx1, bad1, p);
    }
    if WithinBurst(MsbFirst, second, bad2, p) && second != bad2 {
      BurstUnchecks(FirstCrc(rx1), second, bad2, p);
    }
  }

  /** The second checksum covers both phases. */
  lemma SecondCoversBoth(h: seq<byte>, second: seq<byte>)
    requires |second| >= 2
    ensures Checked(Crc(0, h), second) <==> Checked(0, h + second)
  {
    hide Crc, Stored;
    var body := second[..|second| - 2];
    assert (h + second)[..|h + second| - 2] == h + body;
    assert (h + second)[|h + second| - 2..] == second[|second| - 2..];
    Chained(0, h, body);
  }

  /** A second phase belongs to one first checksum only. */
  lemma SecondBound(a: bv16, b: bv16, second: seq<byte>)
    requires Checked(a, second) && Checked(b, second)
    ensures a == b
  {
    var body := second[..|second| - 2];
    assert Stored(Crc(a, body)) == Stored(Crc(b, body));
    StoredInjective(Crc(a, body), Crc(b, body));
    CrcInjective(a, b, body);
  }

  // ----- the operation -----

  /** What the line does with one operation: `ioctl` reports no bytes or a failure, or both phases are exchanged. */
  datatype Wire = Down(ret: int) | Up(rx1: seq<byte>, rx2: seq<byte>)

  /** The line with a second phase of `total` bytes. */
  predicate Carries(wire: Wire, total: nat) {
    match wire
    case Down(ret) => ret <= 0
    case Up(rx1, rx2) => |rx1| == SIZEOF_HEADER + CRC_SIZE && |rx2| == total
  }

  /** What the operation returns. Where `ioctl` reports no bytes it is 0, as for an exchange that succeeded. */
  function Return(wire: Wire): (rc: int)
    requires wire.Up? ==> |wire.rx1| == SIZEOF_HEADER + CRC_SIZE
  {
    match wire
    case Down(ret) => ret
    case Up(rx1, rx2) => if Judge(rx1, rx2).ok then 0 else -1
  }

  function HeaderIn(wire: Wire): Header
    requires wire.Up? ==> |wire.rx1| == SIZEOF_HEADER + CRC_SIZE
  {
    match wire
    case Down(_) => Idle
    case Up(rx1, rx2) => Judge(rx1, rx2).header
  }

  /** The second receive buffer after the operation: what was not received stays, except that its first byte
      names the operation. */
  function Received(before: seq<byte>, op: byte, wire: Wire): (rx2: seq<byte>)
    requires before != [] && (wire.Up? ==> |wire.rx2| <= |before|)
    ensures |rx2| == |before|
  {
    match wire
    case Down(_) => before[0 := op]
    case Up(_, second) => if second == [] then before[0 := op] else second + before[|second|..]
  }

  /** `arm_handle`, as far as these operations use it. */
  class ArmHandle {
    const tx1: array<byte>
    const rx1: array<byte>
    const tx2: array<byte>
    const rx2: array<byte>
    const queue: UartQueue

    ghost predicate Valid()
      reads this, queue, queue.buffer
    {
      && tx1.Length == rx1.Length == SIZEOF_HEADER + CRC_SIZE && tx2.Length == rx2.Length == SECOND_BUFFER
      && tx1 != rx1 && tx2 != rx2 && tx1 != tx2 && tx1 != rx2 && rx1 != tx2 && rx1 != rx2
      && queue.buffer !in {tx1, rx1, tx2, rx2}
      && queue.Valid()
    }

    ghost function Repr(): set<object>
      reads this, queue
    {
      {tx1, rx1, tx2, rx2, queue, queue.buffer}
    }

    constructor ()
      ensures Valid() && fresh(Repr()) && queue.Value() == Queue([], 0, 0)
    {
      tx1, rx1 := new byte[SIZEOF_HEADER + CRC_SIZE], new byte[SIZEOF_HEADER + CRC_SIZE];
      tx2, rx2 := new byte[SECOND_BUFFER], new byte[SECOND_BUFFER];
      queue := new UartQueue();
    }

    method PutCrc(buf: array<byte>, at: nat, init: bv16) returns (crc: bv16)
      requires at + CRC_SIZE <= buf.Length
      modifies buf
      ensures crc == Crc(init, old(buf[..at]))
      ensures buf[..at + CRC_SIZE] == WithCrc(init, old(buf[..at]))
      ensures buf[at + CRC_SIZE..] == old(buf[at + CRC_SIZE..])
    {
      hide Crc, Stored;
      crc := SpiCrcString(buf, at, init);
      var s := Stored(crc);
      buf[at], buf[at + 1] := s[0], s[1];
      assert s == [s[0], s[1]];
    }

    /** The two checks of a received pair of phases, and what they do to the queue. */
    method CheckReply(n: nat) returns (ok: bool)
      requires Valid() && n + CRC_SIZE <= SECOND_BUFFER
      modifies queue, queue.buffer
      ensures Valid()
      ensures var v := Judge(rx1[..], rx2[..n + CRC_SIZE]);
              ok == v.ok && queue.Value() == HeaderTaken(old(queue.Value()), v.header)
    {
      hide Crc, Stored;
      var crc := SpiCrcString(rx1, SIZEOF_HEADER, 0);
      assert rx1[..][..SIZEOF_HEADER] == rx1[..SIZEOF_HEADER];
      if rx1[SIZEOF_HEADER..] != Stored(crc) {
        return false;
      }
      crc := SpiCrcString(rx2, n, crc);
      var intact := rx2[n..n + CRC_SIZE] == Stored(crc);
      assert rx2[..n + CRC_SIZE][..n] == rx2[..n] && rx2[..n + CRC_SIZE][n..] == rx2[n..n + CRC_SIZE];
      if rx1[0] == ARM_OP_WRITE_CHAR {
        queue.QueueUart(rx1[3], rx1[2]);
        return intact;
      }
      if !intact {
        return false;
      }
      ok := rx1[0] == 0xFA && rx1[2] == 0x55 && rx1[3] == 0x0E;
    }

    /** `two_phase_op` up to the transfers. */
    method Prepare(op: byte, reg: word, len2: nat) returns (lengths: seq<nat>)
      requires Valid() && 1 <= len2 <= SECOND_MAX
      modifies tx1, tx2
      ensures Valid()
      ensures SentAs(tx1[..], tx2[..], old(tx2[..]), op, reg, len2)
      ensures lengths == TransferLengths(Rounded(len2) + CRC_SIZE)
    {
      hide Crc, Stored, WithCrc;
      tx1[0], tx1[1], tx1[2], tx1[3] := op, Lo(len2), Lo(reg), Hi(reg);
      assert tx1[..SIZEOF_HEADER] == HeaderBytes(op, Lo(len2), reg);
      if op != ARM_OP_WRITE_STR {
        tx2[0], tx2[2], tx2[3] := op, Lo(reg), Hi(reg);
      }
      ghost var body := tx2[..];
      assert body == Addressed(old(tx2[..]), op, reg);
      var n := Rounded(len2);
      var crc := PutCrc(tx1, SIZEOF_HEADER, 0);
      assert tx1[..] == tx1[..SIZEOF_HEADER + CRC_SIZE];
      assert tx2[..] == body && tx2[..n] == body[..n];
      crc := PutCrc(tx2, n, crc);
      lengths := TransferLengths(n + CRC_SIZE);
    }

    /** `two_phase_op` */
    method TwoPhaseOp(op: byte, reg: word, len2: nat, wire: Wire) returns (rc: int, ghost lengths: seq<nat>)
      requires Valid() && 1 <= len2 <= SECOND_MAX
      requires Carries(wire, Rounded(len2) + CRC_SIZE)
      modifies tx1, tx2, rx1, rx2, queue, queue.buffer
      ensures Valid()
      // what goes out: two phases under their checksums, the second cut into transfers
      ensures SentAs(tx1[..], tx2[..], old(tx2[..]), op, reg, len2)
      ensures lengths == TransferLengths(Rounded(len2) + CRC_SIZE)
      // what comes back
      ensures rc == Return(wire) && queue.Value() == HeaderTaken(old(queue.Value()), HeaderIn(wire))
      ensures rx1[..] == (if wire.Up? then wire.rx1 else old(rx1[..])) && rx2[..] == Received(old(rx2[..]), op, wire)
    {
      hide Crc, Stored, WithCrc, Judge, TransferLengths, SentAs;
      lengths := Prepare(op, reg, len2);
      ghost var first, second := tx1[..], tx2[..];
      rx2[0] := op;
      assert tx1[..] == first && tx2[..] == second;
      if wire.Down? {
        return wire.ret, lengths;
      }
      var n := Rounded(len2);
      forall k | 0 <= k < SIZEOF_HEADER + CRC_SIZE {
        rx1[k] := wire.rx1[k];
      }
      forall k | 0 <= k < n + CRC_SIZE {
        rx2[k] := wire.rx2[k];
      }
      assert rx1[..] == wire.rx1 && rx2[..n + CRC_SIZE] == wire.rx2;
      var ok := CheckReply(n);
      assert tx1[..] == first && tx2[..] == second;
      assert rx2[..] == wire.rx2 + old(rx2[..])[|wire.rx2|..];
      rc := if ok then 0 else -1;
    }

    /** `one_phase_op`; without `rx` the line is down. */
    method OnePhaseOp(op: byte, reg: word, value: byte, up: bool, rx: seq<byte>) returns (rc: int)
      requires Valid() && |rx| == SIZEOF_HEADER + CRC_SIZE
      modifies tx1, rx1, queue, queue.buffer
      ensures Valid() && tx1[..] == WithCrc(0, HeaderBytes(op, value, reg))
      ensures !up ==> rc == -1 && queue.Value() == old(queue.Value())
      ensures up ==>
                var v := JudgeHeader(rx);
                rx1[..] == rx && rc == (if v.ok then 0 else -1) && queue.Value() == HeaderTaken(old(queue.Value()), v.header)
    {
      hide Crc, Stored, WithCrc;
      tx1[0], tx1[1], tx1[2], tx1[3] := op, value, Lo(reg), Hi(reg);
      assert tx1[..SIZEOF_HEADER] == HeaderBytes(op, value, reg);
      var crc := PutCrc(tx1, SIZEOF_HEADER, 0);
      ghost var sent := tx1[..];
      assert sent == tx1[..SIZEOF_HEADER + CRC_SIZE];
      if !up {
        return -1;
      }
      forall k | 0 <= k < SIZEOF_HEADER + CRC_SIZE {
        rx1[k] := rx[k];
      }
      assert tx1[..] == sent && rx1[..] == rx;
      crc := SpiCrcString(rx1, SIZEOF_HEADER, 0);
      assert rx1[..][..SIZEOF_HEADER] == rx1[..SIZEOF_HEADER];
      if rx1[SIZEOF_HEADER..] != Stored(crc) {
        return -1;
      }
      if rx1[0] == 0xFA && rx1[2] == 0x55 && rx1[3] == 0x0E {
        return 0;
      }
      if rx1[0] == ARM_OP_WRITE_CHAR {
        queue.QueueUart(rx1[3], rx1[2]);
        assert tx1[..] == sent && rx1[..] == rx;
        return 0;
      }
      rc := -1;
    }

    /** `read_string`, over the wire. */
    method ReadString(str: array<byte>, at: nat, cnt: nat, wire: Wire) returns (rc: int, ghost x: Exchange)
      requires Valid() && str !in Repr() && at + cnt <= str.Length && cnt < 65535
      requires Carries(wire, AskedLength(cnt) + CRC_SIZE)
      modifies tx1, tx2, rx1, rx2, queue, queue.buffer, str
      ensures Valid() && x == Decode(wire, Received(old(rx2[..]), ARM_OP_READ_STR, wire)) && Possible(x)
      ensures match ReadingString(old(queue.Value()), cnt, x)
              case Fails(q) => rc < 0 && queue.Value() == q && str[..] == old(str[..])
              case Read(q, got) => queue.Value() == q && rc == |got| && Written(old(str[..]), str[..], at, got)
    {
      hide Crc, Stored, WithCrc, SentAs, TransferLengths, Checked, Join, Written;
      var len2 := AskedLength(cnt);
      ghost var lengths;
      rc, lengths := TwoPhaseOp(ARM_OP_READ_STR, 0, len2, wire);
      x := Decode(wire, rx2[..]);
      assert str[..] == old(str[..]);
      if rc < 0 {
        return;
      }
      if rx2[0] != ARM_OP_READ_STR {
        return -1, x;
      }
      queue.remain := rx2[3];
      rc := queue.Import(str, at, cnt, rx2[SIZEOF_HEADER..SIZEOF_HEADER + rx2[1]]);
    }
  }

  /** The two phases that go out, each under its checksum; `before` is what the caller left in the buffer. */
  predicate SentAs(tx1: seq<byte>, tx2: seq<byte>, before: seq<byte>, op: byte, reg: word, len2: nat)
  {
    hide WithCrc, Crc;
    var n, h := Rounded(len2), HeaderBytes(op, Lo(len2), reg);
    && |tx2| == |before| == SECOND_BUFFER && n + CRC_SIZE <= SECOND_BUFFER
    && tx1 == WithCrc(0, h)
    && tx2[..n + CRC_SIZE] == WithCrc(Crc(0, h), Addressed(before, op, reg)[..n])
  }

  /** Both phases that go out pass the check that replies are put to. */
  lemma SentIsIntact(tx1: seq<byte>, tx2: seq<byte>, before: seq<byte>, op: byte, reg: word, len2: nat)
    requires |tx2| == |before| == SECOND_BUFFER && Rounded(len2) + CRC_SIZE <= SECOND_BUFFER
    ensures SentAs(tx1, tx2, before, op, reg, len2) ==> Intact(tx1, tx2[..Rounded(len2) + CRC_SIZE])
  {
    hide Crc, Checked, Stored;
    var h := HeaderBytes(op, Lo(len2), reg);
    WithCrcChecked(0, h);
    WithCrcChecked(Crc(0, h), Addressed(before, op, reg)[..Rounded(len2)]);
    assert tx1 == WithCrc(0, h) ==> tx1[..SIZEOF_HEADER] == h;
  }

  /** The header of the second phase repeats the operation and the register, except in a written string. */
  function Addressed(tx2: seq<byte>, op: byte, reg: word): (s: seq<byte>)
    requires |tx2| == SECOND_BUFFER
    ensures |s| == |tx2|
  {
    if op == ARM_OP_WRITE_STR then tx2 else tx2[0 := op][2 := Lo(reg)][3 := Hi(reg)]
  }

  /** The bytes of both phases: operation, length and register, low byte first, and the same operation and register in front
      of the second one. */
  predicate PhasesAre(tx1: seq<byte>, tx2: seq<byte>, before: seq<byte>, op: byte, reg: word, len2: nat) {
    && |tx1| == 6 && tx1[0] == op && tx1[1] == len2 % 256 && tx1[2] == reg % 256 && tx1[3] == reg / 256
    && 4 <= len2 <= |tx2| && |tx2| == |before|
    && (op != 100 ==> tx2[0] == op && tx2[1] == before[1] && tx2[2] == reg % 256 && tx2[3] == reg / 256)
    && forall k | (if op == 100 then 0 else 4) <= k < len2 :: tx2[k] == before[k]
  }

  lemma PhaseBytes(tx1: seq<byte>, tx2: seq<byte>, before: seq<byte>, op: byte, reg: word, len2: nat)
    requires 4 <= len2
    ensures SentAs(tx1, tx2, before, op, reg, len2) ==> PhasesAre(tx1, tx2, before, op, reg, len2)
  {
    hide Crc, Stored, WithCrc;
    if SentAs(tx1, tx2, before, op, reg, len2) {
      var n, h := Rounded(len2), HeaderBytes(op, Lo(len2), reg);
      var s := Addressed(before, op, reg);
      PhaseFirst(0, h, tx1);
      PhaseFirst(Crc(0, h), s[..n], tx2[..n + CRC_SIZE]);
      forall k | 0 <= k < n
        ensures tx2[k] == s[k]
      {
        assert tx2[k] == tx2[..n + CRC_SIZE][k] == s[..n][k];
      }
    }
  }

  lemma PhaseFirst(init: bv16, s: seq<byte>, t: seq<byte>)
    requires t == WithCrc(init, s)
    ensures |t| == |s| + CRC_SIZE && t[..|s|] == s && forall k | 0 <= k < |s| :: t[k] == s[k]
  {
    hide Crc, Stored;
  }

  /** The length of the second phase of a read for `cnt` characters. */
  function AskedLength(cnt: nat): (n: nat)
    ensures SIZEOF_HEADER <= n <= 256 && Rounded(n) == n
  {
    var len2 := Rounded(cnt);
    SIZEOF_HEADER + if len2 > SPI_STR_MAX then SPI_STR_MAX else len2
  }

  /** An even number of characters is asked for, and 240 at most. */
  lemma AskedIs(cnt: nat)
    ensures AskedLength(cnt) == 4 + if cnt >= 240 then 240 else cnt + cnt % 2
  {
  }

  /** The reply to READ_STR as the UART queue sees it. The string is taken from the whole receive buffer, as long
      as the buffer says it is; where `ioctl` reported no bytes, that is what an earlier reply left there. */
  function Decode(wire: Wire, rx2: seq<byte>): (x: Exchange)
    requires (wire.Up? ==> |wire.rx1| == SIZEOF_HEADER + CRC_SIZE) && |rx2| == SECOND_BUFFER
    ensures Possible(x)
  {
    hide Checked, Return, HeaderIn;
    if wire.Up? && !Checked(0, wire.rx1) then NoReply
    else if wire.Down? && wire.ret < 0 then NoReply
    else Reply(HeaderIn(wire), if Return(wire) < 0 then Unusable else StringIn(rx2))
  }

  function StringIn(rx2: seq<byte>): (s: Second)
    requires |rx2| == SECOND_BUFFER
    ensures s.Str? ==> |s.data| < 256
  {
    if rx2[0] != ARM_OP_READ_STR then Unusable
    else Str(rx2[SIZEOF_HEADER..SIZEOF_HEADER + rx2[1]], rx2[3])
  }

  function StringOf(rx2: seq<byte>): Second
    requires |rx2| >= 4 && (rx2[0] == 101 ==> rx2[1] <= |rx2| - 4)
  {
    if rx2[0] == 101 then Str(rx2[4..rx2[1] + 4], rx2[3]) else Unusable
  }

  /** The bytes of a string reply: 101, the length, and in byte 3 how much remains; the string is behind them. */
  lemma StringTaken(wire: Wire, before: seq<byte>)
    requires wire.Up? && |wire.rx1| == 6 && 4 <= |wire.rx2| <= |before| == SECOND_BUFFER
    requires wire.rx2[0] == 101 ==> wire.rx2[1] <= |wire.rx2| - 4
    ensures Return(wire) >= 0 ==> Decode(wire, Received(before, 101, wire)) == Reply(HeaderIn(wire), StringOf(wire.rx2))
  {
    hide Checked, Return, HeaderIn, StringIn;
    ReturnChecked(wire);
    StringInside(wire.rx2, before[|wire.rx2|..]);
  }

  /** What a read takes does not depend on what an earlier reply left in the receive buffer. */
  ghost predicate OwnReply(wire: Wire)
    requires wire.Up? ==> |wire.rx1| == SIZEOF_HEADER + CRC_SIZE && |wire.rx2| <= SECOND_BUFFER
  {
    forall a, b: seq<byte> | |a| == |b| == SECOND_BUFFER ::
      Decode(wire, Received(a, ARM_OP_READ_STR, wire)) == Decode(wire, Received(b, ARM_OP_READ_STR, wire))
  }

  /** A read fails, or takes its own reply - exactly when phases were exchanged and the string that the reply announces
      does not reach beyond it. */
  lemma OwnReplyExactly(wire: Wire, total: nat)
    requires Carries(wire, total) && SIZEOF_HEADER <= total <= SECOND_BUFFER
    ensures OwnReply(wire) <==>
              || Return(wire) < 0
              || (wire.Up? && (wire.rx2[0] != ARM_OP_READ_STR || SIZEOF_HEADER + wire.rx2[1] <= total))
  {
    hide Checked, Return, HeaderIn, Judge, StringIn, Received, Decode;
    if Return(wire) < 0 {
      FailureOwn(wire);
    } else if wire.Down? {
      ReturnDown(wire);
      var a, b := seq(SECOND_BUFFER, _ => 0), seq(SECOND_BUFFER, k => if k == 3 then 1 else 0);
      StaleStrings(wire, a, b);
    } else if wire.rx2[0] != ARM_OP_READ_STR || SIZEOF_HEADER + wire.rx2[1] <= total {
      forall a, b: seq<byte> | |a| == |b| == SECOND_BUFFER
        ensures Decode(wire, Received(a, ARM_OP_READ_STR, wire)) == Decode(wire, Received(b, ARM_OP_READ_STR, wire))
      {
        InsideOwn(wire, total, a, b);
      }
    } else {
      BeyondStale(wire, total, seq(SECOND_BUFFER, _ => 0), seq(SECOND_BUFFER, _ => 1));
    }
  }

  lemma FailureOwn(wire: Wire)
    requires wire.Up? ==> |wire.rx1| == SIZEOF_HEADER + CRC_SIZE && |wire.rx2| <= SECOND_BUFFER
    requires Return(wire) < 0
    ensures OwnReply(wire)
  {
    hide Checked, Return, HeaderIn;
  }

  lemma StaleStrings(wire: Wire, a: seq<byte>, b: seq<byte>)
    requires wire.Down? && wire.ret == 0 && |a| == |b| == SECOND_BUFFER && a[3] != b[3]
    ensures Decode(wire, Received(a, ARM_OP_READ_STR, wire)) != Decode(wire, Received(b, ARM_OP_READ_STR, wire))
  {
    hide HeaderIn;
  }

  lemma InsideOwn(wire: Wire, total: nat, a: seq<byte>, b: seq<byte>)
    requires Carries(wire, total) && wire.Up? && SIZEOF_HEADER <= total <= SECOND_BUFFER
    requires |a| == |b| == SECOND_BUFFER
    requires wire.rx2[0] != ARM_OP_READ_STR || SIZEOF_HEADER + wire.rx2[1] <= total
    ensures Decode(wire, Received(a, ARM_OP_READ_STR, wire)) == Decode(wire, Received(b, ARM_OP_READ_STR, wire))
  {
    hide Checked, Return, HeaderIn, StringIn;
    StringInside(wire.rx2, a[total..]);
    StringInside(wire.rx2, b[total..]);
  }

  lemma BeyondStale(wire: Wire, total: nat, a: seq<byte>, b: seq<byte>)
    requires Carries(wire, total) && wire.Up? && SIZEOF_HEADER <= total < SECOND_BUFFER && Return(wire) >= 0
    requires |a| == |b| == SECOND_BUFFER && a[total] != b[total]
    requires wire.rx2[0] == ARM_OP_READ_STR && SIZEOF_HEADER + wire.rx2[1] > total
    ensures Decode(wire, Received(a, ARM_OP_READ_STR, wire)) != Decode(wire, Received(b, ARM_OP_READ_STR, wire))
  {
    hide Checked, Return, HeaderIn, StringIn;
    ReturnChecked(wire);
    StringBeyond(wire.rx2, a[total..]);
    StringBeyond(wire.rx2, b[total..]);
  }

  lemma ReturnDown(wire: Wire)
    requires wire.Down?
    ensures Return(wire) == wire.ret
  {
  }

  lemma ReturnChecked(wire: Wire)
    requires wire.Up? && |wire.rx1| == SIZEOF_HEADER + CRC_SIZE
    ensures Return(wire) >= 0 ==> Checked(0, wire.rx1)
  {
    hide Checked, Intact;
  }

  lemma StringInside(rx2: seq<byte>, rest: seq<byte>)
    requires |rx2| >= SIZEOF_HEADER && |rx2| + |rest| == SECOND_BUFFER
    requires rx2[0] == ARM_OP_READ_STR ==> SIZEOF_HEADER + rx2[1] <= |rx2|
    ensures StringIn(rx2 + rest)
            == if rx2[0] != ARM_OP_READ_STR then Unusable
               else Str(rx2[SIZEOF_HEADER..SIZEOF_HEADER + rx2[1]], rx2[3])
  {
  }

  lemma StringBeyond(rx2: seq<byte>, rest: seq<byte>)
    requires |rx2| >= SIZEOF_HEADER && |rx2| + |rest| == SECOND_BUFFER
    requires rx2[0] == ARM_OP_READ_STR && SIZEOF_HEADER + rx2[1] > |rx2|
    ensures var s := StringIn(rx2 + rest);
            s.Str? && |s.data| > |rx2| - SIZEOF_HEADER && s.data[|rx2| - SIZEOF_HEADER] == rest[0]
  {
  }

  const IDLE_HEADER: seq<byte> := [0xFA, 0, 0x55, 0x0E]

  /** A reply to a read of one character that announces 255: with good checksums it is accepted, and 251 bytes of an
      earlier reply come with it, behind its own checksum. */
  lemma OverlongReply(before: seq<byte>, body: seq<byte>) returns (wire: Wire)
    requires |before| == SECOND_BUFFER && |body| == AskedLength(1) && body[0] == ARM_OP_READ_STR && body[1] == 255
    ensures Carries(wire, AskedLength(1) + CRC_SIZE) && wire.Up? && body <= wire.rx2 && Return(wire) == 0
    ensures Decode(wire, Received(before, ARM_OP_READ_STR, wire))
            == Reply(Idle, Str(wire.rx2[SIZEOF_HEADER..] + before[8..259], body[3]))
  {
    hide Checked, Return, HeaderIn, StringIn;
    wire := IdleReply(body);
    var rx2 := Received(before, ARM_OP_READ_STR, wire);
    assert rx2 == wire.rx2 + before[8..];
    OverlongString(wire.rx2, before, body);
  }

  lemma IdleReply(body: seq<byte>) returns (wire: Wire)
    ensures Carries(wire, |body| + CRC_SIZE) && wire.Up? && body <= wire.rx2
    ensures Return(wire) == 0 && HeaderIn(wire) == Idle && Checked(0, wire.rx1)
  {
    hide Crc, Stored, Checked, WithCrc, Judge;
    wire := Up(WithCrc(0, IDLE_HEADER), WithCrc(Crc(0, IDLE_HEADER), body));
    HonestReplyAccepted(IDLE_HEADER, body);
    WithCrcChecked(0, IDLE_HEADER);
    BodyFirst(Crc(0, IDLE_HEADER), body);
  }

  lemma OverlongString(rx2: seq<byte>, before: seq<byte>, body: seq<byte>)
    requires |rx2| == 8 && |before| == SECOND_BUFFER && |body| == 6 && body <= rx2
    requires body[0] == ARM_OP_READ_STR && body[1] == 255
    ensures StringIn(rx2 + before[8..]) == Str(rx2[SIZEOF_HEADER..] + before[8..259], body[3])
  {
    var all := rx2 + before[8..];
    assert all[0] == body[0] && all[1] == body[1] && all[3] == body[3];
    assert all[SIZEOF_HEADER..SIZEOF_HEADER + 255] == rx2[SIZEOF_HEADER..] + before[8..259];
  }

  lemma BodyFirst(init: bv16, body: seq<byte>)
    ensures body <= WithCrc(init, body)
  {
    hide Crc, Stored;
  }

  /** Where `ioctl` reports no bytes, a read takes the string of the reply before it once more. */
  lemma NoBytesRereads(before: seq<byte>)
    requires |before| == SECOND_BUFFER
    ensures Decode(Down(0), Received(before, ARM_OP_READ_STR, Down(0)))
            == Reply(Idle, Str(before[SIZEOF_HEADER..SIZEOF_HEADER + before[1]], before[3]))
  {
    var after := before[0 := ARM_OP_READ_STR];
    assert after[SIZEOF_HEADER..SIZEOF_HEADER + before[1]] == before[SIZEOF_HEADER..SIZEOF_HEADER + before[1]];
  }
}
