/** A call from end to end: request, server, confirmation - and whole runs of calls. */
module Transaction {
  import opened Bytes
  import opened BitPacking
  import opened Pdu
  import opened Refinement
  import opened Transport
  import opened Receive

  // ----- everything that is sent is a frame -----

  lemma RequestFramed(call: Call)
    requires !TooMuch(call)
    ensures IsPduFrame(Indication, RequestPdu(call))
  {
    hide PackBits, RegisterBytes, Normal;
    PayloadLength(call);
    RequestHead(call, RequestPdu(call));
    if call.WriteBits? {
      PayloadCount(call);
      ByteCountFits(|call.src|);
    } else if call.WriteRegisters? {
      PayloadCount(call);
      DoubleFits(|call.values|);
    } else if call.WriteAndRead? {
      PayloadCount(call);
      DoubleFits(|call.values|);
    }
  }

  /** Where a request carries a byte count, and what it says. */
  lemma PayloadCount(call: Call)
    requires !TooMuch(call)
    ensures call.WriteBits? ==>
              |RequestPdu(call)| == 6 + ByteCount(|call.src|) && RequestPdu(call)[5] == Lo(ByteCount(|call.src|))
    ensures call.WriteRegisters? ==>
              |RequestPdu(call)| == 6 + 2 * |call.values| && RequestPdu(call)[5] == Lo(2 * |call.values|)
    ensures call.WriteAndRead? ==>
              |RequestPdu(call)| == 10 + 2 * |call.values| && RequestPdu(call)[9] == Lo(2 * |call.values|)
  {
    hide PackBits, RegisterBytes, Normal, ByteCount, Lo, Hi;
  }

  /** Function codes whose responses are longer than an exception response. */
  predicate LongerThanTwo(fc: byte) {
    fc in {0, READ_COILS, READ_DISCRETE_INPUTS, READ_HOLDING_REGISTERS, READ_INPUT_REGISTERS, WRITE_SINGLE_COIL,
           WRITE_SINGLE_REGISTER, WRITE_MULTIPLE_COILS, WRITE_MULTIPLE_REGISTERS, REPORT_SLAVE_ID, MASK_WRITE_REGISTER,
           WRITE_AND_READ_REGISTERS}
  }

  /** Whatever request the server answers, its answer is framed - exactly unless the exception code of the request's
      function code, cut to eight bits, is a function code with longer responses. */
  lemma AnswerFramed(m: Mapping, p: seq<byte>, n: nat)
    requires |p| >= MAX_PDU && n <= |p| && IsPduFrame(Indication, p[..n])
    requires Serve(m, p, n).Answer?
    ensures IsPduFrame(ConfirmationMsg, Serve(m, p, n).pdu) <==> p[0] < 0x80 || !LongerThanTwo(p[0] - 0x80)
    ensures 2 <= |Serve(m, p, n).pdu|
  {
    assert p[..n][0] == p[0];
    if p[0] < 0x80 {
      LowCodeFramed(m, p, n);
    } else {
      HighCodeFramed(m, p, n);
    }
  }

  lemma HighCodeFramed(m: Mapping, p: seq<byte>, n: nat)
    requires |p| >= MAX_PDU && n <= |p| && p[0] >= 0x80
    ensures Serve(m, p, n) == Answer(m, [p[0] - 0x80, ILLEGAL_FUNCTION])
    ensures IsPduFrame(ConfirmationMsg, [p[0] - 0x80, ILLEGAL_FUNCTION]) <==> !LongerThanTwo(p[0] - 0x80)
  {
  }

  /** Function code 0x81: the answer looks like the beginning of a read of coils, with one byte of data to come. */
  lemma WrappedCodeUnframed(m: Mapping, rest: seq<byte>)
    requires |rest| == MAX_PDU - 1
    ensures var p := [0x81] + rest;
            && IsPduFrame(Indication, p[..1]) && Serve(m, p, 1) == Answer(m, [READ_COILS, ILLEGAL_FUNCTION])
            && !IsPduFrame(ConfirmationMsg, [READ_COILS, ILLEGAL_FUNCTION])
  {
    var p := [0x81] + rest;
    assert p[..1] == [0x81];
    HighCodeFramed(m, p, 1);
  }

  lemma LowCodeFramed(m: Mapping, p: seq<byte>, n: nat)
    requires |p| >= MAX_PDU && n <= |p| && IsPduFrame(Indication, p[..n]) && p[0] < 0x80
    requires Serve(m, p, n).Answer?
    ensures IsPduFrame(ConfirmationMsg, Serve(m, p, n).pdu)
    ensures 2 <= |Serve(m, p, n).pdu|
  {
    hide PackBits, UnpackBits, RegisterBytes, BytesRegisters, Mask, Word, ByteCount, Lo;
    assert p[..n][0] == p[0];
    var fc, count := p[0], Word(p[3], p[4]);
    RefusalFramed(m, fc);
    if count <= MAX_READ_BITS {
      ByteCountFits(count);
    }
    if count <= MAX_READ_REGISTERS {
      DoubleFits(count);
    }
    IdentityFramed(fc);
    hide Refuse;
  }

  lemma RefusalFramed(m: Mapping, fc: byte)
    requires fc < 0x80
    ensures forall code: byte ::
              Refuse(m, fc, code).Answer? && IsPduFrame(ConfirmationMsg, Refuse(m, fc, code).pdu)
              && |Refuse(m, fc, code).pdu| == 2
  {
  }

  lemma IdentityFramed(fc: byte)
    ensures fc == REPORT_SLAVE_ID ==> IsPduFrame(ConfirmationMsg, [fc, Lo(2 + |IDENTITY|), SLAVE_ID, 0xFF] + IDENTITY)
  {
  }

  /** Which function codes the server answers with data or an echo. */
  predicate Supported(fc: byte) {
    fc in {READ_COILS, READ_DISCRETE_INPUTS, READ_HOLDING_REGISTERS, READ_INPUT_REGISTERS, WRITE_SINGLE_COIL,
           WRITE_SINGLE_REGISTER, WRITE_MULTIPLE_COILS, WRITE_MULTIPLE_REGISTERS, MASK_WRITE_REGISTER,
           WRITE_AND_READ_REGISTERS}
  }

  /** The length the client expects is the length of the answer the server builds, unless it refuses. */
  lemma ExpectedLength(m: Mapping, p: seq<byte>, n: nat)
    requires |p| >= MAX_PDU && n <= |p| && IsPduFrame(Indication, p[..n]) && Supported(p[0])
    requires Serve(m, p, n).Answer? && Serve(m, p, n).pdu[0] == p[0]
    ensures n >= 5 && ResponseLength(p[..n]) == Known(|Serve(m, p, n).pdu|)
  {
    hide PackBits, UnpackBits, RegisterBytes, BytesRegisters, Mask, Word;
    assert p[..n][0] == p[0];
    assert n >= 5;
    assert p[..n][3] == p[3] && p[..n][4] == p[4];
    RefusalDiffers(m, p[0]);
  }

  lemma RefusalDiffers(m: Mapping, fc: byte)
    requires fc < 0x80
    ensures forall code: byte :: Refuse(m, fc, code).Answer? && Refuse(m, fc, code).pdu[0] != fc
  {
  }

  // ----- arbitrary pieces -----

  /** Once a frame stands at the head of the line, what a receiver takes off it is a part of that
      frame or exactly the frame, in whatever pieces it arrives. */
  lemma PiecesDoNotMatter(be: Backend, kind: Kind, frame: seq<byte>, rest: seq<byte>, n: nat)
    requires IsFrame(be, kind, frame) && n <= |frame + rest|
    ensures match Frame(be, kind, (frame + rest)[..n])
            case TooLong => false
            case Whole(length) => length == |frame| <= n
            case Short(need) => n < need <= |frame|
  {
    hide Frame;
    var s := (frame + rest)[..n];
    if n <= |frame| {
      assert frame == s + frame[n..];
      FrameStable(be, kind, s, frame[n..]);
      ShortWithin(be, kind, s, frame[n..]);
    } else {
      assert s == frame + rest[..n - |frame|];
      FrameStable(be, kind, frame, rest[..n - |frame|]);
    }
  }

  lemma ShortWithin(be: Backend, kind: Kind, s: seq<byte>, t: seq<byte>)
    requires IsFrame(be, kind, s + t)
    ensures Frame(be, kind, s).Short? ==> Frame(be, kind, s).need <= |s + t|
  {
    var h := be.HeaderLength();
    if |s| >= h + 1 {
      assert (s + t)[h] == s[h];
      if |s| >= h + 1 + MetaLength(kind, s[h]) {
        assert (s + t)[h..] == s[h..] + t;
      }
    }
  }

  // ----- the server's message -----

  datatype Reply =
    | Send(m: Mapping, msg: seq<byte>)
    | Keep(m: Mapping)
    | Unimplemented
    | Outside

  predicate Echoed(fc: byte) {
    fc == WRITE_SINGLE_COIL || fc == WRITE_SINGLE_REGISTER || fc == MASK_WRITE_REGISTER
  }

  /** The header of an answer: an echo repeats the protocol bytes of the request, any other answer has zeros. */
  function ReplyHeader(be: Backend, buf: seq<byte>, echo: bool, n: nat): (h: seq<byte>)
    requires |buf| >= be.MaxAdu()
    ensures |h| == be.HeaderLength()
  {
    match be
    case Rtu => [buf[0]]
    case Tcp =>
      [buf[0], buf[1], if echo then buf[2] else 0, if echo then buf[3] else 0, Hi(n + 1), Lo(n + 1), buf[6]]
  }

  /** `modbus_reply`: what is sent for the request in the first `length` bytes of the receive buffer. */
  function ReplyTo(be: Backend, m: Mapping, buf: seq<byte>, length: nat): Reply
    requires |buf| >= be.MaxAdu()
    requires be.HeaderLength() + be.ChecksumLength() < length <= be.MaxAdu()
  {
    var h := be.HeaderLength();
    match Serve(m, buf[h..], length - h - be.ChecksumLength())
    case Silent => Unimplemented
    case OutOfBounds => Outside
    case Answer(m', pdu) =>
      if buf[h - 1] == BROADCAST then Keep(m')
      else
        var echo := Echoed(buf[h]) && pdu[..1] == [buf[h]];
        var body := ReplyHeader(be, buf, echo, |pdu|) + pdu;
        Send(m', body + Trailer(be, body))
  }

  /** The answer to a message of the library's own client is an ADU with the client's identifiers. */
  lemma ReplyIsAdu(be: Backend, m: Mapping, tid: word, unit: byte, q: seq<byte>, stale: seq<byte>)
    requires 1 <= |q| <= MAX_PDU && unit != BROADCAST
    requires |Adu(be, tid, unit, q) + stale| >= be.MaxAdu()
    ensures var req := Adu(be, tid, unit, q);
            var p := (req + stale)[be.HeaderLength()..];
            && |p| >= MAX_PDU && q <= p
            && ReplyTo(be, m, req + stale, |req|)
               == match Serve(m, p, |q|)
                  case Silent => Unimplemented
                  case OutOfBounds => Outside
                  case Answer(m', pdu) => Send(m', Adu(be, tid, unit, pdu))
  {
    var req, h := Adu(be, tid, unit, q), be.HeaderLength();
    var buf := req + stale;
    AduParts(be, tid, unit, q);
    AduHead(be, tid, unit, q);
    hide Serve, Adu, Hi, Lo, Trailer;
    SliceThere(buf, h, h + |q|);
    assert buf[h..h + |q|] == req[h..h + |q|];
    assert buf[h..][..|q|] == q;
    assert buf[h - 1] == unit;
    match Serve(m, buf[h..], |q|)
    case Silent =>
    case OutOfBounds =>
    case Answer(m', pdu) =>
      AduBody(be, tid, unit, pdu);
      assert buf[0] == req[0];
      if be.Tcp? {
        assert buf[1] == req[1] && buf[2] == req[2] && buf[3] == req[3] && buf[6] == req[6];
      }
      assert forall echo :: ReplyHeader(be, buf, echo, |pdu|) == Header(be, tid, unit, |pdu|);
  }

  lemma AduBody(be: Backend, tid: word, unit: byte, pdu: seq<byte>)
    ensures var body := Header(be, tid, unit, |pdu|) + pdu; Adu(be, tid, unit, pdu) == body + Trailer(be, body)
  {
  }

  // ----- one call -----

  /** What the client makes of a received confirmation: `check_confirmation`, then decoding. */
  function ClientOutcome(be: Backend, call: Call, req: seq<byte>, rsp: seq<byte>): Outcome
    requires !TooMuch(call) && |req| > be.HeaderLength()
    requires |rsp| >= be.HeaderLength() + 2 + be.ChecksumLength()
  {
    if !PreCheck(be, req, rsp) then Failed(if be.Rtu? then BadSlave else BadData)
    else Finish(call, rsp[be.HeaderLength()..|rsp| - be.ChecksumLength()])
  }

  /** One call on the wire: `Done` with the client's result, the server's tables and the client's next
      transaction identifier, or `Lost` where the server leaves its tables. */
  datatype Exchange = Done(outcome: Outcome, m: Mapping, tid: word) | Lost

  function RequestTid(be: Backend, tid: word): word {
    if be.Tcp? then NextTid(tid) else tid
  }

  /** `stale` is what the server's receive buffer held before, behind the request. */
  function OnTheWire(be: Backend, m: Mapping, tid: word, slave: byte, call: Call, stale: seq<byte>): Exchange
    requires |stale| >= be.MaxAdu()
  {
    if TooMuch(call) then Done(Failed(TooMuchData), m, tid)
    else
      var tid' := RequestTid(be, tid);
      RequestFits(be, tid', slave, call);
      var req := Adu(be, tid', slave, RequestPdu(call));
      match ReplyTo(be, m, req + stale, |req|)
      case Send(m', rsp) =>
        if |rsp| >= be.HeaderLength() + 2 + be.ChecksumLength() then Done(ClientOutcome(be, call, req, rsp), m', tid')
        else Lost
      case _ => Lost
  }

  lemma RequestFits(be: Backend, tid: word, slave: byte, call: Call)
    requires !TooMuch(call)
    ensures be.HeaderLength() + 5 + be.ChecksumLength() <= |Adu(be, tid, slave, RequestPdu(call))| <= be.MaxAdu()
  {
    hide RequestPdu;
  }

  /** The request is one frame and intact; and so is the answer, with the result and the tables of the
      operation itself in it. */
  lemma ExchangeRefines(be: Backend, m: Mapping, tid: word, slave: byte, call: Call, stale: seq<byte>)
    requires !TooMuch(call) && slave != BROADCAST
    requires |Adu(be, tid, slave, RequestPdu(call))| + |stale| >= be.MaxAdu()
    ensures var req := Adu(be, tid, slave, RequestPdu(call));
            && IsFrame(be, Indication, req) && CheckIntegrity(be, slave, req) == |req|
            && (if WritesBelowStart(m, call) then ReplyTo(be, m, req + stale, |req|) == Outside
                else var reply := ReplyTo(be, m, req + stale, |req|);
                  && reply.Send? && reply.m == Direct(m, call).m
                  && |reply.msg| >= be.HeaderLength() + 2 + be.ChecksumLength()
                  && IsFrame(be, ConfirmationMsg, reply.msg) && CheckIntegrity(be, slave, reply.msg) == |reply.msg|
                  && ClientOutcome(be, call, req, reply.msg) == Direct(m, call).outcome)
  {
    hide Adu, Serve, Direct, ReplyTo, ClientOutcome, RequestPdu, CheckIntegrity, Frame, WritesBelowStart, Finish, Code;
    var q := RequestPdu(call);
    var req, h := Adu(be, tid, slave, q), be.HeaderLength();
    RequestFramed(call);
    AduIsFrame(be, Indication, tid, slave, q);
    AduIntact(be, tid, slave, q);
    ReplyIsAdu(be, m, tid, slave, q, stale);
    var p := (req + stale)[h..];
    RequestHead(call, q);
    CodeRange(call);
    assert p[0] == q[0];
    assert p[..|q|] == q;
    ServeRefines(m, call, p);
    if !WritesBelowStart(m, call) {
      AnswerFramed(m, p, |q|);
      var r := Serve(m, p, |q|).pdu;
      AduIsFrame(be, ConfirmationMsg, tid, slave, r);
      AduIntact(be, tid, slave, r);
      ClientReadsAdu(be, call, tid, slave, r);
    }
  }

  /** A broadcast is carried out and not answered. */
  lemma BroadcastApplies(be: Backend, m: Mapping, tid: word, unit: byte, call: Call, stale: seq<byte>, slave: byte)
    requires !TooMuch(call) && !WritesBelowStart(m, call) && unit == BROADCAST
    requires |Adu(be, tid, unit, RequestPdu(call))| + |stale| >= be.MaxAdu()
    ensures var req := Adu(be, tid, unit, RequestPdu(call));
            && IsFrame(be, Indication, req) && CheckIntegrity(be, slave, req) == |req|
            && ReplyTo(be, m, req + stale, |req|) == Keep(Direct(m, call).m)
  {
    hide Adu, Serve, Direct, RequestPdu, CheckIntegrity, Frame, WritesBelowStart, Finish, Trailer;
    var q := RequestPdu(call);
    var req, h := Adu(be, tid, unit, q), be.HeaderLength();
    RequestFramed(call);
    AduIsFrame(be, Indication, tid, unit, q);
    AduIntact(be, tid, unit, q);
    AduParts(be, tid, unit, q);
    var buf := req + stale;
    SliceThere(buf, h, h + |q|);
    assert buf[h..h + |q|] == req[h..h + |q|];
    assert buf[h..][..|q|] == q;
    assert buf[h - 1] == BROADCAST;
    ServeRefines(m, call, buf[h..]);
  }

  lemma ClientReadsAdu(be: Backend, call: Call, tid: word, slave: byte, r: seq<byte>)
    requires !TooMuch(call) && |r| >= 2
    ensures |Adu(be, tid, slave, RequestPdu(call))| > be.HeaderLength()
    ensures ClientOutcome(be, call, Adu(be, tid, slave, RequestPdu(call)), Adu(be, tid, slave, r)) == Finish(call, r)
  {
    AduHead(be, tid, slave, RequestPdu(call));
    AduHead(be, tid, slave, r);
    AduParts(be, tid, slave, r);
    hide Adu, Finish, RequestPdu, Header;
  }

  // ----- whole runs -----

  datatype Run = Run(outcomes: seq<Outcome>, m: Mapping) | Derailed

  function DirectRun(m: Mapping, calls: seq<Call>): (r: Run)
    ensures r.Run?
    decreases |calls|
  {
    if calls == [] then Run([], m)
    else
      var e := Direct(m, calls[0]);
      var rest := DirectRun(e.m, calls[1..]);
      Run([e.outcome] + rest.outcomes, rest.m)
  }

  function WireRun(be: Backend, m: Mapping, tid: word, slave: byte, calls: seq<Call>, stale: nat -> seq<byte>): Run
    requires forall k: nat :: |stale(k)| >= be.MaxAdu()
    decreases |calls|
  {
    if calls == [] then Run([], m)
    else
      match OnTheWire(be, m, tid, slave, calls[0], stale(|calls|))
      case Lost => Derailed
      case Done(outcome, m', tid') =>
        match WireRun(be, m', tid', slave, calls[1..], stale)
        case Derailed => Derailed
        case Run(outcomes, m'') => Run([outcome] + outcomes, m'')
  }

  /** Some call of the run writes below the first register when its turn comes. */
  predicate StraysBelow(m: Mapping, calls: seq<Call>)
    decreases |calls|
  {
    calls != [] && (WritesBelowStart(m, calls[0]) || StraysBelow(Direct(m, calls[0]).m, calls[1..]))
  }

  /** Every run of calls over the wire gives the results and the final tables of the operations
      themselves - on either backend, from any transaction identifier, whatever lies in the server's
      buffer - exactly when no call strays below the register table. */
  lemma {:induction false} RunRefines(be: Backend, m: Mapping, tid: word, slave: byte, calls: seq<Call>,
                                      stale: nat -> seq<byte>)
    requires slave != BROADCAST && forall k: nat :: |stale(k)| >= be.MaxAdu()
    ensures WireRun(be, m, tid, slave, calls, stale)
            == if StraysBelow(m, calls) then Derailed else DirectRun(m, calls)
    decreases |calls|
  {
    if calls != [] {
      var call := calls[0];
      CallRefines(be, m, tid, slave, call, stale(|calls|));
      hide OnTheWire, Direct;
      if !WritesBelowStart(m, call) {
        var tid' := if TooMuch(call) then tid else RequestTid(be, tid);
        RunRefines(be, Direct(m, call).m, tid', slave, calls[1..], stale);
      }
    }
  }

  lemma CallRefines(be: Backend, m: Mapping, tid: word, slave: byte, call: Call, stale: seq<byte>)
    requires slave != BROADCAST && |stale| >= be.MaxAdu()
    ensures OnTheWire(be, m, tid, slave, call, stale)
            == if WritesBelowStart(m, call) then Lost
               else Done(Direct(m, call).outcome, Direct(m, call).m, if TooMuch(call) then tid else RequestTid(be, tid))
  {
    if !TooMuch(call) {
      ExchangeRefines(be, m, RequestTid(be, tid), slave, call, stale);
      RequestFits(be, RequestTid(be, tid), slave, call);
      hide ReplyTo, ClientOutcome, Direct, RequestPdu;
    }
  }

  /** With registers that start at address 0 no call can stray. */
  lemma {:induction false} ZeroStartNeverStrays(m: Mapping, calls: seq<Call>)
    requires m.registers.start == 0
    ensures !StraysBelow(m, calls)
    decreases |calls|
  {
    if calls != [] {
      ZeroStartNeverStrays(Direct(m, calls[0]).m, calls[1..]);
    }
  }

  /** One register, with the address 10. */
  const ONE_REGISTER := Mapping(Table(0, []), Table(0, []), Table(10, [7]), Table(0, []))

  /** Reading register 10 and writing register 9 of it passes the check, and the server writes below the table. */
  lemma StrayingCall(p: seq<byte>)
    requires |p| >= MAX_PDU && RequestPdu(WriteAndRead(9, [1], 10, 1)) <= p
    ensures Serve(ONE_REGISTER, p, |RequestPdu(WriteAndRead(9, [1], 10, 1))|) == OutOfBounds
    ensures Direct(ONE_REGISTER, WriteAndRead(9, [1], 10, 1))
            == Effect(Failed(Exception(ILLEGAL_DATA_ADDRESS)), ONE_REGISTER)
  {
    var call := WriteAndRead(9, [1], 10, 1);
    assert WritesBelowStart(ONE_REGISTER, call);
    assert Direct(ONE_REGISTER, call) == Effect(Failed(Exception(ILLEGAL_DATA_ADDRESS)), ONE_REGISTER);
    hide RequestPdu, Serve, Direct, WritesBelowStart, Refines, ONE_REGISTER;
    ServeRefines(ONE_REGISTER, call, p);
  }

  // ----- answers that come late -----

  datatype LateCall = Served(outcome: Outcome, m: Mapping, rsp: seq<byte>) | Unserved

  /** One call whose client takes `late` for the answer, while the server's answer is still to come. */
  function CallTaking(be: Backend, m: Mapping, tid: word, slave: byte, call: Call, late: seq<byte>, stale: seq<byte>):
    LateCall
    requires !TooMuch(call) && |stale| >= be.MaxAdu() && |late| >= be.HeaderLength() + 2 + be.ChecksumLength()
  {
    hide RequestPdu, Adu, ReplyTo, ClientOutcome;
    RequestFits(be, tid, slave, call);
    var req := Adu(be, tid, slave, RequestPdu(call));
    match ReplyTo(be, m, req + stale, |req|)
    case Send(m', rsp) => Served(ClientOutcome(be, call, req, late), m', rsp)
    case _ => Unserved
  }

  /** A run in which the answers come late: those in `late` lie on the line at the outset, the client takes the first of
      them for the answer to its request, and the answer to that goes behind the others. */
  function LateRun(be: Backend, m: Mapping, tid: word, slave: byte, calls: seq<Call>, late: seq<seq<byte>>,
                   stale: nat -> seq<byte>): Run
    requires (forall k: nat :: |stale(k)| >= be.MaxAdu()) && forall call <- calls :: !TooMuch(call)
    requires late != [] && forall a <- late :: |a| >= be.HeaderLength() + 2 + be.ChecksumLength()
    decreases |calls|, 1
  {
    hide CallTaking;
    if calls == [] then Run([], m)
    else
      var now := CallTaking(be, m, RequestTid(be, tid), slave, calls[0], late[0], stale(|calls|));
      AfterCall(be, now, RequestTid(be, tid), slave, calls[1..], late[1..], stale)
  }

  function AfterCall(be: Backend, now: LateCall, tid: word, slave: byte, calls: seq<Call>, late: seq<seq<byte>>,
                     stale: nat -> seq<byte>): Run
    requires (forall k: nat :: |stale(k)| >= be.MaxAdu()) && forall call <- calls :: !TooMuch(call)
    requires forall a <- late :: |a| >= be.HeaderLength() + 2 + be.ChecksumLength()
    decreases |calls|, 2
  {
    if now.Unserved? || |now.rsp| < be.HeaderLength() + 2 + be.ChecksumLength() then Derailed
    else
      match LateRun(be, now.m, tid, slave, calls, late + [now.rsp], stale)
      case Derailed => Derailed
      case Run(outcomes, m) => Run([now.outcome] + outcomes, m)
  }

  /** The identifier of the request `d` before the one with `tid`. */
  function Earlier(tid: word, d: nat): word {
    (tid - d) % 65536
  }

  /** The answers that wait on the line: the last one is that to the request before, and so on backwards. */
  function Waiting(be: Backend, tid: word, slave: byte, rs: seq<seq<byte>>): (late: seq<seq<byte>>)
    requires forall r <- rs :: |r| >= 2
    ensures |late| == |rs| && forall a <- late :: |a| >= be.HeaderLength() + 2 + be.ChecksumLength()
  {
    hide Adu, Earlier;
    seq(|rs|, i requires 0 <= i < |rs| => Adu(be, Earlier(tid, |rs| - 1 - i), slave, rs[i]))
  }

  /** Whether the client cannot tell an answer that is `d` calls late from the right one. */
  predicate Blind(be: Backend, d: nat) {
    be.Rtu? || d % 65536 == 0
  }

  lemma WaitingMoves(be: Backend, tid: word, slave: byte, rs: seq<seq<byte>>, r: seq<byte>)
    requires rs != [] && |r| >= 2 && forall r <- rs :: |r| >= 2
    ensures var tid' := RequestTid(be, tid);
            Waiting(be, tid', slave, rs[1..] + [r]) == Waiting(be, tid, slave, rs)[1..] + [Adu(be, tid', slave, r)]
  {
    hide Adu, Earlier, RequestTid;
    var tid' := RequestTid(be, tid);
    var a, b := Waiting(be, tid', slave, rs[1..] + [r]), Waiting(be, tid, slave, rs)[1..] + [Adu(be, tid', slave, r)];
    forall i | 0 <= i < |rs|
      ensures a[i] == b[i]
    {
      var d := |rs| - 1 - i;
      assert a[i] == Adu(be, Earlier(tid', d), slave, (rs[1..] + [r])[i]);
      if d == 0 {
        SameAnswer(be, Earlier(tid', 0), tid', slave, r);
      } else {
        assert b[i] == Adu(be, Earlier(tid, d - 1), slave, rs[i + 1]);
        SameAnswer(be, Earlier(tid', d), Earlier(tid, d - 1), slave, rs[i + 1]);
      }
      EarlierMoves(be, tid, d);
    }
  }

  lemma EarlierMoves(be: Backend, tid: word, d: nat)
    ensures be.Tcp? ==> Earlier(RequestTid(be, tid), d) == if d == 0 then RequestTid(be, tid) else Earlier(tid, d - 1)
  {
  }

  /** There are no identifiers on a serial line. */
  lemma SameAnswer(be: Backend, a: word, b: word, slave: byte, r: seq<byte>)
    ensures be.Rtu? || a == b ==> Adu(be, a, slave, r) == Adu(be, b, slave, r)
  {
  }

  /** The first `nb` cells, with zeros for those that are missing. */
  function Cut(cells: seq<bool>, nb: nat): (s: seq<bool>)
    ensures |s| == nb
  {
    seq(nb, i requires 0 <= i < nb => i < |cells| && cells[i])
  }

  /** What the client makes of the answer to `a`, whose result is `d`, when it takes it for the answer to `b`. */
  function Mistaken(a: Call, d: Outcome, b: Call): Outcome {
    var count := Reach(Field(b));
    if Code(a) != Code(b) then Failed(if d.Failed? then BadExceptionCode else BadData)
    else match d
      case Failed(_) => d
      case Bits(cells) => if ByteCount(count) == ByteCount(|cells|) then Bits(Cut(cells, count)) else Failed(BadData)
      case Registers(values) => if count == |values| then d else Failed(BadData)
      case Written(n) => if (b.WriteBits? || b.WriteRegisters?) && count != n then Failed(BadData) else d
  }

  lemma RefusalElsewhere(q: seq<byte>, q': seq<byte>, r: seq<byte>)
    requires |q| >= 5 && |q'| >= 5 && |r| >= 2 && q[0] < 0x80 && q'[0] < 0x80
    requires Confirm(q, r).Rejected? && Confirm(q, r).error.Exception?
    ensures Confirm(q', r) == if q[0] == q'[0] then Confirm(q, r) else Rejected(BadExceptionCode)
  {
    hide ResponseLength;
  }

  /** An answer that fits one request fits another of the same function if the counts agree. */
  lemma AnswerElsewhere(q: seq<byte>, q': seq<byte>, r: seq<byte>)
    requires |q| >= 5 && |q'| >= 5 && |r| >= 2 && Confirm(q, r).Count?
    ensures var f, n, n' := q[0], Word(q[3], q[4]), Word(q'[3], q'[4]);
            Confirm(q', r)
            == if f != q'[0] then Rejected(BadData)
               else if f == READ_COILS || f == READ_DISCRETE_INPUTS then
                 if ByteCount(n) == ByteCount(n') then Confirm(q, r) else Rejected(BadData)
               else if f in {READ_HOLDING_REGISTERS, READ_INPUT_REGISTERS, WRITE_AND_READ_REGISTERS,
                             WRITE_MULTIPLE_COILS, WRITE_MULTIPLE_REGISTERS} then
                 if n == n' then Confirm(q, r) else Rejected(BadData)
               else Confirm(q, r)
  {
    hide Word, ByteCount;
  }

  lemma UnpackCut(cells: seq<bool>, nb: nat)
    requires ByteCount(nb) == ByteCount(|cells|)
    ensures UnpackBits(PackBits(cells), nb) == Cut(cells, nb)
  {
    forall i | 0 <= i < nb
      ensures UnpackBits(PackBits(cells), nb)[i] == Cut(cells, nb)[i]
    {
      PackedBit(cells, i);
    }
  }

  predicate ReadsBits(call: Call) {
    call.ReadBits? || call.ReadInputBits?
  }

  predicate ReadsRegisters(call: Call) {
    call.ReadRegisters? || call.ReadInputRegisters? || call.WriteAndRead?
  }

  lemma SameKind(a: Call, b: Call)
    requires !TooMuch(b) && Code(a) == Code(b)
    ensures ReadsBits(a) == ReadsBits(b) && ReadsRegisters(a) == ReadsRegisters(b)
    ensures (a.WriteBits? || a.WriteRegisters?) == (b.WriteBits? || b.WriteRegisters?)
    ensures ReadsBits(b) ==> Reach(Field(b)) == b.nb && Code(b) in {READ_COILS, READ_DISCRETE_INPUTS}
    ensures ReadsRegisters(b) ==>
              Reach(Field(b)) == b.nb
              && Code(b) in {READ_HOLDING_REGISTERS, READ_INPUT_REGISTERS, WRITE_AND_READ_REGISTERS}
    ensures b.WriteBits? || b.WriteRegisters? <==> Code(b) in {WRITE_MULTIPLE_COILS, WRITE_MULTIPLE_REGISTERS}
  {
  }

  lemma FinishConfirmed(call: Call, r: seq<byte>)
    requires !TooMuch(call) && |r| >= 2
    ensures var c := Confirm(RequestPdu(call), r);
            && (c.Rejected? ==> Finish(call, r) == Failed(c.error))
            && (c.Count? && IsWrite(call) ==> Finish(call, r) == Written(c.rc))
            && (c.Count? && ReadsBits(call) ==>
                  |r| == 2 + ByteCount(call.nb) && Finish(call, r) == Bits(UnpackBits(r[2..], call.nb)))
            && (c.Count? && ReadsRegisters(call) ==>
                  |r| == 2 + 2 * call.nb && c.rc == call.nb && Finish(call, r) == Registers(BytesRegisters(r[2..], c.rc)))
  {
    var q := RequestPdu(call);
    RequestHead(call, q);
    SameKind(call, call);
    hide RequestPdu, Confirm, UnpackBits, BytesRegisters, ByteCount, Word, Reach, Field, Code;
    if Confirm(q, r).Count? {
      DecodeStaysInside(q, r);
    }
  }

  lemma RefusalTaken(a: Call, b: Call, r: seq<byte>)
    requires !TooMuch(a) && !TooMuch(b) && |r| >= 2
    requires Confirm(RequestPdu(a), r).Rejected? && Confirm(RequestPdu(a), r).error.Exception?
    ensures Finish(a, r).Failed? && Finish(b, r) == Mistaken(a, Finish(a, r), b)
  {
    var q, q' := RequestPdu(a), RequestPdu(b);
    RequestHead(a, q);
    RequestHead(b, q');
    CodeRange(a);
    CodeRange(b);
    hide RequestPdu, Confirm, Finish, Word, Lo, Reach, Field, Code;
    FinishConfirmed(a, r);
    FinishConfirmed(b, r);
    RefusalElsewhere(q, q', r);
  }

  lemma ResultTaken(a: Call, b: Call, r: seq<byte>)
    requires !TooMuch(a) && !TooMuch(b) && |r| >= 2 && Confirm(RequestPdu(a), r).Count?
    requires ReadsBits(a) && |r| == 2 + ByteCount(a.nb) ==> r[2..] == PackBits(UnpackBits(r[2..], a.nb))
    ensures Finish(b, r) == Mistaken(a, Finish(a, r), b)
  {
    var q, q' := RequestPdu(a), RequestPdu(b);
    RequestHead(a, q);
    RequestHead(b, q');
    hide RequestPdu, Confirm, UnpackBits, PackBits, BytesRegisters, Cut, ByteCount, Word, Finish, Reach, Field, Code;
    FinishConfirmed(a, r);
    FinishConfirmed(b, r);
    SameKind(a, a);
    AnswerElsewhere(q, q', r);
    if Code(a) == Code(b) {
      SameKind(a, b);
      if ReadsBits(a) && ByteCount(a.nb) == ByteCount(b.nb) {
        UnpackCut(UnpackBits(r[2..], a.nb), b.nb);
      }
    }
  }

  /** What an answer means to the call it was given to and to any other one. */
  lemma AnotherAnswer(a: Call, b: Call, r: seq<byte>)
    requires !TooMuch(a) && !TooMuch(b) && |r| >= 2
    requires Finish(a, r).Failed? ==> Finish(a, r).error.Exception?
    requires Finish(a, r).Bits? ==> r[2..] == PackBits(Finish(a, r).cells)
    ensures Finish(b, r) == Mistaken(a, Finish(a, r), b)
  {
    hide RequestPdu, Confirm, UnpackBits, PackBits, BytesRegisters, ByteCount, Finish, Mistaken;
    FinishConfirmed(a, r);
    if Confirm(RequestPdu(a), r).Rejected? {
      RefusalTaken(a, b, r);
    } else {
      ResultTaken(a, b, r);
    }
  }

  /** The answer to a call, with the PDU in it. */
  lemma AnswerOf(be: Backend, m: Mapping, tid: word, slave: byte, call: Call, stale: seq<byte>) returns (r: seq<byte>)
    requires !TooMuch(call) && slave != BROADCAST && !WritesBelowStart(m, call) && |stale| >= be.MaxAdu()
    ensures var req := Adu(be, tid, slave, RequestPdu(call));
            && be.HeaderLength() + be.ChecksumLength() < |req| <= be.MaxAdu() && |r| >= 2
            && ReplyTo(be, m, req + stale, |req|) == Send(Direct(m, call).m, Adu(be, tid, slave, r))
            && Finish(call, r) == Direct(m, call).outcome
    ensures Direct(m, call).outcome.Bits? ==> r[2..] == PackBits(Direct(m, call).outcome.cells)
  {
    hide Adu, Serve, Direct, ReplyTo, RequestPdu, WritesBelowStart, Finish, PackBits;
    var q := RequestPdu(call);
    RequestFits(be, tid, slave, call);
    ReplyIsAdu(be, m, tid, slave, q, stale);
    var p := (Adu(be, tid, slave, q) + stale)[be.HeaderLength()..];
    ServeRefines(m, call, p);
    r := Serve(m, p, |q|).pdu;
    if Direct(m, call).outcome.Bits? {
      BitsAnswered(m, call, p);
    }
  }

  lemma BitsAnswered(m: Mapping, call: Call, p: seq<byte>)
    requires !TooMuch(call) && |p| >= MAX_PDU && RequestPdu(call) <= p && Direct(m, call).outcome.Bits?
    ensures var answer := Serve(m, p, |RequestPdu(call)|);
            answer.Answer? && |answer.pdu| >= 2 && answer.pdu[2..] == PackBits(Direct(m, call).outcome.cells)
  {
    hide RequestPdu, PackBits, Word, ByteCount, Lo;
    RequestHead(call, p);
  }

  lemma RefusedWithCode(m: Mapping, call: Call)
    requires !TooMuch(call)
    ensures Direct(m, call).outcome.Failed? ==> Direct(m, call).outcome.error.Exception?
  {
    hide Reach, Choose;
  }

  /** What call `k` of a run gets when the answers in `rs` wait at the outset, and its answers ought to be `due`. */
  function LateSeen(be: Backend, rs: seq<seq<byte>>, calls: seq<Call>, due: seq<Outcome>, k: nat): Outcome
    requires k < |calls| == |due| && !TooMuch(calls[k]) && forall r <- rs :: |r| >= 2
  {
    var d := |rs|;
    if !Blind(be, d) then Failed(BadData)
    else if k < d then Finish(calls[k], rs[k])
    else Mistaken(calls[k - d], due[k - d], calls[k])
  }

  lemma LateSeenLater(be: Backend, rs: seq<seq<byte>>, r: seq<byte>, calls: seq<Call>, o: Outcome, due: seq<Outcome>, k: nat)
    requires rs != [] && 0 < k < |calls| == |due| + 1 && !TooMuch(calls[k]) && |r| >= 2 && forall r <- rs :: |r| >= 2
    requires |rs| < |calls| ==> !TooMuch(calls[|rs|]) && Finish(calls[|rs|], r) == Mistaken(calls[0], o, calls[|rs|])
    ensures LateSeen(be, rs, calls, [o] + due, k) == LateSeen(be, rs[1..] + [r], calls[1..], due, k - 1)
  {
    hide Blind, Finish, Mistaken;
    var d := |rs|;
    if k < d {
      assert (rs[1..] + [r])[k - 1] == rs[k];
    } else if k == d {
      assert (rs[1..] + [r])[k - 1] == r;
    }
  }

  /** Answers that come late by any number `d` of calls, in a run of any calls: where the client cannot tell them from the
      right ones, each call gets what the answer to the call `d` before makes of it. That is so on a serial line, and on
      TCP exactly if `d` is a multiple of 65536; else every call is turned down for its transaction identifier. The
      server's tables follow the calls either way. */
  lemma {:induction false} LateOutcomes(be: Backend, m: Mapping, tid: word, slave: byte, calls: seq<Call>,
                                        rs: seq<seq<byte>>, stale: nat -> seq<byte>)
    requires slave != BROADCAST && rs != [] && (forall r <- rs :: |r| >= 2) && !StraysBelow(m, calls)
    requires (forall k: nat :: |stale(k)| >= be.MaxAdu()) && forall call <- calls :: !TooMuch(call)
    ensures var run, due := LateRun(be, m, tid, slave, calls, Waiting(be, tid, slave, rs), stale), DirectRun(m, calls);
            && run.Run? && |run.outcomes| == |calls| == |due.outcomes| && run.m == due.m
            && forall k | 0 <= k < |calls| :: run.outcomes[k] == LateSeen(be, rs, calls, due.outcomes, k)
    decreases |calls|
  {
    hide Adu, RequestPdu, ReplyTo, ClientOutcome, Direct, Finish, WritesBelowStart, Mistaken, PackBits, Waiting, Blind,
      RequestTid, LateSeen, LateRun, DirectRun;
    if calls == [] {
      NoCalls(be, m, tid, slave, Waiting(be, tid, slave, rs), stale);
    } else {
      var call, tid' := calls[0], RequestTid(be, tid);
      var r := AnswerOf(be, m, tid', slave, call, stale(|calls|));
      var m' := Direct(m, call).m;
      LateTaken(be, call, tid, slave, rs);
      WaitingMoves(be, tid, slave, rs, r);
      var seen := if Blind(be, |rs|) then Finish(call, rs[0]) else Failed(BadData);
      assert CallTaking(be, m, tid', slave, call, Waiting(be, tid, slave, rs)[0], stale(|calls|))
          == Served(seen, m', Adu(be, tid', slave, r));
      hide CallTaking;
      LateStep(be, m, tid, slave, calls, Waiting(be, tid, slave, rs), stale);
      LateOutcomes(be, m', tid', slave, calls[1..], rs[1..] + [r], stale);
      DirectSteps(m, calls);
      if |rs| < |calls| {
        RefusedWithCode(m, call);
        AnotherAnswer(call, calls[|rs|], r);
      }
      var o, due := Direct(m, call).outcome, DirectRun(m', calls[1..]).outcomes;
      LateSeenFirst(be, rs, calls, [o] + due);
      forall k | 0 < k < |calls|
        ensures LateSeen(be, rs, calls, [o] + due, k) == LateSeen(be, rs[1..] + [r], calls[1..], due, k - 1)
      {
        LateSeenLater(be, rs, r, calls, o, due, k);
      }
    }
  }

  lemma NoCalls(be: Backend, m: Mapping, tid: word, slave: byte, late: seq<seq<byte>>, stale: nat -> seq<byte>)
    requires forall k: nat :: |stale(k)| >= be.MaxAdu()
    requires late != [] && forall a <- late :: |a| >= be.HeaderLength() + 2 + be.ChecksumLength()
    ensures LateRun(be, m, tid, slave, [], late, stale) == Run([], m) == DirectRun(m, [])
  {
  }

  lemma LateStep(be: Backend, m: Mapping, tid: word, slave: byte, calls: seq<Call>, late: seq<seq<byte>>,
                 stale: nat -> seq<byte>)
    requires (forall k: nat :: |stale(k)| >= be.MaxAdu()) && calls != [] && forall call <- calls :: !TooMuch(call)
    requires late != [] && forall a <- late :: |a| >= be.HeaderLength() + 2 + be.ChecksumLength()
    ensures LateRun(be, m, tid, slave, calls, late, stale)
            == AfterCall(be, CallTaking(be, m, RequestTid(be, tid), slave, calls[0], late[0], stale(|calls|)),
                         RequestTid(be, tid), slave, calls[1..], late[1..], stale)
  {
    hide CallTaking;
  }

  lemma LateSeenFirst(be: Backend, rs: seq<seq<byte>>, calls: seq<Call>, due: seq<Outcome>)
    requires rs != [] && 0 < |calls| == |due| && !TooMuch(calls[0]) && forall r <- rs :: |r| >= 2
    ensures LateSeen(be, rs, calls, due, 0) == if Blind(be, |rs|) then Finish(calls[0], rs[0]) else Failed(BadData)
  {
    hide Finish;
  }

  /** Calls whose answers cannot be told apart by function and count. */
  predicate Alike(a: Call, b: Call) {
    Code(a) == Code(b) && Reach(Field(a)) == Reach(Field(b))
  }

  lemma MistakenAlike(m: Mapping, a: Call, b: Call)
    requires !TooMuch(a) && !TooMuch(b) && Alike(a, b)
    ensures Mistaken(a, Direct(m, a).outcome, b) == Direct(m, a).outcome
  {
    hide Reach, Choose, Cut, ByteCount;
    var d := Direct(m, a).outcome;
    if !a.WriteBit? && !a.WriteRegister? && !a.MaskWrite? {
      CountsFit(a);
    }
    if d.Bits? {
      CutWhole(d.cells);
    }
  }

  lemma CountsFit(call: Call)
    requires !TooMuch(call) && !call.WriteBit? && !call.WriteRegister? && !call.MaskWrite?
    ensures Reach(Field(call)) == Field(call)
  {
  }

  lemma CutWhole(cells: seq<bool>)
    ensures Cut(cells, |cells|) == cells
  {
  }

  /** What call `k` of a run of like calls gets. */
  function SeenBefore(be: Backend, rs: seq<seq<byte>>, calls: seq<Call>, due: seq<Outcome>, k: nat): Outcome
    requires k < |calls| == |due| && !TooMuch(calls[k]) && forall r <- rs :: |r| >= 2
  {
    var d := |rs|;
    if !Blind(be, d) then Failed(BadData) else if k < d then Finish(calls[k], rs[k]) else due[k - d]
  }

  /** In a run of like calls every call gets the result of the call `d` before, without a sign of it. */
  lemma LateAnswers(be: Backend, m: Mapping, tid: word, slave: byte, calls: seq<Call>, rs: seq<seq<byte>>,
                    stale: nat -> seq<byte>)
    requires slave != BROADCAST && rs != [] && (forall r <- rs :: |r| >= 2) && !StraysBelow(m, calls)
    requires (forall k: nat :: |stale(k)| >= be.MaxAdu()) && forall call <- calls :: !TooMuch(call)
    requires forall a <- calls, b <- calls :: Alike(a, b)
    ensures var run, due := LateRun(be, m, tid, slave, calls, Waiting(be, tid, slave, rs), stale), DirectRun(m, calls);
            && run.Run? && |run.outcomes| == |calls| == |due.outcomes| && run.m == due.m
            && forall k | 0 <= k < |calls| :: run.outcomes[k] == SeenBefore(be, rs, calls, due.outcomes, k)
  {
    hide LateRun, DirectRun, Adu, Finish, Mistaken, Alike, StraysBelow, Waiting, Blind;
    LateOutcomes(be, m, tid, slave, calls, rs, stale);
    var d, due := |rs|, DirectRun(m, calls).outcomes;
    forall k | d <= k < |calls|
      ensures Mistaken(calls[k - d], due[k - d], calls[k]) == due[k - d]
    {
      var before := DirectAt(m, calls, k - d);
      assert Alike(calls[k - d], calls[k]);
      MistakenAlike(before, calls[k - d], calls[k]);
    }
  }

  /** The tables that call `k` of a run finds. */
  lemma {:induction false} DirectAt(m: Mapping, calls: seq<Call>, k: nat) returns (before: Mapping)
    requires k < |calls|
    ensures k < |DirectRun(m, calls).outcomes| && DirectRun(m, calls).outcomes[k] == Direct(before, calls[k]).outcome
    decreases k
  {
    hide Direct;
    if k == 0 {
      before := m;
    } else {
      before := DirectAt(Direct(m, calls[0]).m, calls[1..], k - 1);
    }
  }

  lemma DirectSteps(m: Mapping, calls: seq<Call>)
    requires calls != []
    ensures var rest := DirectRun(Direct(m, calls[0]).m, calls[1..]);
            DirectRun(m, calls) == Run([Direct(m, calls[0]).outcome] + rest.outcomes, rest.m)
  {
  }

  /** What the client makes of the first answer that waits. */
  lemma LateTaken(be: Backend, call: Call, tid: word, slave: byte, rs: seq<seq<byte>>)
    requires !TooMuch(call) && rs != [] && forall r <- rs :: |r| >= 2
    ensures var req, late := Adu(be, RequestTid(be, tid), slave, RequestPdu(call)), Waiting(be, tid, slave, rs)[0];
            && |req| > be.HeaderLength() && |late| >= be.HeaderLength() + 2 + be.ChecksumLength()
            && ClientOutcome(be, call, req, late) == if Blind(be, |rs|) then Finish(call, rs[0]) else Failed(BadData)
  {
    hide Adu, Finish, RequestPdu, Earlier, RequestTid, ClientOutcome;
    OtherAnswer(be, call, RequestTid(be, tid), Earlier(tid, |rs| - 1), slave, rs[0]);
    EarlierSame(be, tid, |rs|);
  }

  lemma EarlierSame(be: Backend, tid: word, d: nat)
    requires d > 0
    ensures be.Tcp? ==> (RequestTid(be, tid) == Earlier(tid, d - 1) <==> d % 65536 == 0)
  {
  }

  lemma OtherAnswer(be: Backend, call: Call, tid: word, tid': word, slave: byte, r: seq<byte>)
    requires !TooMuch(call) && |r| >= 2
    ensures var req := Adu(be, tid, slave, RequestPdu(call));
            && |req| > be.HeaderLength()
            && ClientOutcome(be, call, req, Adu(be, tid', slave, r))
               == if be.Rtu? || tid == tid' then Finish(call, r) else Failed(BadData)
  {
    AduHead(be, tid, slave, RequestPdu(call));
    AduHead(be, tid', slave, r);
    AduParts(be, tid', slave, r);
    hide Adu, Finish, RequestPdu, Header, Hi, Lo;
    if be.Tcp? && tid != tid' {
      WordsDiffer(tid, tid');
    }
  }
}
