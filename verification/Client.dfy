/** The client's calls as they work - request buffer, two receptions in arbitrary pieces, decoding loops. */
module Client {
  import opened Bytes
  import opened BitPacking
  import opened RtuCrc
  import opened Pdu
  import opened Refinement
  import opened Transport
  import opened Receive
  import opened Transaction
  import opened Server

  /** What a call returns. `LinkFailed` stands for every -1 that comes from the line. */
  datatype Result = Returned(rc: nat) | Error(error: Error) | LinkFailed

  /** The result of a call and its destination arrays say the same as the outcome. */
  predicate Delivers(result: Result, outcome: Outcome, bits: seq<bool>, registers: seq<word>) {
    match outcome
    case Bits(cells) => result == Returned(|cells|) && cells <= bits
    case Registers(values) => result == Returned(|values|) && values <= registers
    case Written(count) => result == Returned(count)
    case Failed(error) => result == Error(error)
  }

  class Context {
    const be: Backend
    const slave: byte
    var tid: word

    constructor (be: Backend, slave: byte)
      ensures this.be == be && this.slave == slave && tid == 0
    {
      this.be, this.slave, tid := be, slave, 0;
    }

    /** `build_request_basis`: on TCP the transaction identifier advances and the length stays open. */
    method BuildBasis(call: Call, req: array<byte>) returns (length: nat)
      requires req.Length >= MAX_TCP_ADU
      modifies this, req
      ensures tid == RequestTid(be, old(tid))
      ensures length == be.HeaderLength() + 5
      ensures exists open: (byte, byte) ::
                req[..length] == Unsent(be, tid, slave, open, Basis(Code(call), call.addr, Field(call)))
    {
      hide Hi, Lo;
      var h := be.HeaderLength();
      if be.Tcp? {
        tid := NextTid(tid);
        req[0], req[1], req[2], req[3] := Hi(tid), Lo(tid), 0, 0;
      }
      req[h - 1] := slave;
      req[h] := Code(call);
      req[h + 1], req[h + 2] := Hi(call.addr), Lo(call.addr);
      req[h + 3], req[h + 4] := Hi(Field(call)), Lo(Field(call));
      length := h + 5;
      ghost var open := (req[4], req[5]);
      assert req[..length] == Unsent(be, tid, slave, open, Basis(Code(call), call.addr, Field(call)));
    }

    /** The payload that some calls add behind the basis. */
    method PutPayload(call: Call, req: array<byte>, at: nat) returns (length: nat)
      requires !TooMuch(call) && at + MAX_PDU - 5 <= req.Length
      modifies req
      ensures length == at + |Payload(call)| && req[..length] == old(req[..at]) + Payload(call)
    {
      hide PackBits, RegisterBytes, ByteCount, Lo, Hi;
      length := at;
      match call {
        case WriteBits(_, src) => length := PutBitPayload(src, req, at);
        case WriteRegisters(_, values) => length := PutRegisterPayload([Lo(2 * |values|)], values, req, at);
        case MaskWrite(_, _, orMask) => length := PutTwo(req, at, Hi(orMask), Lo(orMask));
        case WriteAndRead(writeAddr, values, _, _) =>
          var head := [Hi(writeAddr), Lo(writeAddr), Hi(|values|), Lo(|values|), Lo(2 * |values|)];
          length := PutRegisterPayload(head, values, req, at);
        case _ =>
      }
    }

    method PutBitPayload(src: seq<byte>, req: array<byte>, at: nat) returns (length: nat)
      requires |src| <= MAX_WRITE_BITS && at + MAX_PDU - 5 <= req.Length
      modifies req
      ensures length == at + 1 + ByteCount(|src|)
      ensures req[..length] == old(req[..at]) + ([Lo(ByteCount(|src|))] + PackBits(Normal(src)))
    {
      ByteCountFits(|src|);
      hide PackBits, ByteCount, Lo, Normal;
      length := PutBytes(req, at, [Lo(ByteCount(|src|))]);
      ghost var row := req[..length];
      length := PackSource(src, req, length);
      assert req[..length] == row + PackBits(Normal(src));
    }

    method PutRegisterPayload(head: seq<byte>, values: seq<word>, req: array<byte>, at: nat) returns (length: nat)
      requires at + |head| + 2 * |values| <= req.Length
      modifies req
      ensures length == at + |head| + 2 * |values|
      ensures req[..length] == old(req[..at]) + (head + RegisterBytes(values))
    {
      hide RegisterBytes;
      length := PutBytes(req, at, head);
      length := GetRegisters(values, 0, |values|, req, length);
      assert values[0..|values|] == values;
    }

    /** A whole request, ready to be sent. */
    method BuildRequest(call: Call, req: array<byte>) returns (length: nat)
      requires !TooMuch(call) && req.Length >= MAX_TCP_ADU
      modifies this, req
      ensures tid == RequestTid(be, old(tid)) && tid == if be.Tcp? then (old(tid) + 1) % 65536 else old(tid)
      ensures length <= req.Length && req[..length] == Adu(be, tid, slave, RequestPdu(call))
    {
      hide Payload, Basis, Adu, SendPre, Unsent, Code, Field;
      length := BuildBasis(call, req);
      ghost var open: (byte, byte) :|
        req[..length] == Unsent(be, tid, slave, open, Basis(Code(call), call.addr, Field(call)));
      ghost var basis := length;
      length := PutPayload(call, req, length);
      assert req[..basis] == req[..length][..basis];
      UnsentGrows(be, tid, slave, open, Basis(Code(call), call.addr, Field(call)), Payload(call));
      length := SendMessagePre(be, req, length);
      SentIsAdu(be, tid, slave, open, RequestPdu(call));
    }
  }

  lemma UnsentGrows(be: Backend, tid: word, unit: byte, open: (byte, byte), a: seq<byte>, b: seq<byte>)
    ensures Unsent(be, tid, unit, open, a) + b == Unsent(be, tid, unit, open, a + b)
  {
    hide Hi, Lo;
  }

  /** `send_msg_pre` of either backend. */
  method SendMessagePre(be: Backend, msg: array<byte>, n: nat) returns (length: nat)
    requires 6 <= n && n + be.ChecksumLength() <= msg.Length
    modifies msg
    ensures length == n + be.ChecksumLength() && msg[..length] == SendPre(be, old(msg[..n]))
  {
    hide Hi, Lo, CrcHi, CrcLo;
    match be {
      case Rtu =>
        length := SendMsgPre(msg, n);
      case Tcp =>
        msg[4], msg[5] := Hi(n - 6), Lo(n - 6);
        length := n;
    }
  }

  /** `check_confirmation` and the decoding loops: `req` holds the request, `rsp` the received confirmation. */
  method Conclude(be: Backend, call: Call, req: array<byte>, reqLength: nat, rsp: array<byte>, length: nat,
                  bits: array<bool>, registers: array<word>) returns (result: Result)
    requires !TooMuch(call) && be.HeaderLength() < reqLength <= req.Length && length <= rsp.Length
    requires be.HeaderLength() + 2 + be.ChecksumLength() <= length
    requires call.ReadBits? || call.ReadInputBits? ==> call.nb <= bits.Length
    requires call.ReadRegisters? || call.ReadInputRegisters? || call.WriteAndRead? ==> call.nb <= registers.Length
    modifies bits, registers
    ensures Delivers(result, ClientOutcome(be, call, req[..reqLength], rsp[..length]), bits[..], registers[..])
  {
    hide Confirm, RequestPdu, UnpackBits, BytesRegisters;
    if !PreCheck(be, req[..reqLength], rsp[..length]) {
      return Error(if be.Rtu? then BadSlave else BadData);
    }
    var r := rsp[be.HeaderLength()..length - be.ChecksumLength()];
    Inside(rsp[..], length, be.HeaderLength(), length - be.ChecksumLength());
    match Confirm(RequestPdu(call), r) {
      case Rejected(error) =>
        result := Error(error);
      case Count(rc) =>
        AcceptedCount(call, r);
        if call.ReadBits? || call.ReadInputBits? {
          UnpackResponse(r, 2, rc, call.nb, bits);
          assert r[2..2 + rc] == r[2..];
          result := Returned(call.nb);
        } else if call.ReadRegisters? || call.ReadInputRegisters? || call.WriteAndRead? {
          DecodeRegisters(r, rc, registers);
          result := Returned(rc);
        } else {
          result := Returned(rc);
        }
    }
  }

  lemma Inside(s: seq<byte>, n: nat, from: nat, to: nat)
    requires from <= to <= n <= |s|
    ensures s[..n][from..to] == s[from..to]
  {
  }

  lemma AcceptedCount(call: Call, r: seq<byte>)
    requires !TooMuch(call) && |r| >= 2 && Confirm(RequestPdu(call), r).Count?
    ensures var rc := Confirm(RequestPdu(call), r).rc;
            && (call.ReadBits? || call.ReadInputBits? ==> rc == ByteCount(call.nb) && |r| == 2 + rc)
            && (call.ReadRegisters? || call.ReadInputRegisters? || call.WriteAndRead? ==>
                  rc == call.nb && |r| == 2 + 2 * rc)
  {
    hide Confirm, RequestPdu, ByteCount, Word, TooMuch;
    RequestHead(call, RequestPdu(call));
    CountAsked(call);
    DecodeStaysInside(RequestPdu(call), r);
  }

  lemma CountAsked(call: Call)
    requires !TooMuch(call)
    ensures call.ReadBits? || call.ReadInputBits? ==> Code(call) in {READ_COILS, READ_DISCRETE_INPUTS}
    ensures call.ReadRegisters? || call.ReadInputRegisters? || call.WriteAndRead? ==>
              Code(call) in {READ_HOLDING_REGISTERS, READ_INPUT_REGISTERS, WRITE_AND_READ_REGISTERS}
    ensures call.ReadBits? || call.ReadInputBits? || call.ReadRegisters? || call.ReadInputRegisters? || call.WriteAndRead?
            ==> Reach(Field(call)) == call.nb
  {
  }

  /** The loop of `read_registers`. */
  method DecodeRegisters(r: seq<byte>, rc: nat, dest: array<word>)
    requires |r| == 2 + 2 * rc && rc <= dest.Length
    modifies dest
    ensures dest[..rc] == BytesRegisters(r[2..], rc)
  {
    hide Word;
    ghost var values := BytesRegisters(r[2..], rc);
    for i := 0 to rc
      invariant dest[..i] == values[..i]
    {
      assert r[2..][2 * i] == r[2 + 2 * i] && r[2..][2 * i + 1] == r[3 + 2 * i];
      dest[i] := Word(r[2 + 2 * i], r[3 + 2 * i]);
      assert dest[..i + 1] == dest[..i] + [dest[i]];
    }
  }

  /** A frame of `msg[..length]` crosses a line and is received whole, or the line fails. */
  method Cross(be: Backend, kind: Kind, msg: array<byte>, length: nat, grants: seq<int>, into: array<byte>)
    returns (arrived: bool)
    requires length <= msg.Length && into.Length >= be.MaxAdu() && msg != into
    requires IsFrame(be, kind, msg[..length])
    modifies into
    ensures arrived ==> length <= be.MaxAdu() && into[..length] == msg[..length]
    ensures Steady(grants, length) ==> arrived
  {
    hide Frame, Steady;
    ghost var frame := msg[..length];
    var port := new Port(msg[..length], grants);
    var status, n := ReceiveMsg(be, kind, port, into);
    assert frame + [] == frame;
    assert into[..n] == frame[..n];
    PiecesDoNotMatter(be, kind, frame, [], n);
    arrived := status.Message?;
  }

  /** A call from the client's arguments to its results, with the tables of the server at address `server` on the
      other side of a line that may deliver in any pieces or fail at any time. On a serial line a server at another
      address hears nothing of it. */
  method Perform(client: Context, server: byte, tables: RegisterMap, call: Call, out: seq<int>, back: seq<int>,
                 req: array<byte>, indication: array<byte>, rsp: array<byte>, confirmation: array<byte>,
                 bits: array<bool>, registers: array<word>) returns (result: Result)
    requires client.slave != BROADCAST && tables.Valid()
    requires req.Length == indication.Length == rsp.Length == confirmation.Length == MAX_TCP_ADU
    requires req != indication && indication != rsp && rsp != confirmation && req != rsp && req != confirmation
             && indication != confirmation
    requires bits != tables.tabBits && bits != tables.tabInputBits
    requires registers != tables.tabRegisters && registers != tables.tabInputRegisters
    requires call.ReadBits? || call.ReadInputBits? ==> call.nb <= bits.Length
    requires call.ReadRegisters? || call.ReadInputRegisters? || call.WriteAndRead? ==> call.nb <= registers.Length
    modifies client, req, indication, rsp, confirmation, bits, registers, tables.tabBits, tables.tabRegisters
    ensures var before := old(tables.Value());
            !WritesBelowStart(before, call) ==>
              || (result == LinkFailed && (tables.Value() == before || tables.Value() == Direct(before, call).m))
              || (Delivers(result, Direct(before, call).outcome, bits[..], registers[..])
                  && tables.Value() == Direct(before, call).m)
    ensures !WritesBelowStart(old(tables.Value()), call) && Steady(out, MAX_TCP_ADU) && Steady(back, MAX_TCP_ADU) ==>
              (result == LinkFailed <==> client.be.Rtu? && server != client.slave && !TooMuch(call))
    ensures client.be.Rtu? && server != client.slave ==> tables.Value() == old(tables.Value())
  {
    hide Direct, WritesBelowStart, Adu, RequestPdu, ReplyTo, ClientOutcome, CheckIntegrity, Frame, Steady;
    ghost var before := tables.Value();
    if TooMuch(call) {
      TooMuchDirectly(before, call);
      return Error(TooMuchData);
    }
    var be := client.be;
    var length := client.BuildRequest(call, req);
    ghost var q := req[..length];
    RequestFits(be, client.tid, client.slave, call);
    RequestFramed(call);
    AduIsFrame(be, Indication, client.tid, client.slave, RequestPdu(call));
    var arrived := Cross(be, Indication, req, length, out, indication);
    SteadyEnough(out, length);
    AduIntact(be, client.tid, client.slave, RequestPdu(call));
    if !arrived || CheckIntegrity(be, server, indication[..length]) <= 0 {
      return LinkFailed;
    }
    ghost var stale := indication[length..];
    assert indication[..] == q + stale;
    ExchangeRefines(be, before, client.tid, client.slave, call, stale);
    var replied, rspLength := ModbusReply(be, tables, indication, length, rsp);
    if replied != Sent {
      return LinkFailed;
    }
    ghost var answer := rsp[..rspLength];
    arrived := Cross(be, ConfirmationMsg, rsp, rspLength, back, confirmation);
    SteadyEnough(back, rspLength);
    if !arrived || CheckIntegrity(be, client.slave, confirmation[..rspLength]) <= 0 {
      return LinkFailed;
    }
    assert confirmation[..rspLength] == answer;
    result := Conclude(be, call, req, length, confirmation, rspLength, bits, registers);
  }

  lemma TooMuchDirectly(m: Mapping, call: Call)
    requires TooMuch(call)
    ensures Direct(m, call) == Effect(Failed(TooMuchData), m)
  {
  }

  lemma SteadyEnough(grants: seq<int>, n: nat)
    requires n <= MAX_TCP_ADU
    ensures Steady(grants, MAX_TCP_ADU) ==> Steady(grants, n)
  {
  }
}
