/** The two transports of a PDU: serial line (RTU) and TCP. */
module Transport {
  import opened Bytes
  import opened CrcBits
  import opened RtuCrc
  import opened Pdu

  const MAX_TCP_ADU := 260

  datatype Backend = Rtu | Tcp {
    function HeaderLength(): nat { if Rtu? then 1 else 7 }
    function ChecksumLength(): nat { if Rtu? then 2 else 0 }
    function MaxAdu(): nat { if Rtu? then 256 else MAX_TCP_ADU }
  }

  const BROADCAST: byte := 0

  /** What stands before the PDU. The MBAP length counts the unit and the PDU. */
  function Header(be: Backend, tid: word, unit: byte, n: nat): (h: seq<byte>)
    ensures |h| == be.HeaderLength()
  {
    match be
    case Rtu => [unit]
    case Tcp => [Hi(tid), Lo(tid), 0, 0, Hi(n + 1), Lo(n + 1), unit]
  }

  function Trailer(be: Backend, body: seq<byte>): (t: seq<byte>)
    ensures |t| == be.ChecksumLength()
  {
    match be
    case Rtu => [CrcHi(body), CrcLo(body)]
    case Tcp => []
  }

  function Adu(be: Backend, tid: word, unit: byte, pdu: seq<byte>): (a: seq<byte>)
    ensures |a| == be.HeaderLength() + |pdu| + be.ChecksumLength()
  {
    var body := Header(be, tid, unit, |pdu|) + pdu;
    body + Trailer(be, body)
  }

  /** `build_request_basis` and `build_response_basis` leave the two length bytes of the MBAP header
      open; `send_msg_pre` fills them in or appends the checksum. */
  function Unsent(be: Backend, tid: word, unit: byte, open: (byte, byte), pdu: seq<byte>): seq<byte> {
    match be
    case Rtu => [unit] + pdu
    case Tcp => [Hi(tid), Lo(tid), 0, 0, open.0, open.1, unit] + pdu
  }

  function SendPre(be: Backend, msg: seq<byte>): seq<byte>
    requires be.Tcp? ==> |msg| >= 6
  {
    match be
    case Rtu => msg + [CrcHi(msg), CrcLo(msg)]
    case Tcp => msg[4 := Hi(|msg| - 6)][5 := Lo(|msg| - 6)]
  }

  /** What goes out does not depend on the bytes left open. */
  lemma SentIsAdu(be: Backend, tid: word, unit: byte, open: (byte, byte), pdu: seq<byte>)
    ensures SendPre(be, Unsent(be, tid, unit, open, pdu)) == Adu(be, tid, unit, pdu)
  {
    hide CrcHi, CrcLo, Hi, Lo;
  }

  lemma AduParts(be: Backend, tid: word, unit: byte, pdu: seq<byte>)
    ensures var a, h := Adu(be, tid, unit, pdu), be.HeaderLength();
            && a[..h] == Header(be, tid, unit, |pdu|)
            && a[h..h + |pdu|] == pdu
            && a[h - 1] == unit
  {
    hide CrcHi, CrcLo, Hi, Lo;
  }

  /** The transaction identifier of the next request. */
  function NextTid(tid: word): word {
    if tid < 65535 then tid + 1 else 0
  }

  function AfterRequests(tid: word, n: nat): word
    decreases n
  {
    if n == 0 then tid else AfterRequests(NextTid(tid), n - 1)
  }

  /** Identifiers count the requests, modulo 65536: two requests have the same one exactly if their distance is a multiple
      of that. */
  lemma {:induction false} IdentifiersCount(tid: word, n: nat)
    ensures AfterRequests(tid, n) == (tid + n) % 65536
    ensures AfterRequests(tid, n) == tid <==> n % 65536 == 0
    decreases n
  {
    if n > 0 {
      IdentifiersCount(NextTid(tid), n - 1);
    }
  }

  /** The backend's own check of a confirmation, before the PDU is looked at. */
  function PreCheck(be: Backend, req: seq<byte>, rsp: seq<byte>): (ok: bool)
    requires |req| > be.HeaderLength() && |rsp| > be.HeaderLength()
  {
    match be
    case Rtu => req[0] == rsp[0] || req[0] == BROADCAST
    case Tcp => req[0] == rsp[0] && req[1] == rsp[1] && !(rsp[2] != 0 && rsp[3] != 0)
  }

  /** `check_confirmation`. `rsp` is a received confirmation, so it holds two bytes of PDU at least. */
  function CheckConfirmation(be: Backend, req: seq<byte>, rsp: seq<byte>): Confirmation
    requires |req| >= be.HeaderLength() + 5 + be.ChecksumLength()
    requires |rsp| >= be.HeaderLength() + 2 + be.ChecksumLength()
  {
    var h, c := be.HeaderLength(), be.ChecksumLength();
    if !PreCheck(be, req, rsp) then Rejected(if be.Rtu? then BadSlave else BadData)
    else Confirm(req[h..|req| - c], rsp[h..|rsp| - c])
  }

  lemma ConfirmationOfAdus(be: Backend, tid: word, unit: byte, q: seq<byte>, r: seq<byte>)
    requires |q| >= 5 && |r| >= 2
    ensures CheckConfirmation(be, Adu(be, tid, unit, q), Adu(be, tid, unit, r)) == Confirm(q, r)
  {
    AduParts(be, tid, unit, q);
    AduParts(be, tid, unit, r);
    AduHead(be, tid, unit, q);
    AduHead(be, tid, unit, r);
    hide Confirm, Adu, Header;
  }

  /** A confirmation of another transaction, or of another slave than the one addressed, is turned down. */
  lemma OtherConfirmationRejected(be: Backend, tid: word, tid': word, unit: byte, unit': byte, q: seq<byte>, r: seq<byte>)
    requires |q| >= 5 && |r| >= 2
    requires if be.Tcp? then tid != tid' else unit != unit' && unit != BROADCAST
    ensures CheckConfirmation(be, Adu(be, tid, unit, q), Adu(be, tid', unit', r))
            == Rejected(if be.Rtu? then BadSlave else BadData)
  {
    AduHead(be, tid, unit, q);
    AduHead(be, tid', unit', r);
    hide Confirm, Adu, Header;
    if be.Tcp? {
      WordsDiffer(tid, tid');
    }
  }

  lemma WordsDiffer(a: word, b: word)
    requires a != b
    ensures Hi(a) != Hi(b) || Lo(a) != Lo(b)
  {
  }

  /** A message with another protocol identifier in its MBAP header; 0 stands for Modbus. */
  function WithProtocol(adu: seq<byte>, protocol: word): (a: seq<byte>)
    requires |adu| > 7
    ensures |a| == |adu|
  {
    adu[2 := Hi(protocol)][3 := Lo(protocol)]
  }

  /** The answer to the own transaction under any protocol identifier: it is taken as if it were Modbus exactly when
      one of the two bytes is zero, although only 0 is Modbus. */
  lemma ForeignProtocol(tid: word, unit: byte, q: seq<byte>, r: seq<byte>, protocol: word)
    requires |q| >= 5 && |r| >= 2
    ensures var req, rsp := Adu(Tcp, tid, unit, q), WithProtocol(Adu(Tcp, tid, unit, r), protocol);
            CheckConfirmation(Tcp, req, rsp)
            == if protocol < 256 || protocol % 256 == 0 then Confirm(q, r) else Rejected(BadData)
  {
    var req, own := Adu(Tcp, tid, unit, q), Adu(Tcp, tid, unit, r);
    AduHead(Tcp, tid, unit, q);
    AduHead(Tcp, tid, unit, r);
    AduParts(Tcp, tid, unit, q);
    AduParts(Tcp, tid, unit, r);
    assert Hi(protocol) == 0 <==> protocol < 256;
    hide Confirm, Adu, Header, Hi;
    assert WithProtocol(own, protocol)[7..] == own[7..];
  }

  /** An answer of protocol 1 to a read of one register is accepted. */
  lemma ProtocolOneAccepted(tid: word, unit: byte, addr: word, hi: byte, lo: byte)
    ensures var q, r := [READ_HOLDING_REGISTERS, Hi(addr), Lo(addr), 0, 1], [READ_HOLDING_REGISTERS, 2, hi, lo];
            CheckConfirmation(Tcp, Adu(Tcp, tid, unit, q), WithProtocol(Adu(Tcp, tid, unit, r), 1)) == Count(1)
  {
    var q, r := [READ_HOLDING_REGISTERS, Hi(addr), Lo(addr), 0, 1], [READ_HOLDING_REGISTERS, 2, hi, lo];
    ForeignProtocol(tid, unit, q, r, 1);
    hide Adu, WithProtocol, CheckConfirmation;
  }

  lemma AduHead(be: Backend, tid: word, unit: byte, pdu: seq<byte>)
    ensures var a := Adu(be, tid, unit, pdu);
            match be
            case Rtu => a[0] == unit
            case Tcp => a[0] == Hi(tid) && a[1] == Lo(tid) && a[2] == 0 && a[3] == 0
  {
    hide CrcHi, CrcLo, Hi, Lo;
  }

  /** `check_integrity`: 0 for a message to another slave, its length if it is intact, -1 otherwise. */
  function CheckIntegrity(be: Backend, slave: int, msg: seq<byte>): int
    requires |msg| >= 1
  {
    match be
    case Tcp => |msg|
    case Rtu =>
      if msg[0] != slave && msg[0] != BROADCAST then 0
      else if Sealed(msg) then |msg|
      else -1
  }

  lemma AduIntact(be: Backend, tid: word, unit: byte, pdu: seq<byte>)
    ensures var a := Adu(be, tid, unit, pdu);
            && |a| >= 1
            && (forall slave: int :: CheckIntegrity(be, slave, a)
                 == if be.Rtu? && unit != slave && unit != BROADCAST then 0 else |a|)
  {
    if be.Rtu? {
      var body := [unit] + pdu;
      AduHead(be, tid, unit, pdu);
      assert Adu(be, tid, unit, pdu) == body + [CrcHi(body), CrcLo(body)];
      SealedBySending(body);
      hide Sealed, CrcHi, CrcLo;
    }
  }

  /** A frame that was accepted is not accepted with a change within 16 consecutive bits, checksum and address
      included: it is reported, or taken for one to another slave. */
  lemma DamageNotAccepted(slave: byte, f: seq<byte>, g: seq<byte>, p: nat)
    requires |f| >= 1 && CheckIntegrity(Rtu, slave, f) == |f|
    requires f != g && WithinBurst(LsbFirst, f, g, p)
    ensures |g| == |f| && CheckIntegrity(Rtu, slave, g) <= 0
  {
    hide Sealed, MessageBits;
    BurstUnseals(f, g, p);
  }
}
