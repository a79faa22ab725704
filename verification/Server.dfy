/** `modbus_reply` as it works: tables and response buffer are arrays that it changes in place. */
module Server {
  import opened Bytes
  import opened BitPacking
  import opened RtuCrc
  import opened Pdu
  import opened Transport
  import opened Receive
  import opened Transaction

  class RegisterMap {
    const startBits: nat
    const startInputBits: nat
    const startRegisters: nat
    const startInputRegisters: nat
    const tabBits: array<bool>
    const tabInputBits: array<bool>
    const tabRegisters: array<word>
    const tabInputRegisters: array<word>

    constructor (startBits: nat, nbBits: nat, startInputBits: nat, nbInputBits: nat,
                 startRegisters: nat, nbRegisters: nat, startInputRegisters: nat, nbInputRegisters: nat)
      ensures Valid() && fresh(tabBits) && fresh(tabInputBits) && fresh(tabRegisters) && fresh(tabInputRegisters)
      ensures Value() == Mapping(Table(startBits, seq(nbBits, _ => false)),
                                 Table(startInputBits, seq(nbInputBits, _ => false)),
                                 Table(startRegisters, seq(nbRegisters, _ => 0)),
                                 Table(startInputRegisters, seq(nbInputRegisters, _ => 0)))
    {
      this.startBits, this.startInputBits := startBits, startInputBits;
      this.startRegisters, this.startInputRegisters := startRegisters, startInputRegisters;
      tabBits := new bool[nbBits](_ => false);
      tabInputBits := new bool[nbInputBits](_ => false);
      tabRegisters := new word[nbRegisters](_ => 0);
      tabInputRegisters := new word[nbInputRegisters](_ => 0);
    }

    /** The input tables are separate from the tables that can be written. */
    predicate Valid() {
      tabBits != tabInputBits && tabRegisters != tabInputRegisters
    }

    function Value(): Mapping
      reads tabBits, tabInputBits, tabRegisters, tabInputRegisters
    {
      Mapping(Table(startBits, tabBits[..]), Table(startInputBits, tabInputBits[..]),
              Table(startRegisters, tabRegisters[..]), Table(startInputRegisters, tabInputRegisters[..]))
    }
  }

  method PutRegisters(tab: array<word>, start: nat, address: word, nb: nat, bytes: seq<byte>)
    requires 2 * nb <= |bytes| && Table(start, tab[..]).Holds(address, nb)
    modifies tab
    ensures Table(start, tab[..]) == old(Table(start, tab[..]).Put(address, BytesRegisters(bytes, nb)))
  {
    hide Word;
    var at := address - start;
    ghost var before, values := tab[..], BytesRegisters(bytes, nb);
    for i := 0 to nb
      invariant tab[..] == before[..at] + values[..i] + before[at + i..]
    {
      PutCell(tab, at + i, Word(bytes[2 * i], bytes[2 * i + 1]), before[..at], values, i, before);
    }
    assert values[..nb] == values;
  }

  method GetRegisters(tab: seq<word>, at: nat, nb: nat, rsp: array<byte>, offset: nat) returns (end: nat)
    requires at + nb <= |tab| && offset + 2 * nb <= rsp.Length
    modifies rsp
    ensures end == offset + 2 * nb
    ensures rsp[..end] == old(rsp[..offset]) + RegisterBytes(tab[at..at + nb])
  {
    hide RegisterBytes, Hi, Lo;
    end := offset;
    ghost var values := tab[at..at + nb];
    ghost var bytes, head := RegisterBytes(values), rsp[..offset];
    assert bytes[..0] == [] && head + [] == head;
    for i := at to at + nb
      invariant end == offset + 2 * (i - at)
      invariant rsp[..end] == head + bytes[..2 * (i - at)]
    {
      RegisterBytesAt(values, i - at);
      TwoMore(head, bytes, 2 * (i - at));
      end := PutTwo(rsp, end, Hi(tab[i]), Lo(tab[i]));
    }
    assert bytes[..2 * nb] == bytes;
  }

  lemma TwoMore(head: seq<byte>, bytes: seq<byte>, n: nat)
    requires n + 2 <= |bytes|
    ensures head + bytes[..n] + [bytes[n], bytes[n + 1]] == head + bytes[..n + 2]
  {
  }

  /** Two bytes of an answer behind the header. */
  method PutTwo(rsp: array<byte>, at: nat, x: byte, y: byte) returns (end: nat)
    requires at + 2 <= rsp.Length
    modifies rsp
    ensures end == at + 2 && rsp[..end] == old(rsp[..at]) + [x, y]
  {
    rsp[at] := x;
    rsp[at + 1] := y;
    end := at + 2;
  }

  method PutBytes(rsp: array<byte>, at: nat, bytes: seq<byte>) returns (end: nat)
    requires at + |bytes| <= rsp.Length
    modifies rsp
    ensures end == at + |bytes| && rsp[..end] == old(rsp[..at]) + bytes
  {
    forall k | 0 <= k < |bytes| {
      rsp[at + k] := bytes[k];
    }
    end := at + |bytes|;
  }

  /** How a request was dealt with. `OffTable` stands for the write below the register table. */
  datatype Dealt = Answered | Ignored | OffTable

  /** A part of the answer has been written from `at` on, and the tables have changed as `Serve` says. */
  twostate predicate Wrote(tables: RegisterMap, rsp: array<byte>, at: nat, end: nat, answer: Answer)
    reads tables.tabBits, tables.tabInputBits, tables.tabRegisters, tables.tabInputRegisters, rsp
  {
    && answer.Answer? && at <= end <= rsp.Length
    && tables.Value() == answer.m
    && rsp[..end] == old(rsp[..at]) + answer.pdu
  }

  method AnswerRefusal(tables: RegisterMap, fc: byte, code: byte, rsp: array<byte>, at: nat) returns (end: nat)
    requires at + MAX_PDU <= rsp.Length
    modifies rsp
    ensures Wrote(tables, rsp, at, end, Refuse(old(tables.Value()), fc, code))
  {
    end := PutTwo(rsp, at, Lo(fc + 0x80), code);
  }

  method AnswerReadBits(tables: RegisterMap, table: Table<bool>, fc: byte, address: word, nb: word,
                        rsp: array<byte>, at: nat) returns (end: nat)
    requires at + MAX_PDU <= rsp.Length
    modifies rsp
    ensures Wrote(tables, rsp, at, end, ServeReadBits(old(tables.Value()), table, fc, address, nb))
  {
    hide PackBits, Refuse, ByteCount, Lo;
    if nb < 1 || MAX_READ_BITS < nb {
      end := AnswerRefusal(tables, fc, ILLEGAL_DATA_VALUE, rsp, at);
    } else if !table.Holds(address, nb) {
      end := AnswerRefusal(tables, fc, ILLEGAL_DATA_ADDRESS, rsp, at);
    } else {
      ByteCountFits(nb);
      end := PutTwo(rsp, at, fc, Lo(ByteCount(nb)));
      ghost var row := rsp[..end];
      end := ResponseIoStatus(table.cells, address - table.start, nb, rsp, end);
      assert rsp[..end] == row + PackBits(table.Slice(address, nb));
    }
  }

  method AnswerReadRegisters(tables: RegisterMap, table: Table<word>, fc: byte, address: word, nb: word,
                             rsp: array<byte>, at: nat) returns (end: nat)
    requires at + MAX_PDU <= rsp.Length
    modifies rsp
    ensures Wrote(tables, rsp, at, end, ServeReadRegisters(old(tables.Value()), table, fc, address, nb))
  {
    hide RegisterBytes, Refuse, Lo;
    if nb < 1 || MAX_READ_REGISTERS < nb {
      end := AnswerRefusal(tables, fc, ILLEGAL_DATA_VALUE, rsp, at);
    } else if !table.Holds(address, nb) {
      end := AnswerRefusal(tables, fc, ILLEGAL_DATA_ADDRESS, rsp, at);
    } else {
      end := PutTwo(rsp, at, fc, Lo(2 * nb));
      ghost var row := rsp[..end];
      end := GetRegisters(table.cells, address - table.start, nb, rsp, end);
      assert rsp[..end] == row + RegisterBytes(table.Slice(address, nb));
    }
  }

  method AnswerWriteBit(tables: RegisterMap, fc: byte, address: word, data: word, echo: seq<byte>,
                        rsp: array<byte>, at: nat) returns (end: nat)
    requires tables.Valid() && at + MAX_PDU <= rsp.Length && |echo| <= MAX_PDU
    modifies rsp, tables.tabBits
    ensures Wrote(tables, rsp, at, end, ServeWriteBit(old(tables.Value()), fc, address, data, echo))
  {
    hide Refuse;
    var start := tables.startBits;
    if address < start || address - start >= tables.tabBits.Length {
      end := AnswerRefusal(tables, fc, ILLEGAL_DATA_ADDRESS, rsp, at);
    } else if data == 0xFF00 || data == 0 {
      tables.tabBits[address - start] := data != 0;
      assert tables.tabBits[..] == old(Table(start, tables.tabBits[..]).Put(address, [data != 0])).cells;
      end := PutBytes(rsp, at, echo);
    } else {
      end := AnswerRefusal(tables, fc, ILLEGAL_DATA_VALUE, rsp, at);
    }
  }

  method AnswerWriteRegister(tables: RegisterMap, fc: byte, address: word, data: word, echo: seq<byte>,
                             rsp: array<byte>, at: nat) returns (end: nat)
    requires tables.Valid() && at + MAX_PDU <= rsp.Length && |echo| <= MAX_PDU
    modifies rsp, tables.tabRegisters
    ensures Wrote(tables, rsp, at, end, ServeWriteRegister(old(tables.Value()), fc, address, data, echo))
  {
    hide Refuse;
    var start := tables.startRegisters;
    if address < start || address - start >= tables.tabRegisters.Length {
      end := AnswerRefusal(tables, fc, ILLEGAL_DATA_ADDRESS, rsp, at);
    } else {
      tables.tabRegisters[address - start] := data;
      assert tables.tabRegisters[..] == old(Table(start, tables.tabRegisters[..]).Put(address, [data])).cells;
      end := PutBytes(rsp, at, echo);
    }
  }

  method AnswerWriteBits(tables: RegisterMap, fc: byte, address: word, nb: word, bytes: seq<byte>, echo: seq<byte>,
                         rsp: array<byte>, at: nat) returns (end: nat)
    requires tables.Valid() && at + MAX_PDU <= rsp.Length && |echo| <= MAX_PDU && |bytes| >= MAX_PDU - 6
    modifies rsp, tables.tabBits
    ensures Wrote(tables, rsp, at, end, ServeWriteBits(old(tables.Value()), fc, address, nb, bytes, echo))
  {
    hide Refuse, UnpackBits;
    var start := tables.startBits;
    if nb < 1 || MAX_WRITE_BITS < nb {
      end := AnswerRefusal(tables, fc, ILLEGAL_DATA_VALUE, rsp, at);
    } else if address < start || address - start + nb > tables.tabBits.Length {
      end := AnswerRefusal(tables, fc, ILLEGAL_DATA_ADDRESS, rsp, at);
    } else {
      SetBitsFromBytes(tables.tabBits, address - start, nb, bytes);
      assert tables.tabBits[..] == old(Table(start, tables.tabBits[..]).Put(address, UnpackBits(bytes, nb))).cells;
      end := PutBytes(rsp, at, echo);
    }
  }

  method AnswerWriteRegisters(tables: RegisterMap, fc: byte, address: word, nb: word, bytes: seq<byte>,
                              echo: seq<byte>, rsp: array<byte>, at: nat) returns (end: nat)
    requires tables.Valid() && at + MAX_PDU <= rsp.Length && |echo| <= MAX_PDU && |bytes| >= MAX_PDU - 6
    modifies rsp, tables.tabRegisters
    ensures Wrote(tables, rsp, at, end, ServeWriteRegisters(old(tables.Value()), fc, address, nb, bytes, echo))
  {
    hide Refuse, BytesRegisters;
    var start := tables.startRegisters;
    if nb < 1 || MAX_WRITE_REGISTERS < nb {
      end := AnswerRefusal(tables, fc, ILLEGAL_DATA_VALUE, rsp, at);
    } else if address < start || address - start + nb > tables.tabRegisters.Length {
      end := AnswerRefusal(tables, fc, ILLEGAL_DATA_ADDRESS, rsp, at);
    } else {
      PutRegisters(tables.tabRegisters, start, address, nb, bytes);
      end := PutBytes(rsp, at, echo);
    }
  }

  method AnswerMaskWrite(tables: RegisterMap, fc: byte, address: word, andMask: word, orMask: word, echo: seq<byte>,
                         rsp: array<byte>, at: nat) returns (end: nat)
    requires tables.Valid() && at + MAX_PDU <= rsp.Length && |echo| <= MAX_PDU
    modifies rsp, tables.tabRegisters
    ensures Wrote(tables, rsp, at, end, ServeMaskWrite(old(tables.Value()), fc, address, andMask, orMask, echo))
  {
    hide Refuse, Mask;
    var start := tables.startRegisters;
    if address < start || address - start >= tables.tabRegisters.Length {
      end := AnswerRefusal(tables, fc, ILLEGAL_DATA_ADDRESS, rsp, at);
    } else {
      var data := tables.tabRegisters[address - start];
      assert data == old(Table(start, tables.tabRegisters[..]).Slice(address, 1)[0]);
      tables.tabRegisters[address - start] := Mask(data, andMask, orMask);
      assert tables.tabRegisters[..]
          == old(Table(start, tables.tabRegisters[..]).Put(address, [Mask(data, andMask, orMask)])).cells;
      end := PutBytes(rsp, at, echo);
    }
  }

  method AnswerWriteAndRead(tables: RegisterMap, fc: byte, address: word, nb: word, writeAddress: word, nbWrite: word,
                            byteCount: byte, bytes: seq<byte>, rsp: array<byte>, at: nat)
    returns (dealt: Dealt, end: nat)
    requires tables.Valid() && at + MAX_PDU <= rsp.Length && |bytes| >= MAX_PDU - 10
    modifies rsp, tables.tabRegisters
    ensures var answer :=
              ServeWriteAndRead(old(tables.Value()), fc, address, nb, writeAddress, nbWrite, byteCount, bytes);
            if answer.OutOfBounds? then dealt == OffTable
            else dealt == Answered && Wrote(tables, rsp, at, end, answer)
  {
    hide Refuse, RegisterBytes, BytesRegisters, Lo;
    dealt := Answered;
    var start, length := tables.startRegisters, tables.tabRegisters.Length;
    if nbWrite < 1 || MAX_WR_WRITE_REGISTERS < nbWrite || nb < 1 || MAX_WR_READ_REGISTERS < nb
       || byteCount != 2 * nbWrite {
      end := AnswerRefusal(tables, fc, ILLEGAL_DATA_VALUE, rsp, at);
    } else if address < start || address - start + nb > length || writeAddress - start + nbWrite > length {
      end := AnswerRefusal(tables, fc, ILLEGAL_DATA_ADDRESS, rsp, at);
    } else if writeAddress < start {
      // the first cell written would lie before the table
      dealt, end := OffTable, at;
    } else {
      end := WriteThenRead(tables, fc, address, nb, writeAddress, nbWrite, bytes, rsp, at);
    }
  }

  method WriteThenRead(tables: RegisterMap, fc: byte, address: word, nb: word, writeAddress: word, nbWrite: word,
                       bytes: seq<byte>, rsp: array<byte>, at: nat)
    returns (end: nat)
    requires tables.Valid() && at + MAX_PDU <= rsp.Length && 2 * nbWrite <= |bytes| && nb <= MAX_WR_READ_REGISTERS
    requires tables.Value().registers.Holds(address, nb) && tables.Value().registers.Holds(writeAddress, nbWrite)
    modifies rsp, tables.tabRegisters
    ensures var m := old(tables.Value());
            var written := m.registers.Put(writeAddress, BytesRegisters(bytes, nbWrite));
            Wrote(tables, rsp, at, end,
                  Answer(m.(registers := written), [fc, Lo(2 * nb)] + RegisterBytes(written.Slice(address, nb))))
  {
    hide RegisterBytes, BytesRegisters, Lo;
    var start := tables.startRegisters;
    end := PutTwo(rsp, at, fc, Lo(2 * nb));
    ghost var row := rsp[..end];
    PutRegisters(tables.tabRegisters, start, writeAddress, nbWrite, bytes);
    end := GetRegisters(tables.tabRegisters[..], address - start, nb, rsp, end);
    assert rsp[..end] == row + RegisterBytes(Table(start, tables.tabRegisters[..]).Slice(address, nb));
  }

  /** The switch of `modbus_reply`: `p` is the receive buffer from the function code on, `n` the length of the
      request PDU, and the answer PDU goes to `rsp` from `at` on. */
  method AnswerPdu(tables: RegisterMap, p: seq<byte>, n: nat, rsp: array<byte>, at: nat)
    returns (dealt: Dealt, end: nat)
    requires tables.Valid() && MAX_PDU <= |p| && n <= MAX_PDU && at + MAX_PDU <= rsp.Length
    modifies rsp, tables.tabBits, tables.tabRegisters
    ensures var answer := Serve(old(tables.Value()), p, n);
            match dealt
            case Answered => Wrote(tables, rsp, at, end, answer)
            case Ignored => answer.Silent? && tables.Value() == old(tables.Value())
            case OffTable => answer.OutOfBounds?
  {
    hide ServeReadBits, ServeReadRegisters, ServeWriteBit, ServeWriteRegister, ServeWriteBits, ServeWriteRegisters,
      ServeMaskWrite, ServeWriteAndRead, Refuse, Word;
    var fc, address, count := p[0], Word(p[1], p[2]), Word(p[3], p[4]);
    dealt, end := Answered, at;
    if fc == READ_COILS {
      end := AnswerReadBits(tables, Table(tables.startBits, tables.tabBits[..]), fc, address, count, rsp, at);
    } else if fc == READ_DISCRETE_INPUTS {
      end := AnswerReadBits(tables, Table(tables.startInputBits, tables.tabInputBits[..]), fc, address, count, rsp, at);
    } else if fc == READ_HOLDING_REGISTERS {
      end := AnswerReadRegisters(tables, Table(tables.startRegisters, tables.tabRegisters[..]), fc, address, count,
                                 rsp, at);
    } else if fc == READ_INPUT_REGISTERS {
      end := AnswerReadRegisters(tables, Table(tables.startInputRegisters, tables.tabInputRegisters[..]), fc, address,
                                 count, rsp, at);
    } else if fc == WRITE_SINGLE_COIL {
      end := AnswerWriteBit(tables, fc, address, count, p[..n], rsp, at);
    } else if fc == WRITE_SINGLE_REGISTER {
      end := AnswerWriteRegister(tables, fc, address, count, p[..n], rsp, at);
    } else if fc == WRITE_MULTIPLE_COILS {
      end := AnswerWriteBits(tables, fc, address, count, p[6..], p[..5], rsp, at);
    } else if fc == WRITE_MULTIPLE_REGISTERS {
      end := AnswerWriteRegisters(tables, fc, address, count, p[6..], p[..5], rsp, at);
    } else if fc == REPORT_SLAVE_ID {
      end := PutBytes(rsp, at, [fc, Lo(2 + |IDENTITY|), SLAVE_ID, 0xFF] + IDENTITY);
    } else if fc == READ_EXCEPTION_STATUS {
      dealt := Ignored;
    } else if fc == MASK_WRITE_REGISTER {
      end := AnswerMaskWrite(tables, fc, address, count, Word(p[5], p[6]), p[..n], rsp, at);
    } else if fc == WRITE_AND_READ_REGISTERS {
      dealt, end := AnswerWriteAndRead(tables, fc, address, count, Word(p[5], p[6]), Word(p[7], p[8]), p[9], p[10..],
                                       rsp, at);
    } else {
      end := AnswerRefusal(tables, fc, ILLEGAL_FUNCTION, rsp, at);
    }
  }

  /** The header of the answer, with the length of its PDU already in it. */
  method PutHeader(be: Backend, req: array<byte>, echo: bool, n: nat, rsp: array<byte>)
    requires req.Length >= be.MaxAdu() && rsp.Length >= 7 && req != rsp
    modifies rsp
    ensures rsp[..be.HeaderLength()] == ReplyHeader(be, req[..], echo, n)
    ensures rsp[be.HeaderLength()..] == old(rsp[be.HeaderLength()..])
  {
    hide Hi, Lo;
    match be {
      case Rtu =>
        rsp[0] := req[0];
      case Tcp =>
        rsp[0], rsp[1] := req[0], req[1];
        rsp[2], rsp[3] := 0, 0;
        if echo {
          rsp[2], rsp[3] := req[2], req[3];
        }
        rsp[4], rsp[5] := Hi(n + 1), Lo(n + 1);
        rsp[6] := req[6];
    }
  }

  datatype Replied = Sent | Suppressed | NotImplemented | OutsideTable

  /** `modbus_reply` against its specification `ReplyTo`. */
  method ModbusReply(be: Backend, tables: RegisterMap, req: array<byte>, reqLength: nat, rsp: array<byte>)
    returns (replied: Replied, length: nat)
    requires tables.Valid() && req != rsp && req.Length >= be.MaxAdu() && rsp.Length >= MAX_TCP_ADU
    requires be.HeaderLength() + be.ChecksumLength() < reqLength <= be.MaxAdu()
    modifies rsp, tables.tabBits, tables.tabRegisters
    ensures length <= rsp.Length
    ensures match ReplyTo(be, old(tables.Value()), req[..], reqLength)
            case Send(m, msg) => replied == Sent && rsp[..length] == msg && tables.Value() == m
            case Keep(m) => replied == Suppressed && tables.Value() == m
            case Unimplemented => replied == NotImplemented && tables.Value() == old(tables.Value())
            case Outside => replied == OutsideTable
  {
    hide Serve, Trailer, CrcHi, CrcLo, ReplyHeader;
    var h := be.HeaderLength();
    var dealt, end := AnswerPdu(tables, req[h..], reqLength - h - be.ChecksumLength(), rsp, h);
    length := 0;
    match dealt {
      case Ignored => replied := NotImplemented;
      case OffTable => replied := OutsideTable;
      case Answered =>
        if req[h - 1] == BROADCAST {
          replied := Suppressed;
        } else {
          ghost var answer := Serve(old(tables.Value()), req[h..], reqLength - h - be.ChecksumLength());
          AnswerStarts(old(tables.Value()), req[h..], reqLength - h - be.ChecksumLength());
          ghost var pdu := answer.pdu;
          assert rsp[h..end] == pdu;
          var echo := Echoed(req[h]) && rsp[h] == req[h];
          assert echo == (Echoed(req[h]) && pdu[..1] == [req[h]]) by {
            assert rsp[h] == rsp[h..end][0] == pdu[0];
          }
          ghost var row := rsp[h..];
          SliceThere(rsp[..], h, end);
          assert rsp[..][h..] == row && rsp[..][h..end] == pdu;
          PutHeader(be, req, echo, end - h, rsp);
          SliceThere(rsp[..], h, end);
          assert rsp[..][h..] == rsp[h..] && rsp[..][h..end] == rsp[h..end];
          assert rsp[h..end] == row[..end - h];
          assert rsp[..end] == rsp[..h] + rsp[h..end];
          length := Seal(be, rsp, end);
          replied := Sent;
        }
    }
  }

  lemma AnswerStarts(m: Mapping, p: seq<byte>, n: nat)
    requires |p| >= MAX_PDU && 1 <= n <= MAX_PDU
    ensures Serve(m, p, n).Answer? ==> 1 <= |Serve(m, p, n).pdu| <= MAX_PDU
  {
    hide PackBits, UnpackBits, RegisterBytes, BytesRegisters, Mask, Word, ByteCount, Lo;
    if Word(p[3], p[4]) <= MAX_READ_BITS {
      ByteCountFits(Word(p[3], p[4]));
    }
  }

  /** `send_msg_pre` of a finished body: the checksum on a serial line, nothing more on TCP. */
  method Seal(be: Backend, msg: array<byte>, n: nat) returns (length: nat)
    requires n + be.ChecksumLength() <= msg.Length
    modifies msg
    ensures length <= msg.Length && msg[..length] == old(msg[..n]) + Trailer(be, old(msg[..n]))
  {
    length := n;
    if be.Rtu? {
      length := SendMsgPre(msg, n);
    }
  }
}
