/** The server, the client and the framing held against the standard: function codes, exception codes, limits and byte
    positions are the numbers of the MODBUS Application Protocol, for requests and responses of any bytes. */
module Standard {
  import opened Bytes
  import opened BitPacking
  import opened Pdu
  import opened Refinement
  import opened Transport
  import opened Receive
  import opened RtuCrc
  import opened Transaction

  /** Bit `k` of a number, the lowest one first. */
  predicate BitOf(n: nat, k: nat) {
    if k == 0 then n % 2 == 1 else BitOf(n / 2, k - 1)
  }

  lemma {:induction false} BitsOfNumber(n: nat, size: nat, k: nat)
    requires k < size
    ensures ToBits(n, size)[k] == BitOf(n, k)
    decreases size
  {
    if k > 0 {
      BitsOfNumber(n / 2, size - 1, k - 1);
    }
  }

  /** The number in bytes `k` and `k + 1`, high byte first. */
  function Number(p: seq<byte>, k: nat): word
    requires k + 1 < |p|
  {
    (p[k] as int) * 256 + p[k + 1]
  }

  predicate InTable<T>(t: Table<T>, address: nat, count: nat) {
    t.start <= address && address + count <= t.start + |t.cells|
  }

  // ----- what the server refuses -----

  /** A value or a count that the function does not allow. */
  predicate Unsuitable(p: seq<byte>)
    requires |p| >= 253
  {
    var fc, count := p[0], Number(p, 3);
    if fc in {1, 2} then !(1 <= count <= 2000)
    else if fc in {3, 4} then !(1 <= count <= 125)
    else if fc == 5 then count != 0 && count != 65280
    else if fc == 15 then !(1 <= count <= 1968)
    else if fc == 16 then !(1 <= count <= 123)
    else if fc == 23 then !(1 <= count <= 125) || !(1 <= Number(p, 7) <= 121) || p[9] != 2 * Number(p, 7)
    else false
  }

  /** Cells that the table does not have. Of the range that function 23 writes only the upper end is looked at. */
  predicate Absent(m: Mapping, p: seq<byte>)
    requires |p| >= 253
  {
    var fc, address, count := p[0], Number(p, 1), Number(p, 3);
    if fc == 1 || fc == 15 then !InTable(m.bits, address, count)
    else if fc == 2 then !InTable(m.inputBits, address, count)
    else if fc == 3 || fc == 16 then !InTable(m.registers, address, count)
    else if fc == 4 then !InTable(m.inputRegisters, address, count)
    else if fc == 5 then !InTable(m.bits, address, 1)
    else if fc == 6 || fc == 22 then !InTable(m.registers, address, 1)
    else if fc == 23 then
      !InTable(m.registers, address, count) || Number(p, 5) + Number(p, 7) > m.registers.start + |m.registers.cells|
    else false
  }

  predicate Refuses(a: Answer, p: seq<byte>, code: byte)
    requires p != []
  {
    a.Answer? && a.pdu == [(p[0] as int + 128) % 256, code]
  }

  predicate RefusedRight(m: Mapping, p: seq<byte>, a: Answer)
    requires |p| >= 253
  {
    && (Refuses(a, p, 3) <==> Unsuitable(p) && (p[0] == 5 ==> !Absent(m, p)))
    && (Refuses(a, p, 2) <==> Absent(m, p) && (Unsuitable(p) ==> p[0] == 5))
    && (Refuses(a, p, 1) <==> p[0] !in {1, 2, 3, 4, 5, 6, 7, 15, 16, 17, 22, 23})
    && (a == Silent <==> p[0] == 7)
    && (a == OutOfBounds <==> p[0] == 23 && !Unsuitable(p) && !Absent(m, p) && Number(p, 5) < m.registers.start)
    && (a.Answer? && |a.pdu| == 2 && Refuses(a, p, a.pdu[1]) ==> a.m == m && 1 <= a.pdu[1] <= 3)
  }

  lemma BitsDispatched(m: Mapping, p: seq<byte>, n: nat)
    requires |p| >= 253 && n <= |p| && p[0] in {1, 2}
    ensures Serve(m, p, n) == ServeReadBits(m, if p[0] == 1 then m.bits else m.inputBits, p[0], Number(p, 1), Number(p, 3))
  {
    hide ServeReadBits;
  }

  lemma RegistersDispatched(m: Mapping, p: seq<byte>, n: nat)
    requires |p| >= 253 && n <= |p| && p[0] in {3, 4}
    ensures Serve(m, p, n)
            == ServeReadRegisters(m, if p[0] == 3 then m.registers else m.inputRegisters, p[0], Number(p, 1), Number(p, 3))
  {
    hide ServeReadRegisters;
  }

  lemma ReadsRefused(m: Mapping, p: seq<byte>, n: nat)
    requires |p| >= 253 && n <= |p| && p[0] in {1, 2, 3, 4}
    ensures RefusedRight(m, p, Serve(m, p, n))
  {
    hide ServeReadBits, ServeReadRegisters, Serve;
    var fc, address, count := p[0], Number(p, 1), Number(p, 3);
    if fc in {1, 2} {
      BitsDispatched(m, p, n);
      ReadBitsVerdict(m, if fc == 1 then m.bits else m.inputBits, fc, address, count);
    } else {
      RegistersDispatched(m, p, n);
      ReadRegistersVerdict(m, if fc == 3 then m.registers else m.inputRegisters, fc, address, count);
    }
  }

  lemma ReadBitsVerdict(m: Mapping, t: Table<bool>, fc: byte, address: word, count: word)
    ensures var a := ServeReadBits(m, t, fc, address, count);
            if !(1 <= count <= 2000) then a == Refuse(m, fc, 3)
            else if !InTable(t, address, count) then a == Refuse(m, fc, 2)
            else a.Answer? && a.m == m && |a.pdu| > 2 && a.pdu[0] == fc
  {
    hide PackBits;
  }

  lemma ReadRegistersVerdict(m: Mapping, t: Table<word>, fc: byte, address: word, count: word)
    ensures var a := ServeReadRegisters(m, t, fc, address, count);
            if !(1 <= count <= 125) then a == Refuse(m, fc, 3)
            else if !InTable(t, address, count) then a == Refuse(m, fc, 2)
            else a.Answer? && a.m == m && |a.pdu| > 2 && a.pdu[0] == fc
  {
    hide RegisterBytes;
  }

  lemma SingleWritesRefused(m: Mapping, p: seq<byte>, n: nat)
    requires |p| >= 253 && n <= |p| && p[0] in {5, 6, 22}
    ensures RefusedRight(m, p, Serve(m, p, n))
  {
    hide Mask;
    var a := Serve(m, p, n);
    if a.pdu == p[..n] {
      EchoIsNone(a, p, n);
    }
  }

  lemma EchoIsNone(a: Answer, p: seq<byte>, n: nat)
    requires n <= |p| && p != [] && a.Answer? && a.pdu == p[..n]
    ensures forall code: byte :: !Refuses(a, p, code)
  {
    assert n > 0 ==> p[..n][0] == p[0];
  }

  lemma ManyWritesRefused(m: Mapping, p: seq<byte>, n: nat)
    requires |p| >= 253 && n <= |p| && p[0] in {15, 16}
    ensures RefusedRight(m, p, Serve(m, p, n))
  {
    hide UnpackBits, BytesRegisters;
  }

  lemma WriteAndReadRefused(m: Mapping, p: seq<byte>, n: nat)
    requires |p| >= 253 && n <= |p| && p[0] == 23
    ensures RefusedRight(m, p, Serve(m, p, n))
  {
    hide RegisterBytes, BytesRegisters;
  }

  lemma OthersRefused(m: Mapping, p: seq<byte>, n: nat)
    requires |p| >= 253 && n <= |p| && p[0] !in {1, 2, 3, 4, 5, 6, 15, 16, 22, 23}
    ensures RefusedRight(m, p, Serve(m, p, n))
  {
  }

  /** For any request bytes: the server refuses with exception 3 exactly for an unsuitable value or count, with 2 exactly
      for absent cells, with 1 exactly for an unknown function. The value of a single coil is looked at after its
      address, every count before. Function 7 is not answered at all, nor a range of function 23 that starts below the
      table. What is refused changes nothing. */
  lemma RefusedExactly(m: Mapping, p: seq<byte>, n: nat)
    requires |p| >= 253 && n <= |p|
    ensures var a := Serve(m, p, n);
            && (Refuses(a, p, 3) <==> Unsuitable(p) && (p[0] == 5 ==> !Absent(m, p)))
            && (Refuses(a, p, 2) <==> Absent(m, p) && (Unsuitable(p) ==> p[0] == 5))
            && (Refuses(a, p, 1) <==> p[0] !in {1, 2, 3, 4, 5, 6, 7, 15, 16, 17, 22, 23})
            && (a == Silent <==> p[0] == 7)
            && (a == OutOfBounds <==> p[0] == 23 && !Unsuitable(p) && !Absent(m, p) && Number(p, 5) < m.registers.start)
            && (a.Answer? && |a.pdu| == 2 && Refuses(a, p, a.pdu[1]) ==> a.m == m && 1 <= a.pdu[1] <= 3)
  {
    hide Serve, Unsuitable, Absent, Refuses;
    if p[0] in {1, 2, 3, 4} {
      ReadsRefused(m, p, n);
    } else if p[0] in {5, 6, 22} {
      SingleWritesRefused(m, p, n);
    } else if p[0] in {15, 16} {
      ManyWritesRefused(m, p, n);
    } else if p[0] == 23 {
      WriteAndReadRefused(m, p, n);
    } else {
      OthersRefused(m, p, n);
    }
  }

  // ----- what it answers -----

  /** A table that holds new cells from `address` on, and is otherwise as before. */
  ghost predicate Changed<T>(before: Table<T>, after: Table<T>, address: nat, values: seq<T>) {
    && before.start == after.start <= address && address - before.start + |values| <= |before.cells| == |after.cells|
    && forall i | 0 <= i < |before.cells| ::
         after.cells[i] == var k := before.start + i - address;
                           if 0 <= k < |values| then values[k] else before.cells[i]
  }

  lemma PutChanges<T>(t: Table<T>, address: word, values: seq<T>)
    requires InTable(t, address, |values|)
    ensures t.Holds(address, |values|) && Changed(t, t.Put(address, values), address, values)
  {
  }

  /** Cells as they are packed: cell `i` is bit `i % 8` of byte `i / 8`, and what is above the last one is 0. */
  predicate Packed(bytes: seq<byte>, cells: seq<bool>) {
    && |bytes| == (|cells| + 7) / 8
    && forall i | 0 <= i < 8 * |bytes| :: BitOf(bytes[i / 8], i % 8) == (i < |cells| && cells[i])
  }

  lemma PackedSo(cells: seq<bool>)
    ensures Packed(PackBits(cells), cells)
  {
    hide PackBits, ToBits, BitOf;
    forall i | 0 <= i < 8 * |PackBits(cells)|
      ensures BitOf(PackBits(cells)[i / 8], i % 8) == (i < |cells| && cells[i])
    {
      PackedBit(cells, i);
      BitsOfNumber(PackBits(cells)[i / 8], 8, i % 8);
    }
  }

  predicate HeadAndBody(pdu: seq<byte>, fc: byte, size: nat) {
    |pdu| == 2 + size && pdu[0] == fc && pdu[1] == size
  }

  lemma BitsServed(m: Mapping, t: Table<bool>, fc: byte, address: word, count: word)
    requires 1 <= count <= 2000 && InTable(t, address, count)
    ensures (count + 7) / 8 < 256
    ensures ServeReadBits(m, t, fc, address, count) == Answer(m, [fc, (count + 7) / 8] + PackBits(t.Slice(address, count)))
  {
    hide PackBits;
  }

  lemma BitsAnswered(m: Mapping, p: seq<byte>, n: nat)
    requires |p| >= 253 && n <= |p| && p[0] in {1, 2} && !Unsuitable(p) && !Absent(m, p)
    ensures var a, t, count := Serve(m, p, n), if p[0] == 1 then m.bits else m.inputBits, Number(p, 3);
            var at := Number(p, 1) - t.start;
            && a.Answer? && a.m == m && HeadAndBody(a.pdu, p[0], (count + 7) / 8)
            && 0 <= at && at + count <= |t.cells| && Packed(a.pdu[2..], t.cells[at..at + count])
  {
    hide PackBits, Packed, ServeReadBits, Serve;
    var t, count := if p[0] == 1 then m.bits else m.inputBits, Number(p, 3);
    BitsDispatched(m, p, n);
    BitsServed(m, t, p[0], Number(p, 1), count);
    var cells := t.Slice(Number(p, 1), count);
    PackedSo(cells);
    AfterTwo(p[0], (count + 7) / 8, PackBits(cells));
  }

  /** Registers as they travel: high byte first. */
  predicate Sent(bytes: seq<byte>, values: seq<word>) {
    |bytes| == 2 * |values| && forall i | 0 <= i < |values| :: Number(bytes, 2 * i) == values[i]
  }

  lemma SentSo(values: seq<word>)
    ensures Sent(RegisterBytes(values), values)
  {
    hide RegisterBytes;
    forall i | 0 <= i < |values|
      ensures Number(RegisterBytes(values), 2 * i) == values[i]
    {
      RegisterBytesAt(values, i);
    }
  }

  lemma RegistersServed(m: Mapping, t: Table<word>, fc: byte, address: word, count: word)
    requires 1 <= count <= 125 && InTable(t, address, count)
    ensures ServeReadRegisters(m, t, fc, address, count)
            == Answer(m, [fc, 2 * count] + RegisterBytes(t.Slice(address, count)))
  {
    hide RegisterBytes;
  }

  lemma RegistersAnswered(m: Mapping, p: seq<byte>, n: nat)
    requires |p| >= 253 && n <= |p| && p[0] in {3, 4} && !Unsuitable(p) && !Absent(m, p)
    ensures var a, t, count := Serve(m, p, n), if p[0] == 3 then m.registers else m.inputRegisters, Number(p, 3);
            var at := Number(p, 1) - t.start;
            && a.Answer? && a.m == m && HeadAndBody(a.pdu, p[0], 2 * count)
            && 0 <= at && at + count <= |t.cells| && Sent(a.pdu[2..], t.cells[at..at + count])
  {
    hide RegisterBytes, Sent, ServeReadRegisters, Serve;
    var t, count := if p[0] == 3 then m.registers else m.inputRegisters, Number(p, 3);
    RegistersDispatched(m, p, n);
    RegistersServed(m, t, p[0], Number(p, 1), count);
    var values := t.Slice(Number(p, 1), count);
    SentSo(values);
    AfterTwo(p[0], 2 * count, RegisterBytes(values));
  }

  lemma SingleWriteAnswered(m: Mapping, p: seq<byte>, n: nat)
    requires |p| >= 253 && n <= |p| && p[0] in {5, 6} && !Unsuitable(p) && !Absent(m, p)
    ensures var a, address := Serve(m, p, n), Number(p, 1);
            && a.Answer? && a.pdu == p[..n]
            && if p[0] == 5 then
                 a.m == m.(bits := a.m.bits) && Changed(m.bits, a.m.bits, address, [p[3] == 255])
               else
                 a.m == m.(registers := a.m.registers) && Changed(m.registers, a.m.registers, address, [Number(p, 3)])
  {
  }

  lemma UnpackedSo(bytes: seq<byte>, count: nat)
    requires ByteCount(count) <= |bytes|
    ensures forall i | 0 <= i < count :: UnpackBits(bytes, count)[i] == BitOf(bytes[i / 8], i % 8)
  {
    hide ToBits, BitOf;
    forall i | 0 <= i < count
      ensures UnpackBits(bytes, count)[i] == BitOf(bytes[i / 8], i % 8)
    {
      BitsOfNumber(bytes[i / 8], 8, i % 8);
    }
  }

  lemma ManyCoilsAnswered(m: Mapping, p: seq<byte>, n: nat)
    requires |p| >= 253 && n <= |p| && p[0] == 15 && !Unsuitable(p) && !Absent(m, p)
    ensures var a, count := Serve(m, p, n), Number(p, 3);
            var values := seq(count, i requires 0 <= i < count => BitOf(p[6 + i / 8], i % 8));
            a.Answer? && a.pdu == p[..5] && a.m == m.(bits := a.m.bits) && Changed(m.bits, a.m.bits, Number(p, 1), values)
  {
    hide UnpackBits, Changed, Serve, BitOf;
    var count := Number(p, 3);
    var values := seq(count, i requires 0 <= i < count => BitOf(p[6 + i / 8], i % 8));
    UnpackedSo(p[6..], count);
    assert UnpackBits(p[6..], count) == values;
    PutChanges(m.bits, Number(p, 1), values);
    ManyCoilsServed(m, p, n);
  }

  lemma ManyCoilsServed(m: Mapping, p: seq<byte>, n: nat)
    requires |p| >= 253 && n <= |p| && p[0] == 15 && !Unsuitable(p) && !Absent(m, p)
    ensures ByteCount(Number(p, 3)) <= 246
    ensures var cells := UnpackBits(p[6..], Number(p, 3));
            Serve(m, p, n) == Answer(m.(bits := m.bits.Put(Number(p, 1), cells)), p[..5])
  {
    hide UnpackBits;
  }

  lemma ManyRegistersAnswered(m: Mapping, p: seq<byte>, n: nat)
    requires |p| >= 253 && n <= |p| && p[0] == 16 && !Unsuitable(p) && !Absent(m, p)
    ensures var a, count := Serve(m, p, n), Number(p, 3);
            var values := seq(count, i requires 0 <= i < count => Number(p, 6 + 2 * i));
            && a.Answer? && a.pdu == p[..5] && a.m == m.(registers := a.m.registers)
            && Changed(m.registers, a.m.registers, Number(p, 1), values)
  {
    var count := Number(p, 3);
    var values := seq(count, i requires 0 <= i < count => Number(p, 6 + 2 * i));
    assert BytesRegisters(p[6..], count) == values;
    PutChanges(m.registers, Number(p, 1), values);
  }

  lemma MaskAnswered(m: Mapping, p: seq<byte>, n: nat)
    requires |p| >= 253 && n <= |p| && p[0] == 22 && !Absent(m, p)
    ensures var a, at := Serve(m, p, n), Number(p, 1) - m.registers.start;
            && a.Answer? && a.pdu == p[..n] && a.m == m.(registers := a.m.registers)
            && 0 <= at < |m.registers.cells| == |a.m.registers.cells|
            && Changed(m.registers, a.m.registers, Number(p, 1), [a.m.registers.cells[at]])
            && forall k | 0 <= k < 16 ::
                 BitOf(a.m.registers.cells[at], k)
                 == if BitOf(Number(p, 3), k) then BitOf(m.registers.cells[at], k) else BitOf(Number(p, 5), k)
  {
    hide BitOf, Mask, Serve, Changed;
    var at := Number(p, 1) - m.registers.start;
    var data, a, o := m.registers.cells[at], Number(p, 3), Number(p, 5);
    MaskServed(m, p, n);
    PutChanges(m.registers, Number(p, 1), [Mask(data, a, o)]);
    MaskIsBitwise(data, a, o);
    assert m.registers.Put(Number(p, 1), [Mask(data, a, o)]).cells[at] == Mask(data, a, o);
  }

  lemma MaskServed(m: Mapping, p: seq<byte>, n: nat)
    requires |p| >= 253 && n <= |p| && p[0] == 22 && !Absent(m, p)
    ensures var data := m.registers.cells[Number(p, 1) - m.registers.start];
            var masked := Mask(data, Number(p, 3), Number(p, 5));
            Serve(m, p, n) == Answer(m.(registers := m.registers.Put(Number(p, 1), [masked])), p[..n])
  {
    hide Mask;
  }

  lemma MaskIsBitwise(data: word, andMask: word, orMask: word)
    ensures forall k | 0 <= k < 16 ::
              BitOf(Mask(data, andMask, orMask), k) == if BitOf(andMask, k) then BitOf(data, k) else BitOf(orMask, k)
  {
    hide ToBits, FromBits, BitOf;
    var bits := MaskBits(ToBits(data, 16), ToBits(andMask, 16), ToBits(orMask, 16));
    ToFromBits(bits);
    forall k | 0 <= k < 16
      ensures BitOf(Mask(data, andMask, orMask), k) == if BitOf(andMask, k) then BitOf(data, k) else BitOf(orMask, k)
    {
      BitsOfNumber(data, 16, k);
      BitsOfNumber(andMask, 16, k);
      BitsOfNumber(orMask, 16, k);
      BitsOfNumber(Mask(data, andMask, orMask), 16, k);
    }
  }

  lemma WriteAndReadServed(m: Mapping, address: word, count: word, writeAddress: word, written: word, bytes: seq<byte>)
    requires |bytes| >= MAX_PDU - 10 && 1 <= count <= 125 && 1 <= written <= 121
    requires InTable(m.registers, address, count) && InTable(m.registers, writeAddress, written)
    ensures var after := m.registers.Put(writeAddress, BytesRegisters(bytes, written));
            ServeWriteAndRead(m, 23, address, count, writeAddress, written, 2 * written, bytes)
            == Answer(m.(registers := after), [23, 2 * count] + RegisterBytes(after.Slice(address, count)))
  {
    hide RegisterBytes, BytesRegisters;
  }

  /** Function 23 writes before it reads. */
  lemma WriteAndReadAnswered(m: Mapping, p: seq<byte>, n: nat)
    requires |p| >= 253 && n <= |p| && p[0] == 23 && !Unsuitable(p) && !Absent(m, p) && Number(p, 5) >= m.registers.start
    ensures var a, count, written := Serve(m, p, n), Number(p, 3), Number(p, 7);
            var values := seq(written, i requires 0 <= i < written => Number(p, 10 + 2 * i));
            var at := Number(p, 1) - m.registers.start;
            && a.Answer? && a.m == m.(registers := a.m.registers)
            && Changed(m.registers, a.m.registers, Number(p, 5), values)
            && HeadAndBody(a.pdu, 23, 2 * count)
            && 0 <= at && at + count <= |a.m.registers.cells| && Sent(a.pdu[2..], a.m.registers.cells[at..at + count])
  {
    hide RegisterBytes, BytesRegisters, Sent, ServeWriteAndRead, Changed, Serve;
    var count, written := Number(p, 3), Number(p, 7);
    WrittenValues(p, written);
    PutChanges(m.registers, Number(p, 5), BytesRegisters(p[10..], written));
    WriteAndReadDispatched(m, p, n);
    WriteAndReadServed(m, Number(p, 1), count, Number(p, 5), written, p[10..]);
    var read := m.registers.Put(Number(p, 5), BytesRegisters(p[10..], written)).Slice(Number(p, 1), count);
    SentSo(read);
    AfterTwo(23, 2 * count, RegisterBytes(read));
  }

  lemma WrittenValues(p: seq<byte>, written: nat)
    requires |p| >= 253 && written <= 121
    ensures BytesRegisters(p[10..], written) == seq(written, i requires 0 <= i < written => Number(p, 10 + 2 * i))
  {
  }

  lemma WriteAndReadDispatched(m: Mapping, p: seq<byte>, n: nat)
    requires |p| >= 253 && n <= |p| && p[0] == 23
    ensures Serve(m, p, n)
            == ServeWriteAndRead(m, 23, Number(p, 1), Number(p, 3), Number(p, 5), Number(p, 7), p[9], p[10..])
  {
    hide ServeWriteAndRead;
  }

  /** Function 17: the identifier 180, the run indicator, and "LMB3.1.4". */
  lemma IdentityAnswered(m: Mapping, p: seq<byte>, n: nat)
    requires |p| >= 253 && n <= |p| && p[0] == 17
    ensures Serve(m, p, n) == Answer(m, [17, 10, 180, 255, 76, 77, 66, 51, 46, 49, 46, 52])
  {
    assert |IDENTITY| == 8;
  }

  // ----- what the client sends -----

  /** Function code, address and count or value of a request, and how long it is. */
  predicate Begins(q: seq<byte>, fc: byte, addr: int, third: int, size: nat) {
    |q| == size >= 5 && q[0] == fc && Number(q, 1) == addr % 65536 && Number(q, 3) == third % 65536
  }

  lemma BasisBegins(fc: byte, addr: int, third: int, t: seq<byte>)
    ensures Begins(Basis(fc, addr, third) + t, fc, addr, third, 5 + |t|)
    ensures (Basis(fc, addr, third) + t)[5..] == t
  {
    WordsOf(addr);
    WordsOf(third);
  }

  lemma WordsOf(n: int)
    ensures (Hi(n) as int) * 256 + Lo(n) == n % 65536
  {
  }

  lemma TailAt(q: seq<byte>, head: seq<byte>, body: seq<byte>)
    requires |q| >= 5 && q[5..] == head + body
    ensures forall k | 0 <= k < |head| :: q[5 + k] == head[k]
    ensures q[5 + |head|..] == body
  {
    assert forall k | 0 <= k < |head| :: q[5 + k] == q[5..][k] == head[k];
    assert q[5 + |head|..] == q[5..][|head|..];
  }

  lemma CoilsRequest(call: Call, q: seq<byte>)
    requires call.WriteBits? && !TooMuch(call) && |q| >= 5 && q[5..] == Payload(call)
    ensures var size := (|call.src| + 7) / 8;
            && |q| == 6 + size && q[5] == size
            && Packed(q[6..], seq(|call.src|, i requires 0 <= i < |call.src| => call.src[i] != 0))
  {
    hide PackBits, Packed;
    TailAt(q, [Lo(ByteCount(|call.src|))], PackBits(Normal(call.src)));
    PackedSo(Normal(call.src));
    assert Normal(call.src) == seq(|call.src|, i requires 0 <= i < |call.src| => call.src[i] != 0);
    ByteCountFits(|call.src|);
  }

  lemma RegistersRequest(call: Call, q: seq<byte>)
    requires call.WriteRegisters? && !TooMuch(call) && |q| >= 5 && q[5..] == Payload(call)
    ensures |q| == 6 + 2 * |call.values| && q[5] == 2 * |call.values| && Sent(q[6..], call.values)
  {
    hide RegisterBytes, Sent;
    TailAt(q, [Lo(2 * |call.values|)], RegisterBytes(call.values));
    SentSo(call.values);
  }

  lemma WriteAndReadRequest(call: Call, q: seq<byte>)
    requires call.WriteAndRead? && !TooMuch(call) && |q| >= 5 && q[5..] == Payload(call)
    ensures |q| == 10 + 2 * |call.values| && Number(q, 5) == call.writeAddr % 65536
    ensures Number(q, 7) == |call.values| && q[9] == 2 * |call.values| && Sent(q[10..], call.values)
  {
    hide RegisterBytes, Sent;
    var w, n := call.writeAddr, |call.values|;
    TailAt(q, [Hi(w), Lo(w), Hi(n), Lo(n), Lo(2 * n)], RegisterBytes(call.values));
    SentSo(call.values);
    WordsOf(w);
    WordsOf(n);
  }

  lemma MaskRequest(call: Call, q: seq<byte>)
    requires call.MaskWrite? && |q| >= 5 && q[5..] == Payload(call)
    ensures |q| == 7 && Number(q, 5) == call.orMask
  {
    TailAt(q, [Hi(call.orMask), Lo(call.orMask)], []);
    WordsOf(call.orMask);
  }

  /** The bytes of every request of the client. */
  lemma RequestBytes(call: Call)
    requires !TooMuch(call)
    ensures var q := RequestPdu(call);
            match call
            case ReadBits(addr, nb) => Begins(q, 1, addr, nb, 5)
            case ReadInputBits(addr, nb) => Begins(q, 2, addr, nb, 5)
            case ReadRegisters(addr, nb) => Begins(q, 3, addr, nb, 5)
            case ReadInputRegisters(addr, nb) => Begins(q, 4, addr, nb, 5)
            case WriteBit(addr, status) => Begins(q, 5, addr, if status != 0 then 65280 else 0, 5)
            case WriteRegister(addr, value) => Begins(q, 6, addr, value, 5)
            case WriteBits(addr, src) =>
              var size := (|src| + 7) / 8;
              && Begins(q, 15, addr, |src|, 6 + size) && q[5] == size
              && Packed(q[6..], seq(|src|, i requires 0 <= i < |src| => src[i] != 0))
            case WriteRegisters(addr, values) =>
              Begins(q, 16, addr, |values|, 6 + 2 * |values|) && q[5] == 2 * |values| && Sent(q[6..], values)
            case MaskWrite(addr, andMask, orMask) => Begins(q, 22, addr, andMask, 7) && Number(q, 5) == orMask
            case WriteAndRead(writeAddr, values, addr, nb) =>
              && Begins(q, 23, addr, nb, 10 + 2 * |values|) && Number(q, 5) == writeAddr % 65536
              && Number(q, 7) == |values| && q[9] == 2 * |values| && Sent(q[10..], values)
  {
    var q := RequestPdu(call);
    BasisBegins(Code(call), call.addr, Field(call), Payload(call));
    assert Begins(q, Code(call), call.addr, Field(call), 5 + |Payload(call)|) && q[5..] == Payload(call);
    hide RequestPdu, Begins, PackBits, RegisterBytes, Packed, Sent, Normal, Number;
    match call
    case WriteBits(_, _) => CoilsRequest(call, q);
    case WriteRegisters(_, _) => RegistersRequest(call, q);
    case MaskWrite(_, _, _) => MaskRequest(call, q);
    case WriteAndRead(_, _, _, _) => WriteAndReadRequest(call, q);
    case _ =>
  }

  // ----- what it takes for an answer -----

  /** The answers that fit a request: length, function code and count. What a write echoes beyond its count is not
      looked at. */
  predicate Fitting(q: seq<byte>, r: seq<byte>)
    requires |q| >= 5 && |r| >= 2
  {
    var fc, count := q[0], Number(q, 3);
    && r[0] == fc < 128
    && if fc in {1, 2} then |r| == 2 + (count + 7) / 8 && r[1] == (count + 7) / 8
       else if fc in {3, 4, 23} then |r| == 2 + 2 * count && r[1] / 2 == count
       else if fc in {15, 16} then |r| == 5 && Number(r, 3) == count
       else if fc == 22 then |r| == 7
       else if fc == 7 then |r| == 3
       else fc == 17 || |r| == 5
  }

  /** For responses of any bytes: the client accepts exactly what fits; a refusal is reported with its code exactly if
      it has two bytes, answers this function and its code is below 12. */
  lemma AcceptedExactly(q: seq<byte>, r: seq<byte>)
    requires |q| >= 5 && |r| >= 2
    ensures Confirm(q, r).Count? <==> Fitting(q, r)
    ensures forall code: byte ::
              Confirm(q, r) == Rejected(Exception(code))
              <==> r == [(q[0] as int + 128) % 256, code] && q[0] < 128 && code < 12
  {
    hide ByteCount;
    CountOfBytes(Number(q, 3));
    assert |r| == 2 ==> r == [r[0], r[1]];
  }

  lemma CountOfBytes(n: nat)
    ensures ByteCount(n) == (n + 7) / 8
  {
  }

  lemma BitsDecoded(call: Call, r: seq<byte>)
    requires !TooMuch(call) && ReadsBits(call) && |r| >= 2 && Fitting(RequestPdu(call), r)
    ensures var o := Finish(call, r);
            && o.Bits? && |o.cells| == call.nb && |r| == 2 + (call.nb + 7) / 8
            && forall i | 0 <= i < call.nb :: o.cells[i] == BitOf(r[2 + i / 8], i % 8)
  {
    hide RequestPdu, Finish, UnpackBits, BitOf, Fitting, Confirm;
    AcceptedExactly(RequestPdu(call), r);
    FinishConfirmed(call, r);
    CountOfBytes(call.nb);
    UnpackedSo(r[2..], call.nb);
  }

  lemma RegistersDecoded(call: Call, r: seq<byte>)
    requires !TooMuch(call) && ReadsRegisters(call) && |r| >= 2 && Fitting(RequestPdu(call), r)
    ensures |r| == 2 + 2 * call.nb && Finish(call, r) == Registers(BytesRegisters(r[2..], call.nb))
  {
    hide RequestPdu, Finish, Fitting, Confirm, BytesRegisters;
    AcceptedExactly(RequestPdu(call), r);
    FinishConfirmed(call, r);
  }

  lemma RegistersSent(bytes: seq<byte>, nb: nat)
    requires |bytes| == 2 * nb
    ensures Sent(bytes, BytesRegisters(bytes, nb))
  {
  }

  lemma WritesDecoded(call: Call, r: seq<byte>)
    requires !TooMuch(call) && IsWrite(call) && |r| >= 2 && Fitting(RequestPdu(call), r)
    ensures Finish(call, r)
            == Written(if call.WriteBits? then |call.src| else if call.WriteRegisters? then |call.values| else 1)
  {
    hide RequestPdu, Finish, Code, Field, Reach, Confirm, Fitting, Word, Number, UnpackBits, BytesRegisters;
    var q := RequestPdu(call);
    RequestHead(call, q);
    WriteFields(call);
    FinishConfirmed(call, r);
    CountAccepted(q, r);
    SameNumber(q);
  }

  lemma SameNumber(q: seq<byte>)
    requires |q| >= 5
    ensures Number(q, 3) == Word(q[3], q[4])
  {
  }

  lemma WriteFields(call: Call)
    requires !TooMuch(call) && IsWrite(call)
    ensures Code(call) in {5, 6, 15, 16, 22} && (Code(call) in {15, 16} <==> call.WriteBits? || call.WriteRegisters?)
    ensures call.WriteBits? ==> Reach(Field(call)) == |call.src|
    ensures call.WriteRegisters? ==> Reach(Field(call)) == |call.values|
  {
  }

  lemma CountAccepted(q: seq<byte>, r: seq<byte>)
    requires |q| >= 5 && |r| >= 2 && Fitting(q, r) && q[0] in {5, 6, 15, 16, 22}
    ensures Confirm(q, r) == Count(if q[0] in {15, 16} then Number(q, 3) else 1)
  {
  }

  /** What an accepted answer is decoded to. */
  lemma DecodedExactly(call: Call, r: seq<byte>)
    requires !TooMuch(call) && |r| >= 2 && Fitting(RequestPdu(call), r)
    ensures var o := Finish(call, r);
            match call
            case ReadBits(_, nb) => o.Bits? && |o.cells| == nb && |r| == 2 + (nb + 7) / 8
              && forall i | 0 <= i < nb :: o.cells[i] == BitOf(r[2 + i / 8], i % 8)
            case ReadInputBits(_, nb) => o.Bits? && |o.cells| == nb && |r| == 2 + (nb + 7) / 8
              && forall i | 0 <= i < nb :: o.cells[i] == BitOf(r[2 + i / 8], i % 8)
            case ReadRegisters(_, nb) => o.Registers? && |o.values| == nb && Sent(r[2..], o.values)
            case ReadInputRegisters(_, nb) => o.Registers? && |o.values| == nb && Sent(r[2..], o.values)
            case WriteAndRead(_, _, _, nb) => o.Registers? && |o.values| == nb && Sent(r[2..], o.values)
            case WriteBits(_, src) => o == Written(|src|)
            case WriteRegisters(_, values) => o == Written(|values|)
            case _ => o == Written(1)
  {
    hide RequestPdu, Finish, Fitting, Sent, BitOf;
    if ReadsBits(call) {
      BitsDecoded(call, r);
    } else if ReadsRegisters(call) {
      RegistersDecoded(call, r);
      RegistersSent(r[2..], call.nb);
    } else {
      WritesDecoded(call, r);
    }
  }

  // ----- where a message ends -----

  /** The length of a request PDU, told from its first bytes; functions without data have one byte. */
  predicate RequestLength(p: seq<byte>)
    requires p != []
  {
    if p[0] <= 6 then |p| == 5
    else if p[0] in {15, 16} then |p| >= 6 && |p| - 6 == p[5]
    else if p[0] == 22 then |p| == 7
    else if p[0] == 23 then |p| >= 10 && |p| - 10 == p[9]
    else |p| == 1
  }

  /** The length of a response PDU; exception responses have two bytes. */
  predicate AnswerLength(p: seq<byte>)
    requires p != []
  {
    if p[0] in {0, 1, 2, 3, 4, 17, 23} then |p| >= 2 && |p| - 2 == p[1]
    else if p[0] in {5, 6, 15, 16} then |p| == 5
    else if p[0] == 22 then |p| == 7
    else |p| == 2
  }

  lemma FramedExactly(p: seq<byte>)
    requires 1 <= |p| <= 253
    ensures IsPduFrame(Indication, p) <==> RequestLength(p)
    ensures IsPduFrame(ConfirmationMsg, p) <==> AnswerLength(p)
  {
  }

  /** On either transport a message is given up as too long exactly when a byte count promises more than 253 bytes
      of PDU. */
  lemma OverlongExactly(be: Backend, s: seq<byte>)
    requires |s| >= be.HeaderLength() + 1
    ensures var p := s[be.HeaderLength()..];
            && (Frame(be, Indication, s) == TooLong <==>
                  (p[0] in {15, 16} && |p| >= 6 && p[5] > 247) || (p[0] == 23 && |p| >= 10 && p[9] > 243))
            && (Frame(be, ConfirmationMsg, s) == TooLong <==> p[0] in {0, 1, 2, 3, 4, 17, 23} && |p| >= 2 && p[1] > 251)
  {
  }

  // ----- the transports -----

  /** The MBAP header of a TCP message: identifier, protocol 0, the length with the unit, the unit. */
  lemma TcpBytes(tid: word, unit: byte, pdu: seq<byte>)
    requires |pdu| <= 253
    ensures var a := Adu(Tcp, tid, unit, pdu);
            && |a| == 7 + |pdu| <= 260 && Number(a, 0) == tid && Number(a, 2) == 0 && Number(a, 4) == |pdu| + 1
            && a[6] == unit && a[7..] == pdu
  {
    WordsOf(tid);
    WordsOf(|pdu| + 1);
  }

  /** A message on the serial line: unit, PDU and two bytes of checksum. */
  lemma RtuBytes(tid: word, unit: byte, pdu: seq<byte>)
    ensures var a := Adu(Rtu, tid, unit, pdu);
            |a| == |pdu| + 3 && a[0] == unit && a[1..|pdu| + 1] == pdu && Sealed(a)
  {
    SealedBySending([unit] + pdu);
    hide Sealed, CrcHi, CrcLo;
  }

  /** A sent answer: on TCP the identifier and the unit of the request, on the serial line its address and a checksum. Of the
      protocol identifier, an echo repeats what the request has, and any other answer has 0. */
  predicate AnswerIs(be: Backend, buf: seq<byte>, pdu: seq<byte>, msg: seq<byte>)
    requires |buf| >= be.MaxAdu() && pdu != []
  {
    var h := be.HeaderLength();
    && |msg| == h + |pdu| + be.ChecksumLength() && msg[h..h + |pdu|] == pdu && msg[h - 1] == buf[h - 1]
    && (be.Rtu? ==> Sealed(msg))
    && (be.Tcp? ==>
          && msg[0] == buf[0] && msg[1] == buf[1] && (|pdu| <= 253 ==> Number(msg, 4) == |pdu| + 1)
          && if buf[7] in {5, 6, 22} && pdu[0] == buf[7] then msg[2] == buf[2] && msg[3] == buf[3]
             else msg[2] == msg[3] == 0)
  }

  lemma RtuAnswer(buf: seq<byte>, pdu: seq<byte>, echo: bool)
    requires |buf| >= 256 && pdu != []
    ensures var body := ReplyHeader(Rtu, buf, echo, |pdu|) + pdu; AnswerIs(Rtu, buf, pdu, body + Trailer(Rtu, body))
  {
    SealedBySending([buf[0]] + pdu);
    hide Sealed, CrcHi, CrcLo;
  }

  lemma TcpAnswer(buf: seq<byte>, pdu: seq<byte>)
    requires |buf| >= 260 && pdu != []
    ensures var echo := Echoed(buf[7]) && pdu[..1] == [buf[7]];
            var body := ReplyHeader(Tcp, buf, echo, |pdu|) + pdu;
            AnswerIs(Tcp, buf, pdu, body + Trailer(Tcp, body))
  {
    WordsOf(|pdu| + 1);
  }

  /** What the server does with a request of any bytes; to address 0 there is no answer. */
  lemma AnswerBytes(be: Backend, m: Mapping, buf: seq<byte>, length: nat)
    requires |buf| >= be.MaxAdu() && be.HeaderLength() + be.ChecksumLength() < length <= be.MaxAdu()
    ensures var h, reply := be.HeaderLength(), ReplyTo(be, m, buf, length);
            match Serve(m, buf[h..], length - h - be.ChecksumLength())
            case Silent => reply == Unimplemented
            case OutOfBounds => reply == Outside
            case Answer(m', pdu) =>
              if buf[if be.Rtu? then 0 else 6] == 0 then reply == Keep(m')
              else reply.Send? && reply.m == m' && (pdu != [] ==> AnswerIs(be, buf, pdu, reply.msg))
  {
    hide Serve, AnswerIs, ReplyHeader, Trailer, Echoed;
    var h := be.HeaderLength();
    match Serve(m, buf[h..], length - h - be.ChecksumLength())
    case Silent =>
    case OutOfBounds =>
    case Answer(m', pdu) =>
      if pdu != [] {
        if be.Rtu? {
          RtuAnswer(buf, pdu, Echoed(buf[h]) && pdu[..1] == [buf[h]]);
        } else {
          TcpAnswer(buf, pdu);
        }
      }
  }
}
