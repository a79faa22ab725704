/** How coils and discrete inputs travel: eight to a byte, the first one in the lowest bit. */
module BitPacking {
  import opened Bytes

  /** `(nb / 8) + ((nb % 8) ? 1 : 0)` */
  function ByteCount(nb: nat): nat {
    nb / 8 + (if nb % 8 != 0 then 1 else 0)
  }

  function PackBits(cells: seq<bool>): (bytes: seq<byte>)
    ensures |bytes| == ByteCount(|cells|)
    decreases |cells|
  {
    if |cells| == 0 then []
    else if |cells| <= 8 then [PackByte(cells)]
    else [PackByte(cells[..8])] + PackBits(cells[8..])
  }

  /** Up to eight cells in one byte; the bits above them are zero. */
  function PackByte(cells: seq<bool>): byte
    requires |cells| <= 8
  {
    PackByteBits(cells);
    FromBits(Pad(cells))
  }

  function Pad(cells: seq<bool>): (s: seq<bool>)
    requires |cells| <= 8
    ensures |s| == 8
  {
    cells + seq(8 - |cells|, _ => false)
  }

  lemma PackByteBits(cells: seq<bool>)
    requires |cells| <= 8
    ensures FromBits(Pad(cells)) < 256 && ByteBits(FromBits(Pad(cells))) == Pad(cells)
  {
    ToFromBits(Pad(cells));
    FitsByte(FromBits(Pad(cells)));
  }

  /** `nb` cells read out of packed bytes. */
  function UnpackBits(bytes: seq<byte>, nb: nat): (cells: seq<bool>)
    requires ByteCount(nb) <= |bytes|
    ensures |cells| == nb
  {
    seq(nb, k requires 0 <= k < nb => ByteBits(bytes[k / 8])[k % 8])
  }

  /** Bit `i` of the packed bytes is cell `i`; the padding bits are zero. */
  lemma {:induction false} PackedBit(cells: seq<bool>, i: nat)
    requires i < 8 * ByteCount(|cells|)
    ensures ByteBits(PackBits(cells)[i / 8])[i % 8] == (i < |cells| && cells[i])
    decreases |cells|
  {
    hide ByteBits, PackByte;
    if |cells| <= 8 {
      PackedByteBit(cells, i);
    } else if i < 8 {
      PackedByteBit(cells[..8], i);
    } else {
      PackedBit(cells[8..], i - 8);
      assert (i - 8) / 8 == i / 8 - 1 && (i - 8) % 8 == i % 8;
    }
  }

  lemma PackedByteBit(cells: seq<bool>, i: nat)
    requires |cells| <= 8 && i < 8
    ensures i / 8 == 0 && i % 8 == i && ByteBits(PackByte(cells))[i] == (i < |cells| && cells[i])
  {
    PackByteBits(cells);
  }

  /** What is packed by one side is what the other side unpacks, whatever follows the packed bytes. */
  lemma UnpackPacked(cells: seq<bool>, rest: seq<byte>)
    ensures UnpackBits(PackBits(cells) + rest, |cells|) == cells
  {
    forall i | 0 <= i < |cells|
      ensures UnpackBits(PackBits(cells) + rest, |cells|)[i] == cells[i]
    {
      PackedBit(cells, i);
      assert (PackBits(cells) + rest)[i / 8] == PackBits(cells)[i / 8];
    }
  }

  /** `1 << n` */
  function TwoTo(n: nat): nat {
    if n == 0 then 1 else 2 * TwoTo(n - 1)
  }

  lemma {:induction false} SetBit(s: seq<bool>, n: nat)
    requires n < |s| && !s[n]
    ensures FromBits(s[n := true]) == FromBits(s) + TwoTo(n)
  {
    if n > 0 {
      SetBit(s[1..], n - 1);
      assert s[n := true][1..] == s[1..][n - 1 := true];
    } else {
      assert s[0 := true][1..] == s[1..];
    }
  }

  /** One more bit of a byte that is filled from below. */
  lemma PackOneMore(cells: seq<bool>, cell: bool)
    requires |cells| < 8
    ensures PackByte(cells + [cell]) == PackByte(cells) + (if cell then TwoTo(|cells|) else 0)
  {
    hide FromBits;
    PadMore(cells, cell);
    if cell {
      SetBit(Pad(cells), |cells|);
    }
  }

  lemma PadMore(cells: seq<bool>, cell: bool)
    requires |cells| < 8
    ensures !Pad(cells)[|cells|]
    ensures Pad(cells + [cell]) == if cell then Pad(cells)[|cells| := true] else Pad(cells)
  {
  }

  lemma {:induction false} PackAppend(cells: seq<bool>, tail: seq<bool>)
    requires |cells| % 8 == 0
    ensures PackBits(cells + tail) == PackBits(cells) + PackBits(tail)
    decreases |cells|
  {
    if |cells| == 0 {
      assert cells + tail == tail;
    } else if |cells| == 8 && tail == [] {
      assert cells + tail == cells;
    } else {
      var all := cells + tail;
      assert all[..8] == cells[..8] && all[8..] == cells[8..] + tail;
      PackAppend(cells[8..], tail);
      assert cells[..8] == cells || |cells| > 8;
    }
  }

  lemma ByteCountBounds(nb: nat)
    ensures nb <= 8 * ByteCount(nb) < nb + 8
  {
  }

  /** The cells `address .. address + nb` packed into `rsp` from `offset` on. */
  method ResponseIoStatus(tab: seq<bool>, address: nat, nb: nat, rsp: array<byte>, offset: nat) returns (end: nat)
    requires address + nb <= |tab|
    requires offset + ByteCount(nb) <= rsp.Length
    modifies rsp
    ensures end == offset + ByteCount(nb)
    ensures rsp[..] == old(rsp[..offset]) + PackBits(tab[address..address + nb]) + old(rsp[end..])
  {
    hide PackByte, PackBits, TwoTo, ByteCount;
    var shift := 0;
    var oneByte: nat := 0;
    end := offset;
    ghost var cells, before := tab[address..address + nb], rsp[..];
    EmptyByte();
    PackNothing();
    ByteCountBounds(nb);
    WholeSplit(before, offset);
    for i := address to address + nb
      invariant 0 <= shift < 8 && offset <= end && i - address == 8 * (end - offset) + shift
      invariant oneByte == PackByte(cells[8 * (end - offset)..i - address])
      invariant end <= rsp.Length
      invariant rsp[..] == before[..offset] + PackBits(cells[..8 * (end - offset)]) + before[end..]
    {
      ghost var j, start := i - address, 8 * (end - offset);
      PackNextCell(cells, start, j);
      if tab[i] {
        oneByte := oneByte + TwoTo(shift);
      }
      if shift == 7 {
        assert cells[j + 1..j + 1] == [];
        end := PutPacked(rsp, end, oneByte, cells, start, j + 1, before, offset);
        oneByte := 0;
        shift := 0;
      } else {
        shift := shift + 1;
      }
    }
    if shift != 0 {
      end := PutPacked(rsp, end, oneByte, cells, nb - shift, nb, before, offset);
    }
    assert cells[..nb] == cells;
  }

  lemma WholeSplit(s: seq<byte>, at: nat)
    requires at <= |s|
    ensures s == s[..at] + [] + s[at..]
  {
  }

  /** A filled byte goes behind those that are packed. */
  method PutPacked(rsp: array<byte>, end: nat, v: byte, ghost cells: seq<bool>, ghost start: nat, ghost stop: nat,
                   ghost before: seq<byte>, ghost offset: nat) returns (next: nat)
    requires start % 8 == 0 && start < stop <= start + 8 && stop <= |cells| && v == PackByte(cells[start..stop])
    requires offset <= end < rsp.Length == |before|
    requires rsp[..] == before[..offset] + PackBits(cells[..start]) + before[end..]
    modifies rsp
    ensures next == end + 1 && rsp[..] == before[..offset] + PackBits(cells[..stop]) + before[next..]
  {
    hide PackByte, PackBits;
    PackNextByte(cells, start, stop);
    ghost var row := rsp[..];
    rsp[end] := v;
    next := end + 1;
    ReplacedByte(row, before[..offset] + PackBits(cells[..start]), before[end..], v);
    assert rsp[..] == row[end := v];
    assert before[end..][1..] == before[next..];
    assert before[..offset] + PackBits(cells[..start]) + [v] == before[..offset] + (PackBits(cells[..start]) + [v]);
  }

  lemma ReplacedByte(row: seq<byte>, head: seq<byte>, tail: seq<byte>, v: byte)
    requires row == head + tail && tail != []
    ensures row[|head| := v] == head + [v] + tail[1..]
  {
  }

  lemma PackNextCell(cells: seq<bool>, start: nat, j: nat)
    requires start <= j < start + 8 && j < |cells|
    ensures PackByte(cells[start..j + 1]) == PackByte(cells[start..j]) + (if cells[j] then TwoTo(j - start) else 0)
  {
    hide PackByte;
    PackOneMore(cells[start..j], cells[j]);
    assert cells[start..j] + [cells[j]] == cells[start..j + 1];
  }

  lemma PackNextByte(cells: seq<bool>, start: nat, stop: nat)
    requires start % 8 == 0 && start < stop <= start + 8 && stop <= |cells|
    ensures PackBits(cells[..stop]) == PackBits(cells[..start]) + [PackByte(cells[start..stop])]
  {
    hide PackByte, PackBits;
    PackOneByte(cells[start..stop]);
    PackAppend(cells[..start], cells[start..stop]);
    assert cells[..start] + cells[start..stop] == cells[..stop];
  }

  lemma PackNothing()
    ensures PackBits([]) == []
  {
  }

  lemma PackOneByte(cells: seq<bool>)
    requires 0 < |cells| <= 8
    ensures PackBits(cells) == [PackByte(cells)]
  {
  }

  /** Cells `idx .. idx + nb` of `dest` become the bits of `bytes`. */
  method SetBitsFromBytes(dest: array<bool>, idx: nat, nb: nat, bytes: seq<byte>)
    requires idx + nb <= dest.Length
    requires ByteCount(nb) <= |bytes|
    modifies dest
    ensures dest[..] == old(dest[..idx]) + UnpackBits(bytes, nb) + old(dest[idx + nb..])
  {
    hide ByteBits, UnpackBits;
    var shift := 0;
    ghost var before, cells := dest[..], UnpackBits(bytes, nb);
    var i := idx;
    while i < idx + nb
      invariant idx <= i <= idx + nb
      invariant shift == (i - idx) % 8
      invariant dest[..] == before[..idx] + cells[..i - idx] + before[i..]
    {
      UnpackAt(bytes, nb, i - idx);
      NextShift(i - idx);
      PutCell(dest, i, ByteBits(bytes[(i - idx) / 8])[shift], before[..idx], cells, i - idx, before);
      shift := (shift + 1) % 8;
      i := i + 1;
    }
    assert cells[..nb] == cells;
  }

  lemma NextShift(k: nat)
    ensures (k % 8 + 1) % 8 == (k + 1) % 8
  {
  }

  /** One more of the cells that go behind `head`. */
  method PutCell<T>(dest: array<T>, i: nat, v: T, ghost head: seq<T>, ghost cells: seq<T>, ghost k: nat,
                    ghost before: seq<T>)
    requires k < |cells| && v == cells[k] && i == |head| + k < dest.Length == |before|
    requires dest[..] == head + cells[..k] + before[i..]
    modifies dest
    ensures dest[..] == head + cells[..k + 1] + before[i + 1..]
  {
    ghost var row := dest[..];
    dest[i] := v;
    OneMoreCell(head, cells, k, before[i..]);
    assert dest[..] == row[i := v];
    assert before[i..][1..] == before[i + 1..];
  }

  lemma OneMoreCell<T>(head: seq<T>, cells: seq<T>, k: nat, tail: seq<T>)
    requires k < |cells| && tail != []
    ensures (head + cells[..k] + tail)[|head| + k := cells[k]] == head + cells[..k + 1] + tail[1..]
  {
  }

  /** `modbus_set_bits_from_byte`: all eight bits of a byte. */
  method SetBitsFromByte(dest: array<bool>, idx: nat, value: byte)
    requires idx + 8 <= dest.Length
    modifies dest
    ensures dest[..] == old(dest[..idx]) + ByteBits(value) + old(dest[idx + 8..])
  {
    hide ByteBits;
    ghost var before := dest[..];
    for i := 0 to 8
      invariant dest[..] == before[..idx] + ByteBits(value)[..i] + before[idx + i..]
    {
      PutCell(dest, idx + i, ByteBits(value)[i], before[..idx], ByteBits(value), i, before);
    }
    assert ByteBits(value)[..8] == ByteBits(value);
  }

  /** `modbus_get_byte_from_bits`: up to eight cells in one byte. */
  method GetByteFromBits(src: array<bool>, idx: nat, nbBits: nat) returns (value: byte)
    requires idx + (if nbBits > 8 then 8 else nbBits) <= src.Length
    ensures value == PackByte(src[idx..idx + if nbBits > 8 then 8 else nbBits])
  {
    hide PackByte, TwoTo;
    var nb := if nbBits > 8 then 8 else nbBits;
    var sum: nat := 0;
    ghost var cells := src[idx..idx + nb];
    EmptyByte();
    for i := 0 to nb
      invariant sum == PackByte(cells[..i])
    {
      PackOneMore(cells[..i], cells[i]);
      assert cells[..i] + [cells[i]] == cells[..i + 1];
      if src[idx + i] {
        sum := sum + TwoTo(i);
      }
    }
    assert cells[..nb] == cells;
    value := sum;
  }

  /** Eight cells that went into a byte come out of it. */
  lemma ByteRoundTrip(cells: seq<bool>, value: byte)
    ensures |cells| == 8 ==> ByteBits(PackByte(cells)) == cells
    ensures PackByte(ByteBits(value)) == value
  {
    if |cells| == 8 {
      PackByteBits(cells);
      assert Pad(cells) == cells;
    }
    PackByteBits(ByteBits(value));
    assert Pad(ByteBits(value)) == ByteBits(value);
    ByteBitsInjective(PackByte(ByteBits(value)), value);
  }

  lemma UnpackAt(bytes: seq<byte>, nb: nat, k: nat)
    requires ByteCount(nb) <= |bytes| && k < nb
    ensures k / 8 < |bytes| && UnpackBits(bytes, nb)[k] == ByteBits(bytes[k / 8])[k % 8]
  {
  }

  /** A source cell counts as ON when it is not zero. */
  function Normal(src: seq<byte>): (cells: seq<bool>)
    ensures |cells| == |src|
  {
    seq(|src|, k requires 0 <= k < |src| => src[k] != 0)
  }

  /** The packing loop of `modbus_write_bits`: `src` goes to `req` from `at` on. */
  method PackSource(src: seq<byte>, req: array<byte>, at: nat) returns (end: nat)
    requires at + ByteCount(|src|) <= req.Length
    modifies req
    ensures end == at + ByteCount(|src|)
    ensures req[..] == old(req[..at]) + PackBits(Normal(src)) + old(req[end..])
  {
    hide PackByte, PackBits, Normal;
    var nb, pos := |src|, 0;
    end := at;
    ghost var cells := Normal(src);
    ghost var head, tail := req[..at], req[at + ByteCount(nb)..];
    NormalAt(src);
    PackNothing();
    EmptyByte();
    for i := 0 to ByteCount(nb)
      invariant end == at + i
      invariant pos == (if 8 * i <= nb then 8 * i else nb)
      invariant req[..end] == head + PackBits(cells[..pos])
      invariant req[at + ByteCount(nb)..] == tail
    {
      var bit := 0;
      req[end] := 0;
      ghost var start := pos;
      assert cells[start..start] == [];
      while bit < 8 && pos < nb
        invariant start == 8 * i && pos == start + bit && bit <= 8 && pos <= nb
        invariant req[..end] == head + PackBits(cells[..start])
        invariant req[end] == PackByte(cells[start..pos])
        invariant req[at + ByteCount(nb)..] == tail
      {
        PackNextCell(cells, start, pos);
        if src[pos] != 0 {
          req[end] := req[end] + TwoTo(bit);
        }
        pos := pos + 1;
        bit := bit + 1;
      }
      PackNextByte(cells, start, pos);
      end := end + 1;
      assert req[..end] == req[..end - 1] + [req[end - 1]];
    }
    assert cells[..nb] == cells;
    assert req[..] == req[..end] + req[end..];
  }

  lemma NormalAt(src: seq<byte>)
    ensures |Normal(src)| == |src| && forall k | 0 <= k < |src| :: Normal(src)[k] == (src[k] != 0)
  {
  }

  /** The unpacking loop of `read_io_status`: the bytes `offset .. offset + rc` of a response become cells. */
  method UnpackResponse(rsp: seq<byte>, offset: nat, rc: nat, nb: nat, dest: array<bool>)
    requires rc == ByteCount(nb) && offset + rc <= |rsp|
    requires nb <= dest.Length
    modifies dest
    ensures dest[..] == UnpackBits(rsp[offset..offset + rc], nb) + old(dest[nb..])
  {
    hide ByteBits;
    var pos := 0;
    ghost var before, cells := dest[..], UnpackBits(rsp[offset..offset + rc], nb);
    assert forall k | 0 <= k < nb :: cells[k] == ByteBits(rsp[offset + k / 8])[k % 8];
    hide UnpackBits;
    for i := offset to offset + rc
      invariant pos == (if 8 * (i - offset) <= nb then 8 * (i - offset) else nb)
      invariant forall k | 0 <= k < pos :: dest[k] == cells[k]
      invariant forall k | pos <= k < dest.Length :: dest[k] == before[k]
    {
      var temp, bit := rsp[i], 0;
      while bit < 8 && pos < nb
        invariant pos == 8 * (i - offset) + bit && bit <= 8 && pos <= nb
        invariant forall k | 0 <= k < pos :: dest[k] == cells[k]
        invariant forall k | pos <= k < dest.Length :: dest[k] == before[k]
      {
        assert offset + pos / 8 == i && pos % 8 == bit;
        dest[pos] := ByteBits(temp)[bit];
        pos := pos + 1;
        bit := bit + 1;
      }
    }
  }

  lemma EmptyByte()
    ensures PackByte([]) == 0
  {
    PackByteBits([]);
    ToFromBits(Pad([]));
    assert ByteBits(0) == Pad([]);
    ByteBitsInjective(0, FromBits(Pad([])));
  }
}
