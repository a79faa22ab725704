/** The local queue of a UART behind the SPI line. Characters reach it one at a time, inside the header of any
    SPI operation, and as strings that are read on request; readers must see one stream. */
module Uart {
  import opened Bytes

  const MAX_LOCAL_QUEUE_LEN := 256

  /** `remain`: how many characters wait on the other side. */
  datatype Queue = Queue(chars: seq<byte>, remain: int, overflow: nat) {
    predicate Valid() { |chars| <= MAX_LOCAL_QUEUE_LEN }
  }

  /** A character in the header of a reply, with the length of the remote queue (0 stands for 256). */
  datatype Header = Idle | Char(ch: byte, len: byte)

  /** What becomes of the second phase of a READ_STR. */
  datatype Second = Str(data: seq<byte>, remain: byte) | Unusable

  /** The other side of one READ_STR: no reply with a good first checksum, or a header and a second phase. */
  datatype Exchange = NoReply | Reply(header: Header, second: Second)

  predicate Possible(x: Exchange) {
    x.Reply? && x.second.Str? ==> |x.second.data| < 256
  }

  function Min(a: nat, b: nat): nat {
    if a < b then a else b
  }

  /** `queue_uart` */
  function Enqueue(q: Queue, ch: byte, len: byte): (q': Queue)
    requires q.Valid()
    ensures q'.Valid()
  {
    var remain := if len == 0 then 255 else len - 1;
    if |q.chars| < MAX_LOCAL_QUEUE_LEN then Queue(q.chars + [ch], remain, q.overflow)
    else Queue(q.chars, remain, q.overflow + 1)
  }

  /** The length byte counts the remote queue with the character itself, modulo 256; `remain` is what is left then. */
  lemma RemainIsRemote(q: Queue, ch: byte, remote: nat)
    requires q.Valid() && 1 <= remote <= 256
    ensures Enqueue(q, ch, Lo(remote)).remain == remote - 1
  {
  }

  function HeaderTaken(q: Queue, h: Header): (q': Queue)
    requires q.Valid()
    ensures q'.Valid()
  {
    match h
    case Idle => q
    case Char(ch, len) => Enqueue(q, ch, len)
  }

  datatype Read = Read(q: Queue, got: seq<byte>) | Fails(q: Queue)

  /** Joining the queue and a string of the device into at most `cnt` characters. */
  function Join(q: Queue, data: seq<byte>, cnt: nat): (r: Read)
    requires q.Valid() && |data| < 256
    ensures r.Read? && r.q.Valid() && |r.got| <= cnt
  {
    var n := Min(|q.chars|, cnt);
    if 0 < n < |q.chars| then
      var left := q.chars[n..];
      Read(q.(chars := left + data[..Min(|data|, MAX_LOCAL_QUEUE_LEN - |left|)]), q.chars[..n])
    else
      var n2 := Min(|data|, cnt - n);
      var left := if |data| > cnt - n then data[cnt - n..] else if n > 0 then [] else q.chars;
      Read(q.(chars := left), q.chars[..n] + data[..n2])
  }

  /** `read_string` */
  function ReadingString(q: Queue, cnt: nat, x: Exchange): (r: Read)
    requires q.Valid() && Possible(x)
    ensures r.q.Valid() && (r.Read? ==> |r.got| <= cnt)
  {
    match x
    case NoReply => Fails(q)
    case Reply(h, Unusable) => Fails(HeaderTaken(q, h))
    case Reply(h, Str(data, remain)) => Join(HeaderTaken(q, h).(remain := remain), data, cnt)
  }

  /** `read_qstring` */
  function ReadingQueue(q: Queue, cnt: nat): (r: Read)
    requires q.Valid()
    ensures r.Read? && r.q.Valid() && |r.got| == Min(|q.chars|, cnt)
  {
    var n := Min(|q.chars|, cnt);
    Read(q.(chars := q.chars[n..]), q.chars[..n])
  }

  // ----- one stream -----

  function HeaderChars(h: Header): seq<byte> {
    match h
    case Idle => []
    case Char(ch, _) => [ch]
  }

  /** The part of what arrives that finds room: a character when the queue is not full, a string up to where it is. */
  function Kept(q: Queue, cnt: nat, x: Exchange): (s: seq<byte>)
    requires q.Valid() && Possible(x)
  {
    if x.NoReply? then []
    else
      var first := if |q.chars| < MAX_LOCAL_QUEUE_LEN then HeaderChars(x.header) else [];
      if x.second.Unusable? then first
      else first + x.second.data[..Min(|x.second.data|, cnt + MAX_LOCAL_QUEUE_LEN - |q.chars + first|)]
  }

  /** A read for no characters at all, while some are queued and more arrive, would overwrite the queue. */
  predicate Overwrites(q: Queue, cnt: nat, x: Exchange)
    requires q.Valid()
  {
    x.Reply? && x.second.Str? && cnt == 0 && HeaderTaken(q, x.header).chars != [] && x.second.data != []
  }

  function Got(r: Read): seq<byte> {
    if r.Read? then r.got else []
  }

  lemma JoinKept(q: Queue, data: seq<byte>, cnt: nat)
    requires q.Valid() && |data| < 256 && (cnt > 0 || q.chars == [] || data == [])
    ensures var r, k := Join(q, data, cnt), Min(|data|, cnt + MAX_LOCAL_QUEUE_LEN - |q.chars|);
            && r.got + r.q.chars == q.chars + data[..k]
            && (k < |data| ==> |r.q.chars| == MAX_LOCAL_QUEUE_LEN)
  {
    var n := Min(|q.chars|, cnt);
    if 0 < n < |q.chars| {
      Parted(q.chars, n, data[..Min(|data|, MAX_LOCAL_QUEUE_LEN - |q.chars[n..]|)]);
    } else {
      var n2 := Min(|data|, cnt - n);
      Spread(q.chars, data, n2);
      assert data[..|data|] == data;
      assert n2 == |data| ==> data[n2..] == [];
      assert n == |q.chars| ==> q.chars[..n] == q.chars;
    }
  }

  lemma Parted(chars: seq<byte>, n: nat, d: seq<byte>)
    requires n <= |chars|
    ensures chars[..n] + (chars[n..] + d) == chars + d
  {
  }

  lemma Spread(chars: seq<byte>, data: seq<byte>, n: nat)
    requires n <= |data|
    ensures (chars + data[..n]) + data[n..] == chars + data
  {
  }

  lemma JoinLoses(q: Queue, data: seq<byte>)
    requires q.Valid() && |data| < 256 && q.chars != [] && data != []
    ensures var r := Join(q, data, 0);
            r.got + r.q.chars != q.chars + data[..Min(|data|, MAX_LOCAL_QUEUE_LEN - |q.chars|)]
  {
    assert |Join(q, data, 0).got + Join(q, data, 0).q.chars| == |data|;
  }

  /** Nothing is lost, doubled or reordered but what finds no room - exactly when the read is not for zero
      characters of a queue that is not empty. */
  lemma StreamKept(q: Queue, cnt: nat, x: Exchange)
    requires q.Valid() && Possible(x)
    ensures var r := ReadingString(q, cnt, x);
            Got(r) + r.q.chars == q.chars + Kept(q, cnt, x) <==> !Overwrites(q, cnt, x)
  {
    if x.Reply? && x.second.Str? {
      var q1, data := HeaderTaken(q, x.header).(remain := x.second.remain), x.second.data;
      var first := if |q.chars| < MAX_LOCAL_QUEUE_LEN then HeaderChars(x.header) else [];
      assert q1.chars == q.chars + first;
      var k := Min(|data|, cnt + MAX_LOCAL_QUEUE_LEN - |q1.chars|);
      assert q.chars + (first + data[..k]) == q1.chars + data[..k];
      if Overwrites(q, cnt, x) {
        JoinLoses(q1, data);
      } else {
        JoinKept(q1, data, cnt);
      }
      hide Join;
    }
  }

  /** One queued character, another from the device, a read for none: the first is gone. */
  lemma ZeroReadOverwrites(a: byte, b: byte)
    ensures var q, x := Queue([a], 0, 0), Reply(Idle, Str([b], 0));
            ReadingString(q, 0, x) == Read(Queue([b], 0, 0), [])
  {
    assert [b][0..] == [b];
  }

  /** A read that succeeds takes as much as there is and was asked for, and is told what remains on the other side. */
  lemma TakesWhatThereIs(q: Queue, cnt: nat, x: Exchange)
    requires q.Valid() && Possible(x)
    ensures var r := ReadingString(q, cnt, x);
            && (r.Read? <==> x.Reply? && x.second.Str?)
            && (r.Read? ==>
                  && |r.got| == Min(cnt, |HeaderTaken(q, x.header).chars| + |x.second.data|)
                  && r.q.remain == x.second.remain)
  {
  }

  /** A read from the queue alone takes the front of it, and leaves what is known of the other side. */
  lemma TakesFromQueue(q: Queue, cnt: nat)
    requires q.Valid()
    ensures var r := ReadingQueue(q, cnt);
            && r.got + r.q.chars == q.chars && |r.got| == Min(|q.chars|, cnt)
            && r.q.remain == q.remain && r.q.overflow == q.overflow
  {
  }

  /** What is lost is a character that comes to a full queue, which counts it, or the tail of a string that
      fills the queue. */
  lemma OnlyOverflowLost(q: Queue, cnt: nat, x: Exchange)
    requires q.Valid() && Possible(x) && x.Reply? && cnt > 0
    ensures var r := ReadingString(q, cnt, x);
            && (r.q.overflow > q.overflow <==> x.header.Char? && |q.chars| == MAX_LOCAL_QUEUE_LEN)
            && (r.q.overflow == q.overflow && (x.second.Unusable? || |r.q.chars| < MAX_LOCAL_QUEUE_LEN) ==>
                  Kept(q, cnt, x) == HeaderChars(x.header) + if x.second.Str? then x.second.data else [])
  {
    if x.second.Str? {
      JoinKept(HeaderTaken(q, x.header).(remain := x.second.remain), x.second.data, cnt);
    }
  }

  // ----- whole runs -----

  datatype Op = Arrive(ch: byte, len: byte) | ReadOp(cnt: nat, x: Exchange) | ReadQueuedOp(cnt: nat)

  predicate PossibleOp(op: Op) {
    op.ReadOp? ==> Possible(op.x)
  }

  function Apply(q: Queue, op: Op): (r: Read)
    requires q.Valid() && PossibleOp(op)
    ensures r.q.Valid()
  {
    match op
    case Arrive(ch, len) => Read(Enqueue(q, ch, len), [])
    case ReadOp(cnt, x) => ReadingString(q, cnt, x)
    case ReadQueuedOp(cnt) => ReadingQueue(q, cnt)
  }

  /** All that the readers of a run got, in order, and the queue in the end. */
  function RunAll(q: Queue, ops: seq<Op>): (r: Read)
    requires q.Valid() && forall op <- ops :: PossibleOp(op)
    ensures r.Read? && r.q.Valid()
    decreases |ops|
  {
    if ops == [] then Read(q, [])
    else
      var first := Apply(q, ops[0]);
      var rest := RunAll(first.q, ops[1..]);
      Read(rest.q, Got(first) + rest.got)
  }

  function KeptBy(q: Queue, op: Op): seq<byte>
    requires q.Valid() && PossibleOp(op)
  {
    match op
    case Arrive(ch, _) => if |q.chars| < MAX_LOCAL_QUEUE_LEN then [ch] else []
    case ReadOp(cnt, x) => Kept(q, cnt, x)
    case ReadQueuedOp(_) => []
  }

  /** All that arrived in a run and found room, in order of arrival. */
  function KeptIn(q: Queue, ops: seq<Op>): seq<byte>
    requires q.Valid() && forall op <- ops :: PossibleOp(op)
    decreases |ops|
  {
    if ops == [] then [] else KeptBy(q, ops[0]) + KeptIn(Apply(q, ops[0]).q, ops[1..])
  }

  predicate Loses(q: Queue, op: Op)
    requires q.Valid() && PossibleOp(op)
  {
    op.ReadOp? && Overwrites(q, op.cnt, op.x)
  }

  /** Some read of the run is for no characters, at a moment when some are queued and more arrive. */
  predicate SomeLoses(q: Queue, ops: seq<Op>)
    requires q.Valid() && forall op <- ops :: PossibleOp(op)
    decreases |ops|
  {
    ops != [] && (Loses(q, ops[0]) || SomeLoses(Apply(q, ops[0]).q, ops[1..]))
  }

  lemma OpKept(q: Queue, op: Op)
    requires q.Valid() && PossibleOp(op)
    ensures var got, all := Got(Apply(q, op)) + Apply(q, op).q.chars, q.chars + KeptBy(q, op);
            if Loses(q, op) then |got| < |all| else got == all
  {
    if op.ReadOp? {
      StreamKept(q, op.cnt, op.x);
      if Loses(q, op) {
        OverwriteShortens(q, op.x);
      }
    }
    hide Kept, ReadingString;
  }

  lemma OverwriteShortens(q: Queue, x: Exchange)
    requires q.Valid() && Possible(x) && Overwrites(q, 0, x)
    ensures var r := ReadingString(q, 0, x); |Got(r) + r.q.chars| < |q.chars + Kept(q, 0, x)|
  {
  }

  /** First in, first out over any run: what was delivered, followed by the queue, is what was queued at first,
      followed by all that found room - exactly when no read of the run overwrites the queue. */
  lemma {:induction false} Fifo(q: Queue, ops: seq<Op>)
    requires q.Valid() && forall op <- ops :: PossibleOp(op)
    ensures var got, all := RunAll(q, ops).got + RunAll(q, ops).q.chars, q.chars + KeptIn(q, ops);
            if SomeLoses(q, ops) then |got| < |all| else got == all
    decreases |ops|
  {
    if ops != [] {
      OpKept(q, ops[0]);
      hide Apply, KeptBy, Loses;
      var first := Apply(q, ops[0]);
      Fifo(first.q, ops[1..]);
      var rest := RunAll(first.q, ops[1..]);
      Regroup(Got(first), rest.got, rest.q.chars);
      Regroup(Got(first), first.q.chars, KeptIn(first.q, ops[1..]));
      Regroup(q.chars, KeptBy(q, ops[0]), KeptIn(first.q, ops[1..]));
    }
  }

  lemma Regroup(a: seq<byte>, b: seq<byte>, c: seq<byte>)
    ensures (a + b) + c == a + (b + c)
  {
  }

  // ----- in place -----

  /** `after` is `before` with `s` written at `at`. */
  predicate Written(before: seq<byte>, after: seq<byte>, at: nat, s: seq<byte>) {
    at + |s| <= |before| && after == before[..at] + s + before[at + |s|..]
  }

  method MemMove(dst: array<byte>, at: nat, src: seq<byte>)
    requires at + |src| <= dst.Length
    modifies dst
    ensures Written(old(dst[..]), dst[..], at, src)
  {
    forall k | 0 <= k < |src| {
      dst[at + k] := src[k];
    }
  }

  lemma WrittenNothing(before: seq<byte>, at: nat)
    requires at <= |before|
    ensures Written(before, before, at, [])
  {
  }

  lemma TwoMoves(before: seq<byte>, mid: seq<byte>, after: seq<byte>, at: nat, a: seq<byte>, b: seq<byte>)
    requires Written(before, mid, at, a) && Written(mid, after, at + |a|, b)
    ensures Written(before, after, at, a + b)
  {
    assert mid[..at + |a|] == before[..at] + a;
    assert mid[at + |a| + |b|..] == before[at + |a| + |b|..];
  }

  lemma JoinFew(q: Queue, data: seq<byte>, cnt: nat)
    requires q.Valid() && |data| < 256 && 0 < cnt < |q.chars|
    ensures Join(q, data, cnt)
            == Read(q.(chars := q.chars[cnt..] + data[..Min(|data|, MAX_LOCAL_QUEUE_LEN - (|q.chars| - cnt))]),
                    q.chars[..cnt])
  {
  }

  lemma JoinAll(q: Queue, data: seq<byte>, cnt: nat)
    requires q.Valid() && |data| < 256 && !(0 < cnt < |q.chars|)
    ensures var n := Min(|q.chars|, cnt);
            Join(q, data, cnt)
            == Read(q.(chars := if |data| > cnt - n then data[cnt - n..] else if n > 0 then [] else q.chars),
                    q.chars[..n] + data[..Min(|data|, cnt - n)])
  {
  }

  /** The two moves, of the queue and of the string, make the whole read. */
  lemma JoinedIn(q: Queue, data: seq<byte>, cnt: nat, at: nat, before: seq<byte>, mid: seq<byte>, after: seq<byte>,
                 left: seq<byte>, chars: seq<byte>)
    requires q.Valid() && |data| < 256 && !(0 < cnt < |q.chars|)
    requires var n := Min(|q.chars|, cnt);
             && Written(before, mid, at, q.chars[..n]) && Written(mid, after, at + n, data[..Min(|data|, cnt - n)])
             && left == (if n > 0 then [] else q.chars) && chars == if |data| > cnt - n then data[cnt - n..] else left
    ensures var r := Join(q, data, cnt);
            && r.q == q.(chars := chars) && |r.got| == Min(|q.chars|, cnt) + Min(|data|, cnt - Min(|q.chars|, cnt))
            && Written(before, after, at, r.got)
  {
    hide Join, Written;
    JoinAll(q, data, cnt);
    var n := Min(|q.chars|, cnt);
    TwoMoves(before, mid, after, at, q.chars[..n], data[..Min(|data|, cnt - n)]);
  }

  /** `uart_queue`: the first `index` bytes of the buffer are queued. */
  class UartQueue {
    const buffer: array<byte>
    var index: nat
    var remain: int
    var overflow: nat

    predicate Valid()
      reads this, buffer
    {
      buffer.Length == MAX_LOCAL_QUEUE_LEN && index <= MAX_LOCAL_QUEUE_LEN
    }

    function Value(): (q: Queue)
      requires Valid()
      reads this, buffer
      ensures q.Valid()
    {
      Queue(buffer[..index], remain, overflow)
    }

    constructor ()
      ensures Valid() && fresh(buffer) && Value() == Queue([], 0, 0)
    {
      buffer := new byte[MAX_LOCAL_QUEUE_LEN];
      index, remain, overflow := 0, 0, 0;
    }

    method QueueUart(ch: byte, len: byte)
      requires Valid()
      modifies this, buffer
      ensures Valid() && Value() == Enqueue(old(Value()), ch, len)
    {
      remain := if len == 0 then 255 else len - 1;
      if index < MAX_LOCAL_QUEUE_LEN {
        buffer[index] := ch;
        index := index + 1;
      } else {
        overflow := overflow + 1;
      }
    }

    /** The second phase's data lies in the receive buffer. */
    method ReadString(str: array<byte>, at: nat, cnt: nat, x: Exchange) returns (n: int)
      requires Valid() && Possible(x) && str != buffer && at + cnt <= str.Length
      modifies this, buffer, str
      ensures Valid()
      ensures match ReadingString(old(Value()), cnt, x)
              case Fails(q) => n < 0 && Value() == q && str[..] == old(str[..])
              case Read(q, got) =>
                && Value() == q && n == |got|
                && Written(old(str[..]), str[..], at, got)
    {
      if x.NoReply? {
        return -1;
      }
      match x.header {
        case Idle =>
        case Char(ch, len) => QueueUart(ch, len);
      }
      if x.second.Unusable? {
        return -1;
      }
      remain := x.second.remain;
      n := Import(str, at, cnt, x.second.data);
    }

    /** The queue and a string of the device, joined. */
    method Import(str: array<byte>, at: nat, cnt: nat, data: seq<byte>) returns (n: nat)
      requires Valid() && |data| < 256 && str != buffer && at + cnt <= str.Length
      modifies this`index, buffer, str
      ensures Valid()
      ensures var r := Join(old(Value()), data, cnt);
              && Value() == r.q && n == |r.got|
              && Written(old(str[..]), str[..], at, r.got)
    {
      if 0 < cnt < index {
        n := ImportFew(str, at, cnt, data);
      } else {
        n := ImportAll(str, at, cnt, data);
      }
    }

    /** `str` is too short even for the local queue. */
    method ImportFew(str: array<byte>, at: nat, cnt: nat, data: seq<byte>) returns (n: nat)
      requires Valid() && |data| < 256 && str != buffer && at + cnt <= str.Length && 0 < cnt < index
      modifies this`index, buffer, str
      ensures Valid()
      ensures var r := Join(old(Value()), data, cnt);
              && Value() == r.q && n == |r.got|
              && Written(old(str[..]), str[..], at, r.got)
    {
      hide Join, Written;
      ghost var q := Value();
      JoinFew(q, data, cnt);
      assert buffer[..cnt] == q.chars[..cnt] && buffer[cnt..index] == q.chars[cnt..];
      MemMove(str, at, buffer[..cnt]);
      ghost var after := str[..];
      Refill(cnt, data);
      assert str[..] == after;
      n := cnt;
    }

    method ImportAll(str: array<byte>, at: nat, cnt: nat, data: seq<byte>) returns (n: nat)
      requires Valid() && |data| < 256 && str != buffer && at + cnt <= str.Length && !(0 < cnt < index)
      modifies this`index, buffer, str
      ensures Valid()
      ensures var r := Join(old(Value()), data, cnt);
              && Value() == r.q && n == |r.got|
              && Written(old(str[..]), str[..], at, r.got)
    {
      hide Join, Written;
      ghost var q, before := Value(), str[..];
      var taken := TakeQueued(str, at, cnt);
      ghost var left, mid := buffer[..index], str[..];
      var more := Spill(str, at + taken, cnt - taken, data);
      JoinedIn(q, data, cnt, at, before, mid, str[..], left, buffer[..index]);
      n := taken + more;
    }

    /** As much of the queue as there is room for, which is all of it or nothing. */
    method TakeQueued(str: array<byte>, at: nat, cnt: nat) returns (n: nat)
      requires Valid() && str != buffer && at + cnt <= str.Length && !(0 < cnt < index)
      modifies this`index, buffer, str
      ensures Valid() && n == Min(old(index), cnt)
      ensures buffer[..index] == if n > 0 then [] else old(buffer[..index])
      ensures Written(old(str[..]), str[..], at, old(buffer[..index])[..n])
    {
      n := Min(index, cnt);
      ghost var chars := buffer[..index];
      assert buffer[..n] == chars[..n];
      WrittenNothing(str[..], at);
      if n > 0 {
        MemMove(str, at, buffer[..n]);
        index := 0;
      }
    }

    /** `n` characters have left; as much of the string as finds room follows the rest. */
    method Refill(n: nat, data: seq<byte>)
      requires Valid() && n <= index
      modifies this`index, buffer
      ensures Valid()
      ensures buffer[..index] == old(buffer[n..index]) + data[..Min(|data|, MAX_LOCAL_QUEUE_LEN - (old(index) - n))]
    {
      Shift(n);
      Append(data[..Min(|data|, MAX_LOCAL_QUEUE_LEN - index)]);
    }

    /** The string after the queued characters; what finds no room in `str` becomes the queue. */
    method Spill(str: array<byte>, at: nat, wanted: nat, data: seq<byte>) returns (n2: nat)
      requires Valid() && |data| < 256 && str != buffer && at + wanted <= str.Length
      modifies this`index, buffer, str
      ensures Valid() && n2 == Min(|data|, wanted)
      ensures buffer[..index] == if |data| > wanted then data[wanted..] else old(buffer[..index])
      ensures Written(old(str[..]), str[..], at, data[..n2])
    {
      n2 := Min(|data|, wanted);
      MemMove(str, at, data[..n2]);
      if |data| > wanted {
        index := 0;
        Append(data[wanted..]);
      }
    }

    method Append(data: seq<byte>)
      requires Valid() && index + |data| <= MAX_LOCAL_QUEUE_LEN
      modifies this`index, buffer
      ensures Valid() && buffer[..index] == old(buffer[..index]) + data
    {
      MemMove(buffer, index, data);
      index := index + |data|;
    }

    /** Removes the first `n` characters. */
    method Shift(n: nat)
      requires Valid() && n <= index
      modifies this`index, buffer
      ensures Valid() && buffer[..index] == old(buffer[n..index])
    {
      MemMove(buffer, 0, buffer[n..index]);
      index := index - n;
    }

    method ReadQueued(str: array<byte>, at: nat, cnt: nat) returns (n: nat)
      requires Valid() && str != buffer && at + cnt <= str.Length
      modifies this, buffer, str
      ensures Valid()
      ensures var r := ReadingQueue(old(Value()), cnt);
              && Value() == r.q && n == |r.got|
              && Written(old(str[..]), str[..], at, r.got)
    {
      hide Written;
      ghost var q, before := Value(), str[..];
      n := if index < cnt then index else cnt;
      assert buffer[..n] == q.chars[..n] && buffer[n..index] == q.chars[n..];
      assert n == 0 ==> q.chars[..n] == [];
      WrittenNothing(before, at);
      if n > 0 {
        MemMove(str, at, buffer[..n]);
        if n < index {
          Shift(n);
        } else {
          index := 0;
        }
      }
    }
  }
}
