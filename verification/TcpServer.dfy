/** Connections of the TCP server: one buffer being read into, a queue of buffers being sent, and all others in
    the pool. Each operation does to a connection what the model on values says. */
module TcpServer {
  import opened Bytes
  import opened RequestSplit
  import opened BufferPool
  import opened Links

  /** Part of `b` that is still to be sent. */
  function Unsent(b: Buffer): seq<byte>
    reads b`data, b`index, b`sendindex
  {
    if b.sendindex <= b.index <= |b.data| then b.data[b.sendindex..b.index] else []
  }

  function Waiting(queue: seq<Buffer>): (w: seq<seq<byte>>)
    reads queue`data, queue`index, queue`sendindex
    ensures |w| == |queue|
  {
    if queue == [] then [] else [Unsent(queue[0])] + Waiting(queue[1..])
  }

  lemma {:induction false} WaitingAppend(queue: seq<Buffer>, b: Buffer)
    ensures Waiting(queue + [b]) == Waiting(queue) + [Unsent(b)]
    decreases |queue|
  {
    if queue == [] {
      assert [] + [b] == [b];
      assert Waiting([b]) == [Unsent(b)] + [];
    } else {
      assert (queue + [b])[1..] == queue[1..] + [b];
      WaitingAppend(queue[1..], b);
    }
  }

  function ReaderOf(rd: Buffer?): Reader
    reads rd
  {
    if rd == null then NoBuffer else if rd.index <= |rd.data| then Holding(rd.data[..rd.index]) else Holding([])
  }

  predicate Sized(b: Buffer)
    reads b`data, b`index, b`sendindex
  {
    |b.data| == MAX_MB_BUFFER_LEN && b.sendindex <= b.index <= MAX_MB_BUFFER_LEN
  }

  /** Every answer fits a buffer. */
  ghost predicate Bounded(reply: Replies) {
    forall k, r :: |reply(k, r)| <= MAX_MB_BUFFER_LEN
  }

  /** `mb_event_data_t` of a connection, with what its socket took and does next, and the requests that
      `nb_modbus_reply` got. */
  class Conn {
    const reply: Replies
    var rd: Buffer?
    var wr: Buffer?
    var out: seq<byte>
    var sends: seq<int>
    var passed: seq<seq<byte>>
    var armed: bool
    ghost var queue: seq<Buffer>
    ghost var chunks: seq<seq<byte>>

    ghost predicate Valid()
      reads this, queue, if rd == null then {} else {rd}
    {
      && Linked(wr, queue)
      && (forall b <- queue :: Sized(b))
      && (rd != null ==> rd !in queue && rd.next == null && rd.sendindex == 0 && Sized(rd))
      && Bounded(reply)
    }

    ghost function Value(): Link
      reads this, queue, rd
    {
      Link(ReaderOf(rd), Waiting(queue), out, sends, passed, chunks, armed)
    }

    /** The buffers this connection holds. */
    ghost function Own(): set<Buffer>
      reads this
    {
      Members(queue) + if rd == null then {} else {rd}
    }

    constructor (reply: Replies, sends: seq<int>)
      requires Bounded(reply)
      ensures Valid() && Own() == {} && this.reply == reply && Value() == Opened(sends)
    {
      this.reply, this.sends := reply, sends;
      rd, wr, out, armed := null, null, [], false;
      queue, passed, chunks := [], [], [];
    }

    /** `send`: how much of `wanted` bytes the socket takes, 0 for EAGAIN, negative for an error. */
    method Send(wanted: nat) returns (n: int)
      requires wanted > 0
      modifies this`sends
      ensures n <= wanted
      ensures Sending(wanted, old(sends))
              == if n <= 0 then Sent(0, if n == 0 then 1 else -1, sends)
                 else var s := Sending(wanted - n, sends); Sent(n + s.count, s.rc, s.sends)
    {
      hide Sending;
      SendStep(wanted, sends);
      n := wanted;
      if sends != [] {
        n := if sends[0] < wanted then sends[0] else wanted;
        sends := sends[1..];
      }
    }

    /** `nb_send` */
    method NbSend(buffer: Buffer) returns (rc: int)
      requires Sized(buffer)
      modifies this`out, this`sends, buffer`sendindex
      ensures Sized(buffer)
      ensures var data := old(Unsent(buffer));
              var s := Sending(|data|, old(sends));
              && rc == s.rc && sends == s.sends && out == old(out) + data[..s.count] && Unsent(buffer) == data[s.count..]
    {
      hide Unsent, Sending;
      UnsentIs(buffer);
      ghost var from, data, first, before := buffer.sendindex, Unsent(buffer), sends, out;
      var wanted := buffer.index - buffer.sendindex;
      rc := 0;
      while wanted > 0
        invariant from <= buffer.sendindex <= buffer.index && wanted == buffer.index - buffer.sendindex && rc == 0
        invariant data == buffer.data[from..buffer.index] && out == before + data[..buffer.sendindex - from]
        invariant var s := Sending(wanted, sends);
                  Sending(|data|, first) == Sent(buffer.sendindex - from + s.count, s.rc, s.sends)
        modifies this`out, this`sends, buffer`sendindex
        decreases wanted
      {
        var n := Send(wanted);
        if n == 0 {
          rc := 1;
          break;
        }
        if n < 0 {
          rc := -1;
          break;
        }
        PieceSent(before, buffer.data, from, buffer.sendindex, buffer.sendindex + n, buffer.index);
        out := out + buffer.data[buffer.sendindex..buffer.sendindex + n];
        buffer.sendindex := buffer.sendindex + n;
        wanted := wanted - n;
      }
      UnsentIs(buffer);
      NothingToSend(sends);
      PieceSent(before, buffer.data, from, buffer.sendindex, buffer.sendindex, buffer.index);
    }
  }

  lemma SendStep(n: nat, sends: seq<int>)
    requires n > 0
    ensures var k := if sends == [] || sends[0] >= n then n else sends[0];
            var rest := if sends == [] then [] else sends[1..];
            Sending(n, sends)
            == if k <= 0 then Sent(0, if k == 0 then 1 else -1, rest)
               else var s := Sending(n - k, rest); Sent(k + s.count, s.rc, s.sends)
  {
  }

  lemma NothingToSend(sends: seq<int>)
    ensures Sending(0, sends) == Sent(0, 0, sends)
  {
  }

  lemma PieceSent(out: seq<byte>, data: seq<byte>, from: nat, at: nat, to: nat, end: nat)
    requires from <= at <= to <= end <= |data|
    ensures var whole := data[from..end];
            out + whole[..at - from] + data[at..to] == out + whole[..to - from] && data[to..end] == whole[to - from..]
  {
  }

  lemma UnsentIs(b: Buffer)
    requires Sized(b)
    ensures Unsent(b) == b.data[b.sendindex..b.index]
  {
  }

  /** The pool and a connection hold different buffers. */
  ghost predicate Apart(pool: Pool, c: Conn)
    reads pool, pool.free, c, c.queue, if c.rd == null then {} else {c.rd}
  {
    && pool.Valid() && c.Valid() && Members(pool.free) !! c.Own()
    && forall b <- pool.free :: |b.data| == MAX_MB_BUFFER_LEN
  }

  ghost function Together(pool: Pool, c: Conn): set<Buffer>
    reads pool, c
  {
    Members(pool.free) + c.Own()
  }

  /** How many buffers a connection may come to hold: its own and the free ones. */
  lemma RoomIsTogether(pool: Pool, c: Conn)
    requires Apart(pool, c)
    ensures |Together(pool, c)| == |pool.free| + Slots(c.Value())
    ensures pool.free == [] <==> Slots(c.Value()) >= |Together(pool, c)|
  {
    ChainCounts(pool.stack, pool.free);
    ChainCounts(c.wr, c.queue);
    var own := Members(c.queue);
    if c.rd != null {
      assert c.Own() == own + {c.rd} && c.rd !in own;
    } else {
      assert c.Own() == own;
    }
  }

  lemma HeldApart(pool: Pool, c: Conn)
    requires Apart(pool, c)
    ensures forall b <- pool.free :: b !in c.queue && b != c.rd
    ensures forall i | 0 <= i < |pool.free| :: pool.free[i] !in c.queue && pool.free[i] != c.rd
  {
    forall b <- pool.free
      ensures b !in c.queue && b != c.rd
    {
      assert b in Members(pool.free) && b !in c.Own();
    }
  }

  lemma EmptyChain(head: Buffer?, s: seq<Buffer>)
    requires Linked(head, s)
    ensures head == null <==> s == []
    ensures s != [] ==> head == s[0] && s[0] !in s[1..]
  {
  }

  lemma LinkedAlone(b: Buffer)
    ensures Linked(b, [b]) <==> b.next == null
    ensures Waiting([b]) == [Unsent(b)] && Members([b]) == {b} && Waiting([]) == []
  {
    assert [b][1..] == [];
    assert Segment(b, [b], null) <==> Segment(b.next, [], null);
    assert Waiting([b]) == [Unsent(b)] + [];
  }

  /** Adds a buffer to the write queue: the end of `parse_buffer` when others wait. */
  method Enqueue(c: Conn, buffer: Buffer)
    requires c.Valid() && c.wr != null && Sized(buffer) && buffer.next == null && buffer !in c.Own()
    modifies c`queue, c.queue`next
    ensures c.Valid() && c.queue == old(c.queue) + [buffer]
    ensures c.Value() == old(c.Value()).(waiting := old(c.Value().waiting) + [Unsent(buffer)])
  {
    hide Waiting, Segment, Unsent, Bounded;
    ghost var queue := c.queue;
    assert buffer !in queue by {
      assert buffer !in Members(queue);
    }
    Append(c.wr, buffer, queue);
    assert Waiting(queue) == old(Waiting(c.queue));
    assert forall b <- queue :: Sized(b);
    WaitingAppend(queue, buffer);
    c.queue := queue + [buffer];
  }

  /** The answer in `buffer` is sent or queued. After a partial send the code both queues the buffer and gives it
      back to the pool (`asWritten`); it must only be queued. */
  method SendOrQueue(pool: Pool, c: Conn, buffer: Buffer, asWritten: bool) returns (rc: int)
    requires Apart(pool, c) && Sized(buffer) && buffer.next == null && buffer !in Together(pool, c)
    requires Unsent(buffer) != []
    modifies pool, c`wr, c`queue, c`out, c`sends, c.queue`next, buffer`next, buffer`sendindex
    ensures Step(c.Value(), rc) == Offering(old(c.Value()), old(Unsent(buffer)))
    ensures pool.Valid() && Together(pool, c) == old(Together(pool, c)) + {buffer}
    // every buffer is in one place - except when nothing waits and the socket refuses before the whole is taken
    ensures Apart(pool, c) <==>
              !(asWritten && old(c.wr) == null && exists k: nat :: RefusesAt(|old(Unsent(buffer))|, old(c.sends), k))
    ensures !Apart(pool, c) ==> pool.stack == buffer && c.wr == buffer
  {
    hide Segment, Unsent, Bounded, Sending;
    assert buffer !in Members(pool.free) && buffer !in Members(c.queue);
    PartialSend(|Unsent(buffer)|, c.sends);
    HeldApart(pool, c);
    EmptyChain(c.wr, c.queue);
    if c.wr != null {
      LinkedAlone(buffer);
      Enqueue(c, buffer);
      assert Linked(pool.stack, pool.free);
      rc := 0;
    } else {
      rc := TrySend(pool, c, buffer, asWritten);
    }
  }

  /** Nothing waits to be sent before this. */
  method TrySend(pool: Pool, c: Conn, buffer: Buffer, asWritten: bool) returns (rc: int)
    requires Apart(pool, c) && Sized(buffer) && buffer.next == null && buffer !in Together(pool, c)
    requires Unsent(buffer) != [] && c.wr == null
    modifies pool, c`wr, c`queue, c`out, c`sends, buffer`next, buffer`sendindex
    ensures Step(c.Value(), rc) == Offering(old(c.Value()), old(Unsent(buffer)))
    ensures pool.Valid() && Together(pool, c) == old(Together(pool, c)) + {buffer}
    ensures Apart(pool, c) <==> !(asWritten && rc == 1)
    ensures !Apart(pool, c) ==> pool.stack == buffer && c.wr == buffer
  {
    hide Segment, Unsent, Bounded, Sending, Offering, Waiting, ReaderOf, Linked;
    assert buffer !in Members(pool.free) && buffer !in Members(c.queue);
    HeldApart(pool, c);
    EmptyChain(c.wr, c.queue);
    ghost var v, answer := c.Value(), Unsent(buffer);
    ghost var s := Sending(|answer|, c.sends);
    OfferedAlone(v, answer);
    rc := c.NbSend(buffer);
    LinkedAlone(buffer);
    assert ReaderOf(c.rd) == v.rd;
    if rc > 0 {
      c.wr := buffer;
      c.queue := [buffer];
      if !asWritten {
        return;
      }
    }
    pool.Repool(buffer, [buffer]);
  }

  lemma OfferedAlone(l: Link, answer: seq<byte>)
    requires l.waiting == [] && answer != []
    ensures var s := Sending(|answer|, l.sends);
            Offering(l, answer)
            == Step(l.(out := l.out + answer[..s.count], sends := s.sends,
                       waiting := if s.rc > 0 then [answer[s.count..]] else []), s.rc)
  {
    hide Sending;
  }

  /** A new connection whose socket refuses at once: after one answer its buffer is queued and free as well. */
  method HeldTwice(reply: Replies, answer: seq<byte>) returns (pool: Pool, c: Conn)
    requires Bounded(reply) && 0 < |answer| <= MAX_MB_BUFFER_LEN
    ensures c.wr != null && c.wr == pool.stack && !Apart(pool, c)
  {
    hide Segment, Bounded, RefusesAt;
    pool := new Pool();
    c := new Conn(reply, [0]);
    var buffer := new Buffer(null);
    buffer.data := answer + buffer.data[|answer|..];
    buffer.index := |answer|;
    UnsentIs(buffer);
    assert c.wr == null && c.sends == [0] && Members(c.queue) == {} by {
      hide *;
      NothingWaits(c, [0]);
    }
    RefusedAtOnce(|answer|);
    assert buffer !in Members(pool.free);
    var rc := SendOrQueue(pool, c, buffer, true);
  }

  lemma NothingWaits(c: Conn, sends: seq<int>)
    requires c.Valid() && c.Value() == Opened(sends)
    ensures c.wr == null && c.sends == sends && c.Own() == {} && c.queue == [] && Members(c.queue) == {}
  {
    EmptyChain(c.wr, c.queue);
  }

  lemma RefusedAtOnce(n: nat)
    requires n > 0
    ensures RefusesAt(n, [0], 0)
  {
    assert [0][..0] == [];
  }

  /** Detaches the first request with its buffer; the bytes behind it move to a new one. */
  method TakeRequest(pool: Pool, c: Conn, reqlen: nat) returns (buffer: Buffer?)
    requires Apart(pool, c) && c.rd != null && reqlen <= c.rd.index
    modifies pool, pool.stack, c`rd
    ensures Apart(pool, c) && c.wr == old(c.wr) && c.queue == old(c.queue)
    ensures buffer == null <==> reqlen < |Left(old(c.Value()))| && old(pool.free) == []
    ensures buffer == null ==> c.Value() == old(c.Value()) && Together(pool, c) == old(Together(pool, c))
    ensures buffer != null ==>
              && buffer == old(c.rd) && buffer !in Together(pool, c)
              && Together(pool, c) + {buffer} == old(Together(pool, c))
              && buffer.next == null && buffer.sendindex == 0 && buffer.data == old(c.rd.data)
              && var left := Left(old(c.Value()));
                 c.Value() == old(c.Value()).(rd := if reqlen < |left| then Holding(left[reqlen..]) else NoBuffer)
  {
    hide Segment, Bounded, Waiting, Unsent;
    HeldApart(pool, c);
    EmptyChain(pool.stack, pool.free);
    ghost var waiting, left := Waiting(c.queue), Left(c.Value());
    buffer := c.rd;
    if reqlen < buffer.index {
      var newBuf := pool.Get();
      assert Waiting(c.queue) == waiting;
      if newBuf == null {
        return null;
      }
      Fill(newBuf, buffer.data[reqlen..buffer.index]);
      c.rd := newBuf;
      assert Waiting(c.queue) == waiting;
      assert left[reqlen..] == buffer.data[reqlen..buffer.index];
    } else {
      c.rd := null;
    }
  }

  method Fill(b: Buffer, bytes: seq<byte>)
    requires |bytes| <= |b.data| == MAX_MB_BUFFER_LEN
    modifies b`index, b`data
    ensures b.index == |bytes| && |b.data| == MAX_MB_BUFFER_LEN && b.data[..b.index] == bytes
  {
    b.index := |bytes|;
    b.data := bytes + b.data[|bytes|..];
  }

  /** `nb_modbus_reply` writes the answer over the request, in the same buffer. */
  method Reply(c: Conn, buffer: Buffer, reqlen: nat)
    requires c.Valid() && buffer !in c.Own()
    requires buffer.sendindex == 0 && reqlen <= |buffer.data| == MAX_MB_BUFFER_LEN
    modifies c`passed, buffer`data, buffer`index
    ensures c.Valid() && Sized(buffer)
    ensures c.Value() == old(c.Value()).(passed := old(c.passed) + [old(buffer.data)[..reqlen]])
    ensures Unsent(buffer) == c.reply(|old(c.passed)|, old(buffer.data)[..reqlen])
  {
    hide Segment;
    var request := buffer.data[..reqlen];
    var answer := c.reply(|c.passed|, request);
    assert buffer !in Members(c.queue);
    ghost var v := c.Value();
    buffer.data := answer + buffer.data[|answer|..];
    buffer.index := |answer|;
    c.passed := c.passed + [request];
    assert Waiting(c.queue) == v.waiting && ReaderOf(c.rd) == v.rd;
    UnsentIs(buffer);
    assert buffer.data[0..|answer|] == answer;
  }

  /** The request in `buffer` is answered and the answer is sent or queued. */
  method Answer(pool: Pool, c: Conn, buffer: Buffer, reqlen: nat) returns (rc: int)
    requires Apart(pool, c) && buffer !in Together(pool, c)
    requires buffer.next == null && buffer.sendindex == 0 && reqlen <= |buffer.data| == MAX_MB_BUFFER_LEN
    modifies pool, c`wr, c`queue, c`out, c`sends, c`passed, c.queue`next, buffer
    ensures Apart(pool, c) && Together(pool, c) == old(Together(pool, c)) + {buffer}
    ensures var request := old(buffer.data)[..reqlen];
            Step(c.Value(), rc)
            == Offering(old(c.Value()).(passed := old(c.passed) + [request]), c.reply(|old(c.passed)|, request))
  {
    hide Segment, Unsent, Waiting, Bounded, Sending, RefusesAt;
    HeldApart(pool, c);
    assert buffer !in Members(pool.free);
    Reply(c, buffer, reqlen);
    assert Linked(pool.stack, pool.free);
    UnsentIs(buffer);
    if buffer.index > 0 {
      rc := SendOrQueue(pool, c, buffer, false);
    } else {
      LinkedAlone(buffer);
      ghost var v := c.Value();
      assert buffer !in Members(c.queue);
      pool.Repool(buffer, [buffer]);
      assert Waiting(c.queue) == v.waiting && ReaderOf(c.rd) == v.rd;
      rc := 0;
    }
  }

  lemma StackHeld(pool: Pool, c: Conn)
    requires Apart(pool, c)
    ensures pool.stack != null ==> pool.stack in Together(pool, c)
    ensures forall b <- c.queue :: b in Together(pool, c)
  {
    EmptyChain(pool.stack, pool.free);
    if pool.stack != null {
      assert pool.free[0] in Members(pool.free);
    }
    forall b <- c.queue
      ensures b in Together(pool, c)
    {
      assert b in Members(c.queue);
    }
  }

  lemma ReadBytes(pool: Pool, c: Conn)
    requires Apart(pool, c) && c.rd != null
    ensures c.rd in Together(pool, c)
    ensures c.Value().rd == Holding(c.rd.data[..c.rd.index]) && c.Value().passed == c.passed
    ensures Sized(c.rd) && c.rd.sendindex == 0
  {
  }

  /** One pass of the loop in `parse_buffer`. */
  method PassOne(pool: Pool, c: Conn, reqlen: nat) returns (rc: int)
    requires Apart(pool, c) && c.rd != null && reqlen <= c.rd.index
    modifies pool, c, Together(pool, c)
    ensures Apart(pool, c) && Together(pool, c) == old(Together(pool, c))
    ensures var v, room := old(c.Value()), |old(Together(pool, c))|;
            && reqlen <= |Left(v)|
            && Step(c.Value(), rc)
               == if reqlen < |Left(v)| && Slots(v) >= room then Step(v, -1) else Taking(v, reqlen, c.reply)
  {
    hide Segment, Bounded, Offering, Slots, Conn.Value, Apart, Together, Unsent, Waiting;
    StackHeld(pool, c);
    RoomIsTogether(pool, c);
    ghost var v := c.Value();
    ReadBytes(pool, c);
    var buffer := TakeRequest(pool, c, reqlen);
    if buffer == null {
      return -1;
    }
    assert buffer.data[..reqlen] == Left(v)[..reqlen];
    StackHeld(pool, c);
    rc := Answer(pool, c, buffer, reqlen);
  }

  /** `parse_buffer`: every request that is complete in the read buffer is taken out and answered. */
  method ParseBuffer(pool: Pool, c: Conn) returns (rc: int)
    requires Apart(pool, c)
    modifies pool, c, Together(pool, c)
    ensures Apart(pool, c) && Together(pool, c) == old(Together(pool, c))
    ensures Step(c.Value(), rc) == Parsing(old(c.Value()), |old(Together(pool, c))|, c.reply, 0)
  {
    hide Segment, Unsent, Waiting, ReqLen, Taking, Slots, Bounded;
    var result := 0;
    ghost var together, room, v := Together(pool, c), |Together(pool, c)|, c.Value();
    while true
      invariant Apart(pool, c) && Together(pool, c) == together
      invariant Parsing(c.Value(), room, c.reply, result) == Parsing(v, room, c.reply, 0)
      decreases |Left(c.Value())|
    {
      if c.rd == null {
        return 0;
      }
      var reqlen := ReqLen(c.rd.data[..c.rd.index]);
      assert Left(c.Value()) == c.rd.data[..c.rd.index];
      if reqlen == 0 {
        return result;
      }
      TakingLeft(c.Value(), reqlen, c.reply);
      rc := PassOne(pool, c, reqlen);
      if rc < 0 {
        return;
      }
      if rc > 0 {
        result := 1;
      }
    }
  }

  /** Takes the first buffer out of the write queue and moves the queue on; the code has a comparison in place of
      that assignment. */
  method PopFront(c: Conn) returns (buffer: Buffer)
    requires c.Valid() && c.wr != null
    modifies c`wr, c`queue, c.wr`next
    ensures c.Valid() && old(c.queue) == [buffer] + c.queue && buffer == old(c.wr)
    ensures buffer.next == null && buffer !in c.Own()
    ensures c.Value() == old(c.Value()).(waiting := old(c.Value().waiting)[1..])
  {
    hide Unsent, Bounded;
    EmptyChain(c.wr, c.queue);
    ghost var waiting := Waiting(c.queue);
    buffer := c.wr;
    ghost var rest := c.queue[1..];
    assert buffer in c.queue;
    c.wr := buffer.next;
    c.queue := rest;
    assert Segment(c.wr, rest, null);
    buffer.next := null;
    assert buffer !in Members(rest);
    assert waiting[1..] == Waiting(rest);
  }

  /** The front of the queue was sent whole and goes back to the pool. */
  method Dequeue(pool: Pool, c: Conn)
    requires Apart(pool, c) && c.wr != null
    modifies pool, c`wr, c`queue, c.wr`next
    ensures Apart(pool, c) && Together(pool, c) == old(Together(pool, c))
    ensures c.Value() == old(c.Value()).(waiting := old(c.Value().waiting)[1..])
    ensures |c.queue| < |old(c.queue)| && forall b <- c.queue :: b in old(c.queue)
  {
    hide Segment, Unsent, Waiting, Bounded;
    HeldApart(pool, c);
    var buffer := PopFront(c);
    LinkedAlone(buffer);
    assert Members(old(c.queue)) == {buffer} + Members(c.queue);
    assert buffer in Members(old(c.queue));
    assert Linked(pool.stack, pool.free);
    ghost var v := c.Value();
    pool.Repool(buffer, [buffer]);
    assert Waiting(c.queue) == v.waiting && ReaderOf(c.rd) == v.rd;
  }

  /** `nb_send` of the buffer at the front of the queue. */
  method SendFront(pool: Pool, c: Conn) returns (rc: int)
    requires Apart(pool, c) && c.wr != null
    modifies c`out, c`sends, c.wr`sendindex
    ensures Apart(pool, c) && Together(pool, c) == old(Together(pool, c)) && c.Value().waiting != []
    ensures var l, first := old(c.Value()), old(c.Value().waiting[0]);
            var s := Sending(|first|, l.sends);
            && rc == s.rc
            && c.Value()
               == l.(out := l.out + first[..s.count], sends := s.sends, waiting := [first[s.count..]] + l.waiting[1..])
  {
    hide Segment, Bounded, Unsent, Sending;
    HeldApart(pool, c);
    EmptyChain(c.wr, c.queue);
    ghost var v, rest := c.Value(), c.queue[1..];
    assert c.wr in c.queue;
    assert v.waiting == [Unsent(c.wr)] + Waiting(rest);
    rc := c.NbSend(c.wr);
    assert Waiting(rest) == v.waiting[1..];
    assert Waiting(c.queue) == [Unsent(c.wr)] + Waiting(rest);
    assert ReaderOf(c.rd) == v.rd;
  }

  /** The socket takes more: buffers are sent from the front of the queue. */
  method WriteReady(pool: Pool, c: Conn) returns (rc: int)
    requires Apart(pool, c) && c.wr != null
    modifies pool, c`wr, c`queue, c`out, c`sends, c`armed, c.queue
    ensures Apart(pool, c) && Together(pool, c) == old(Together(pool, c))
    ensures Step(c.Value(), rc) == Writing(old(c.Value()))
  {
    hide Segment, Unsent, Waiting, Sending, Bounded, Writing, Conn.Value;
    ghost var together, queue, v := Together(pool, c), c.queue, c.Value();
    while true
      invariant Apart(pool, c) && Together(pool, c) == together && c.wr != null
      invariant forall b <- c.queue :: b in queue
      invariant Writing(c.Value()) == Writing(v)
      modifies pool, c`wr, c`queue, c`out, c`sends, c`armed, queue
      decreases |c.queue|
    {
      FrontHeld(c);
      WritingStep(c.Value());
      rc := SendFront(pool, c);
      if rc != 0 {
        return;
      }
      Dequeue(pool, c);
      FrontHeld(c);
      if c.wr == null {
        SetArmed(pool, c, false);
        return;
      }
    }
  }

  lemma FrontHeld(c: Conn)
    requires c.Valid()
    ensures c.wr == null <==> c.Value().waiting == []
    ensures c.wr != null ==> c.wr in c.queue
  {
    EmptyChain(c.wr, c.queue);
  }

  lemma WritingStep(l: Link)
    requires l.waiting != []
    ensures var first := l.waiting[0];
            var s := Sending(|first|, l.sends);
            var l' := l.(out := l.out + first[..s.count], sends := s.sends);
            && (s.rc != 0 ==> Writing(l) == Step(l'.(waiting := [first[s.count..]] + l.waiting[1..]), s.rc))
            && (s.rc == 0 ==>
                  Writing(l)
                  == if |l.waiting| == 1 then Step(l'.(waiting := [], armed := false), 0)
                     else Writing(l'.(waiting := l.waiting[1..])))
            && ([first[s.count..]] + l.waiting[1..])[1..] == l.waiting[1..]
  {
    hide Sending;
  }

  /** What `epoll_ctl` is told. */
  method SetArmed(pool: Pool, c: Conn, armed: bool)
    requires Apart(pool, c)
    modifies c`armed
    ensures Apart(pool, c) && Together(pool, c) == old(Together(pool, c))
    ensures c.Value() == old(c.Value()).(armed := armed)
  {
    hide Segment, Waiting, Bounded;
    c.armed := armed;
  }

  /** `close_event` */
  method CloseEvent(pool: Pool, c: Conn)
    requires Apart(pool, c)
    modifies pool, c`rd, c`wr, c`queue, c`armed, c.Own()`next
    ensures Apart(pool, c) && Together(pool, c) == old(Together(pool, c))
    ensures Outcome(c.Value(), false) == Closed(old(c.Value()))
  {
    hide Segment, Bounded, Conn.Value;
    ReaderHeld(c);
    if c.rd != null {
      CloseReading(pool, c);
    }
    FrontHeld(c);
    if c.wr != null {
      CloseWriting(pool, c);
    }
    SetArmed(pool, c, false);
  }

  lemma ReaderHeld(c: Conn)
    ensures c.rd == null <==> c.Value().rd.NoBuffer?
  {
  }

  method CloseReading(pool: Pool, c: Conn)
    requires Apart(pool, c) && c.rd != null
    modifies pool, c`rd, c.rd`next
    ensures Apart(pool, c) && Together(pool, c) == old(Together(pool, c)) && c.rd == null
    ensures c.Value() == old(c.Value()).(rd := NoBuffer) && c.wr == old(c.wr) && c.queue == old(c.queue)
  {
    hide Segment, Bounded, Unsent, Waiting;
    HeldApart(pool, c);
    LinkedAlone(c.rd);
    ghost var waiting := Waiting(c.queue);
    pool.Repool(c.rd, [c.rd]);
    assert Waiting(c.queue) == waiting;
    c.rd := null;
  }

  method CloseWriting(pool: Pool, c: Conn)
    requires Apart(pool, c) && c.wr != null && c.rd == null
    modifies pool, c`wr, c`queue, c.queue`next
    ensures Apart(pool, c) && Together(pool, c) == old(Together(pool, c))
    ensures c.Value() == old(c.Value()).(waiting := [])
  {
    hide Segment, Bounded;
    HeldApart(pool, c);
    ghost var queue := c.queue;
    pool.Repool(c.wr, c.queue);
    c.wr, c.queue := null, [];
    EmptyLinked();
  }

  lemma EmptyLinked()
    ensures Linked(null, []) && Members([]) == {}
  {
  }

  function Min(a: nat, b: nat): nat {
    if a < b then a else b
  }

  /** The read buffer, from the pool if there is none. */
  method ReadBuffer(pool: Pool, c: Conn) returns (ok: bool)
    requires Apart(pool, c)
    modifies pool, c`rd, pool.stack
    ensures Apart(pool, c) && Together(pool, c) == old(Together(pool, c)) && (ok <==> c.rd != null)
    ensures var l := old(c.Value());
            && ok == !(l.rd.NoBuffer? && Slots(l) >= |old(Together(pool, c))|)
            && c.Value() == if ok then l.(rd := Holding(Left(l))) else l
  {
    hide Segment, Bounded, Conn.Value, Together, Apart, Slots;
    RoomIsTogether(pool, c);
    ReaderHeld(c);
    if c.rd == null {
      NewReadBuffer(pool, c);
    }
    ok := c.rd != null;
  }

  method NewReadBuffer(pool: Pool, c: Conn)
    requires Apart(pool, c) && c.rd == null
    modifies pool, c`rd, pool.stack
    ensures Apart(pool, c) && Together(pool, c) == old(Together(pool, c))
    ensures c.rd == null <==> old(pool.free) == []
    ensures c.Value() == if old(pool.free) == [] then old(c.Value()) else old(c.Value()).(rd := Holding([]))
  {
    hide Segment, Unsent, Waiting, Bounded;
    HeldApart(pool, c);
    EmptyChain(pool.stack, pool.free);
    ghost var waiting := Waiting(c.queue);
    var b := pool.Get();
    c.rd := b;
    assert Waiting(c.queue) == waiting;
  }

  /** `read` puts a chunk behind what is in the buffer. */
  method Receive(pool: Pool, c: Conn, chunk: seq<byte>)
    requires Apart(pool, c) && c.rd != null && c.rd.index + |chunk| <= MAX_MB_BUFFER_LEN
    modifies c.rd`data, c.rd`index, c`chunks
    ensures Apart(pool, c) && Together(pool, c) == old(Together(pool, c))
    ensures var l := old(c.Value());
            c.Value() == l.(rd := Holding(Left(l) + chunk), chunks := l.chunks + [chunk])
  {
    hide Segment, Bounded;
    ghost var waiting := Waiting(c.queue);
    HeldApart(pool, c);
    var b := c.rd;
    b.data := b.data[..b.index] + chunk + b.data[b.index + |chunk|..];
    b.index := b.index + |chunk|;
    c.chunks := c.chunks + [chunk];
    assert Waiting(c.queue) == waiting;
  }

  /** One read with something to take, and `parse_buffer` with what the loop makes of its result. */
  method Take(pool: Pool, c: Conn, chunk: seq<byte>) returns (open: bool)
    requires Apart(pool, c) && c.rd != null && c.rd.index + |chunk| <= MAX_MB_BUFFER_LEN
    modifies pool, c, Together(pool, c)
    ensures Apart(pool, c) && Together(pool, c) == old(Together(pool, c))
    ensures Outcome(c.Value(), open) == Taken(old(c.Value()), |old(Together(pool, c))|, chunk, c.reply)
  {
    hide Segment, Parsing, Bounded, Conn.Value;
    StackHeld(pool, c);
    Receive(pool, c, chunk);
    var rc := ParseBuffer(pool, c);
    open := rc >= 0;
    StackHeld(pool, c);
    if rc < 0 {
      CloseEvent(pool, c);
    } else if rc > 0 {
      SetArmed(pool, c, true);
    }
  }

  /** The reading loop: `arrived` is what the socket has, and `eof` says that nothing will follow. Each turn reads as
      much as there is room for; it goes on as long as there is that much. */
  method ReadReady(pool: Pool, c: Conn, arrived: seq<byte>, eof: bool) returns (open: bool)
    requires Apart(pool, c)
    modifies pool, c, Together(pool, c)
    ensures Apart(pool, c) && Together(pool, c) == old(Together(pool, c))
    ensures Outcome(c.Value(), open) == Reading(old(c.Value()), |old(Together(pool, c))|, arrived, eof, c.reply)
  {
    hide Segment, Unsent, Waiting, Bounded, Taken, Apart, Together, Slots;
    ghost var together, room, v := Together(pool, c), |Together(pool, c)|, c.Value();
    var rest := arrived;
    while true
      invariant Apart(pool, c) && Together(pool, c) == together
      invariant Reading(c.Value(), room, rest, eof, c.reply) == Reading(v, room, arrived, eof, c.reply)
      decreases |rest|
    {
      StackHeld(pool, c);
      LeftIs(pool, c);
      ghost var l := c.Value();
      var ok := ReadBuffer(pool, c);
      if !ok {
        return true;
      }
      LeftIs(pool, c);
      TakenHolding(l, room, rest, c.reply);
      StackHeld(pool, c);
      var wanted := MAX_MB_BUFFER_LEN - c.rd.index;
      if wanted > 0 && rest == [] && !eof {
        return true;
      }
      if wanted == 0 || rest == [] {
        CloseEvent(pool, c);
        return false;
      }
      if |rest| < wanted {
        open := Take(pool, c, rest);
        return;
      }
      TakenHolding(l, room, rest[..wanted], c.reply);
      open := Take(pool, c, rest[..wanted]);
      if !open {
        return;
      }
      rest := rest[wanted..];
    }
  }

  lemma LeftIs(pool: Pool, c: Conn)
    requires Apart(pool, c)
    ensures if c.rd == null then c.Value().rd.NoBuffer? else |Left(c.Value())| == c.rd.index <= MAX_MB_BUFFER_LEN
    ensures c.rd != null ==> c.rd in Together(pool, c)
  {
  }

  lemma TakenHolding(l: Link, room: int, chunk: seq<byte>, reply: Replies)
    ensures Taken(l.(rd := Holding(Left(l))), room, chunk, reply) == Taken(l, room, chunk, reply)
    ensures Closed(l.(rd := Holding(Left(l)))) == Closed(l)
  {
  }

  // ----- all connections -----

  /** One event of one connection. */
  method Dispatch(pool: Pool, c: Conn, e: Event) returns (open: bool)
    requires Apart(pool, c) && (c.armed ==> c.wr != null)
    modifies pool, c, Together(pool, c)
    ensures Apart(pool, c) && Together(pool, c) == old(Together(pool, c))
    ensures Outcome(c.Value(), open) == Handling(old(c.Value()), |old(Together(pool, c))|, e, c.reply)
  {
    hide Segment, Unsent, Waiting, Bounded, Reading, Writing;
    StackHeld(pool, c);
    if !(e.failed || e.readable || (e.writable && c.armed)) {
      return true;
    }
    if e.failed || !e.readable {
      CloseEvent(pool, c);
      return false;
    }
    var rc := 0;
    if e.writable && c.armed {
      rc := WriteReady(pool, c);
    }
    StackHeld(pool, c);
    if rc < 0 {
      CloseEvent(pool, c);
      return false;
    }
    open := ReadReady(pool, c, e.arrived, e.eof);
  }

  ghost function Held(conns: set<Conn>): set<Buffer>
    reads conns
  {
    set c, b | c in conns && b in c.Own() :: b
  }

  /** What is true of every open connection. */
  ghost predicate Sound(c: Conn)
    reads c, c.Own()
  {
    (forall b <- c.queue :: b in c.Own()) && c.Valid() && Kept(c.Value(), c.reply)
  }

  ghost predicate PoolSound(pool: Pool)
    reads pool, pool.free
  {
    pool.Valid() && forall b <- pool.free :: |b.data| == MAX_MB_BUFFER_LEN
  }

  /** The connections hold different buffers, none of them free. */
  ghost predicate Separate(free: set<Buffer>, conns: set<Conn>)
    reads conns
  {
    && (forall c <- conns :: c.Own() !! free)
    && (forall c, d | c in conns && d in conns && c != d :: c.Own() !! d.Own())
  }

  lemma HeldUnion(conns: set<Conn>, c: Conn)
    ensures Held(conns + {c}) == Held(conns) + c.Own()
    ensures forall d <- conns :: d.Own() <= Held(conns)
  {
  }

  lemma SeparateUnion(free: set<Buffer>, conns: set<Conn>, c: Conn)
    requires c !in conns
    ensures Separate(free, conns + {c}) <==>
              Separate(free, conns) && c.Own() !! free && c.Own() !! Held(conns)
  {
    HeldUnion(conns, c);
    if Separate(free, conns + {c}) {
      forall d <- conns
        ensures c.Own() !! d.Own()
      {
        assert c in conns + {c} && d in conns + {c};
      }
    }
  }

  lemma SeparateFrom(free: set<Buffer>, conns: set<Conn>)
    requires Separate(free, conns)
    ensures Held(conns) !! free
  {
  }

  lemma SeparateAgain(free: set<Buffer>, conns: set<Conn>, others: set<Buffer>)
    requires Separate(others, conns) && free !! Held(conns)
    ensures Separate(free, conns)
  {
    forall c <- conns
      ensures c.Own() !! free
    {
      HeldUnion(conns - {c}, c);
      assert conns - {c} + {c} == conns;
    }
  }

  lemma SoundIsApart(pool: Pool, c: Conn)
    requires PoolSound(pool) && Sound(c) && c.Own() !! Members(pool.free)
    ensures Apart(pool, c) && Kept(c.Value(), c.reply) && (c.armed ==> c.wr != null)
  {
    FrontHeld(c);
    assert Kept(c.Value(), c.reply);
    hide Kept;
    KeptArmed(c.Value(), c.reply);
  }

  lemma KeptArmed(l: Link, reply: Replies)
    requires Kept(l, reply)
    ensures l.armed ==> l.waiting != []
  {
  }

  lemma ApartIsSound(pool: Pool, c: Conn)
    requires Apart(pool, c)
    ensures PoolSound(pool) && c.Own() !! Members(pool.free) && (Kept(c.Value(), c.reply) ==> Sound(c))
  {
    hide Kept;
    StackHeld(pool, c);
    ValidIsSound(c);
  }

  lemma ValidIsSound(c: Conn)
    requires c.Valid()
    ensures Kept(c.Value(), c.reply) ==> Sound(c)
  {
    hide Kept;
    forall b <- c.queue
      ensures b in c.Own()
    {
      assert b in Members(c.queue);
    }
  }

  ghost predicate AllSound(free: set<Buffer>, conns: set<Conn>, buffers: set<Buffer>)
    reads conns, Held(conns)
  {
    && (forall c <- conns :: c.Own() <= Held(conns) && Sound(c))
    && Separate(free, conns) && free + Held(conns) == buffers
  }

  lemma AllSoundUnion(free: set<Buffer>, others: set<Conn>, c: Conn, buffers: set<Buffer>)
    requires c !in others
    ensures AllSound(free, others + {c}, buffers) <==>
              && (forall d <- others :: d.Own() <= Held(others) && Sound(d)) && Sound(c)
              && Separate(free, others) && c.Own() !! free && c.Own() !! Held(others)
              && free + c.Own() + Held(others) == buffers
  {
    hide Sound, Separate, Held;
    HeldUnion(others, c);
    SeparateUnion(free, others, c);
  }

  lemma AllSoundParts(free: set<Buffer>, conns: set<Conn>, buffers: set<Buffer>)
    ensures AllSound(free, conns, buffers) <==>
              && (forall d <- conns :: d.Own() <= Held(conns) && Sound(d))
              && Separate(free, conns) && free + Held(conns) == buffers
  {
  }

  /** What one connection does leaves the others as they are. */
  method DispatchAmong(pool: Pool, c: Conn, e: Event, ghost others: set<Conn>) returns (open: bool)
    requires Apart(pool, c) && (c.armed ==> c.wr != null)
    requires c !in others && Separate(Members(pool.free), others) && c.Own() !! Held(others)
    requires forall d <- others :: Sound(d) && d.Own() <= Held(others)
    modifies pool, c, Together(pool, c)
    ensures Apart(pool, c) && Together(pool, c) == old(Together(pool, c))
    ensures Outcome(c.Value(), open) == Handling(old(c.Value()), |old(Together(pool, c))|, e, c.reply)
    ensures Held(others) == old(Held(others)) && Separate(Members(pool.free), others)
    ensures forall d <- others :: Sound(d) && d.Own() <= Held(others) && d.Value() == old(d.Value())
  {
    hide Sound, PoolSound, Separate, Held, Apart, Handling, Bounded, Conn.Value, Together;
    TogetherIs(pool, c);
    SeparateFrom(Members(pool.free), others);
    ghost var held, free := Held(others), Members(pool.free);
    forall d <- others
      ensures (forall b <- d.queue :: b in held) && (d.rd != null ==> d.rd in held)
    {
      SoundHolds(d);
    }
    assert held !! Together(pool, c);
    open := Dispatch(pool, c, e);
    assert Held(others) == held && Separate(free, others);
    TogetherIs(pool, c);
    SeparateAgain(Members(pool.free), others, free);
  }

  lemma SoundHolds(d: Conn)
    requires Sound(d)
    ensures (forall b <- d.queue :: b in d.Own()) && (d.rd != null ==> d.rd in d.Own())
  {
  }

  /** The server: the pool, and the connections that are open. */
  class Server {
    const pool: Pool
    ghost const buffers: set<Buffer>
    var conns: set<Conn>

    /** Every buffer is in exactly one place: free, being read into, or waiting to be sent. */
    ghost predicate Valid()
      reads this, pool, pool.free, conns, Held(conns)
    {
      PoolSound(pool) && AllSound(Members(pool.free), conns, buffers)
    }

    constructor ()
      ensures Valid() && conns == {} && fresh(pool) && fresh(buffers) && |buffers| == |pool.free| == BUFFERS
    {
      var p := new Pool();
      pool := p;
      conns := {};
      buffers := Members(p.free);
      ChainCounts(p.stack, p.free);
    }

    method Accept(reply: Replies, sends: seq<int>) returns (c: Conn)
      requires Valid() && Bounded(reply)
      modifies this`conns
      ensures Valid() && fresh(c) && conns == old(conns) + {c} && c.reply == reply && c.Value() == Opened(sends)
    {
      hide Sound, PoolSound, Separate, Held, AllSound, Bounded, Kept;
      ghost var before, held := conns, Held(conns);
      AllSoundParts(Members(pool.free), before, buffers);
      c := new Conn(reply, sends);
      OpenedKept(sends, reply);
      conns := conns + {c};
      ValidIsSound(c);
      assert Held(before) == held && Separate(Members(pool.free), before);
      assert forall d <- before :: d.Own() <= held && Sound(d);
      assert Members(pool.free) + c.Own() + held == buffers;
      AllSoundUnion(Members(pool.free), before, c, buffers);
      assert AllSound(Members(pool.free), conns, buffers);
      assert PoolSound(pool);
    }

    /** One event of one connection; a closed connection leaves the list. */
    method Handle(c: Conn, e: Event) returns (open: bool)
      requires Valid() && c in conns
      modifies this`conns, pool, c, buffers
      ensures Valid() && conns == if open then old(conns) else old(conns) - {c}
      ensures Outcome(c.Value(), open)
              == Handling(old(c.Value()), |old(pool.free)| + Slots(old(c.Value())), e, c.reply)
      ensures |pool.free| + Slots(c.Value()) == |old(pool.free)| + Slots(old(c.Value()))
      ensures forall d <- old(conns) - {c} :: d.Value() == old(d.Value())
    {
      hide Sound, PoolSound, Separate, Held, Apart, AllSound, Kept, Handling, Conn.Value, Conn.Own, Bounded, Slots,
        Together, KeptOrEnded;
      ghost var others, l := conns - {c}, c.Value();
      assert conns == others + {c};
      AllSoundUnion(Members(pool.free), others, c, buffers);
      SoundIsApart(pool, c);
      SeparateFrom(Members(pool.free), others);
      RoomIsTogether(pool, c);
      HandlingKeeps(l, |Together(pool, c)|, e, c.reply);
      TogetherIs(pool, c);
      open := DispatchAmong(pool, c, e, others);
      RoomIsTogether(pool, c);
      AllSoundAgain(pool, c, open, others, buffers);
      if !open {
        conns := conns - {c};
      }
    }
  }

  lemma TogetherIs(pool: Pool, c: Conn)
    ensures Together(pool, c) == Members(pool.free) + c.Own()
  {
  }

  lemma AllSoundAgain(pool: Pool, c: Conn, open: bool, others: set<Conn>, buffers: set<Buffer>)
    requires Apart(pool, c) && KeptOrEnded(Outcome(c.Value(), open), c.reply) && c !in others
    requires Separate(Members(pool.free), others) && forall d <- others :: Sound(d) && d.Own() <= Held(others)
    requires Together(pool, c) !! Held(others) && buffers == Together(pool, c) + Held(others)
    ensures PoolSound(pool) && AllSound(Members(pool.free), if open then others + {c} else others, buffers)
  {
    hide Sound, PoolSound, Separate, Held, Apart, AllSound, Kept, Ended, Conn.Value, Conn.Own, Together;
    ApartIsSound(pool, c);
    TogetherIs(pool, c);
    if open {
      AllSoundUnion(Members(pool.free), others, c, buffers);
    } else {
      EndedOwnsNothing(pool, c);
      AllSoundParts(Members(pool.free), others, buffers);
    }
  }

  lemma EndedOwnsNothing(pool: Pool, c: Conn)
    requires Ended(c.Value(), c.reply)
    ensures c.Own() == {} && Together(pool, c) == Members(pool.free) && c.queue == [] && c.rd == null
  {
  }

  /** The connection is what the model on values says. */
  ghost predicate Mirrors(server: Server, c: Conn, client: Client)
    reads server, c, c.queue, c.rd
  {
    c.reply == client.reply && c.Value() == client.link && (c in server.conns <==> client.open)
  }

  lemma ClosedHoldsNothing(server: Server, c: Conn, client: Client)
    requires Mirrors(server, c, client) && ClientKept(client) && !client.open
    ensures c.queue == [] && c.rd == null
  {
  }

  /** What concerns one connection does to it what the model says, and nothing to the others. */
  method Concern(server: Server, accepted: seq<Conn>, k: nat, e: Event, ghost net: Net)
    requires server.Valid() && k < |accepted| == |net.clients| && accepted[k] in server.conns
    requires |server.pool.free| == net.free
    requires forall i | 0 <= i < |accepted| :: Mirrors(server, accepted[i], net.clients[i]) && ClientKept(net.clients[i])
    requires forall i, j | 0 <= i < j < |accepted| :: accepted[i] != accepted[j]
    modifies server`conns, server.pool, accepted[k], server.buffers
    ensures server.Valid() && server.conns <= old(server.conns)
    ensures var after := Happens(net, Concerns(k, e));
            && |server.pool.free| == after.free && |after.clients| == |accepted|
            && forall i | 0 <= i < |accepted| :: Mirrors(server, accepted[i], after.clients[i])
  {
    hide AllSound, PoolSound, Handling, Bounded, Conn.Value, Slots, KeptOrEnded;
    ghost var c, client := accepted[k], net.clients[k];
    assert Mirrors(server, c, client);
    forall i | 0 <= i < |accepted| && !net.clients[i].open
      ensures accepted[i].queue == [] && accepted[i].rd == null
    {
      ClosedHoldsNothing(server, accepted[i], net.clients[i]);
    }
    var open := server.Handle(accepted[k], e);
    forall i | 0 <= i < |accepted| && i != k
      ensures Mirrors(server, accepted[i], net.clients[i])
    {
      assert old(Mirrors(server, accepted[i], net.clients[i]));
      assert accepted[i] != c;
    }
  }

  /** Any run of the event loop of a new server: connections open, and things happen to those that are open. Every
      buffer stays in exactly one place, and every connection does what the model on values says. */
  method EventLoop(run: seq<Happening>) returns (server: Server, accepted: seq<Conn>)
    requires forall h <- run :: h.Opens? ==> Bounded(h.reply)
    ensures server.Valid() && |server.buffers| == BUFFERS
    ensures var net := AfterRun(run);
            && |server.pool.free| == net.free && |accepted| == |net.clients|
            && (forall k | 0 <= k < |accepted| :: Mirrors(server, accepted[k], net.clients[k]))
    ensures forall c <- server.conns :: c in accepted
  {
    hide AllSound, PoolSound, Handling, Bounded, Conn.Value, Slots, Opened, ClientKept;
    server := new Server();
    accepted := [];
    for i := 0 to |run|
      invariant server.Valid() && fresh(server) && fresh(server.pool) && fresh(server.buffers)
      invariant |server.buffers| == BUFFERS && forall c <- accepted :: fresh(c)
      invariant |server.pool.free| == AfterRun(run[..i]).free && |accepted| == |AfterRun(run[..i]).clients|
      invariant forall k | 0 <= k < |accepted| :: Mirrors(server, accepted[k], AfterRun(run[..i]).clients[k])
      invariant forall c <- server.conns :: c in accepted
      invariant forall k, j | 0 <= k < j < |accepted| :: accepted[k] != accepted[j]
    {
      assert run[..i + 1][..i] == run[..i];
      ghost var net := AfterRun(run[..i]);
      match run[i]
      case Opens(reply, sends) =>
        assert Bounded(run[i].reply);
        var c := server.Accept(reply, sends);
        accepted := accepted + [c];
      case Concerns(k, e) =>
        if k < |accepted| && accepted[k] in server.conns {
          RunKeeps(run[..i]);
          assert accepted[k] in accepted;
          Concern(server, accepted, k, e, net);
        }
    }
    assert run[..|run|] == run;
  }
}
