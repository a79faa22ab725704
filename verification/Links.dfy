/** What the TCP server does with its connections, on values: requests are cut out of what is read, answers are sent as
    far as the socket takes them and queued otherwise, and the event loop goes by what it is told. */
module Links {
  import opened Bytes
  import opened Transport
  import opened RequestSplit

  /** All buffers of the server. */
  const BUFFERS := 129

  /** What is answered to the requests of a connection, by number. What the boards answer may depend on all that
      other connections wrote before; each connection has a function of its own. */
  type Replies = (nat, seq<byte>) -> seq<byte>

  function AnswersTo(reply: Replies, passed: seq<seq<byte>>): seq<byte> {
    if passed == [] then []
    else
      var last := |passed| - 1;
      AnswersTo(reply, passed[..last]) + reply(last, passed[last])
  }

  // ----- one connection -----

  datatype Reader = NoBuffer | Holding(bytes: seq<byte>)

  /** A connection: the buffer being read into, the unsent parts of the buffers in the write queue, what the socket
      took, what becomes of the next calls of `send` (the number of bytes taken, 0 for EAGAIN, negative for an error;
      then all is taken), the requests that were passed on, the chunks that were read, and whether the loop waits for
      EPOLLOUT. */
  datatype Link = Link(rd: Reader, waiting: seq<seq<byte>>, out: seq<byte>, sends: seq<int>, passed: seq<seq<byte>>,
                       chunks: seq<seq<byte>>, armed: bool)

  function Opened(sends: seq<int>): Link {
    Link(NoBuffer, [], [], sends, [], [], false)
  }

  function Left(l: Link): seq<byte> {
    if l.rd.NoBuffer? then [] else l.rd.bytes
  }

  /** The number of buffers the connection holds. */
  function Slots(l: Link): nat {
    |l.waiting| + if l.rd.NoBuffer? then 0 else 1
  }

  datatype Sent = Sent(count: nat, rc: int, sends: seq<int>)

  /** `nb_send` of `n` bytes. */
  function Sending(n: nat, sends: seq<int>): (s: Sent)
    ensures s.count <= n && -1 <= s.rc <= 1 && (s.rc == 0 <==> s.count == n)
    decreases |sends|
  {
    if n == 0 then Sent(0, 0, sends)
    else if sends == [] then Sent(n, 0, [])
    else if sends[0] <= 0 then Sent(0, if sends[0] == 0 then 1 else -1, sends[1..])
    else if sends[0] >= n then Sent(n, 0, sends[1..])
    else
      var s := Sending(n - sends[0], sends[1..]);
      Sent(sends[0] + s.count, s.rc, s.sends)
  }

  datatype Step = Step(l: Link, rc: int)

  /** An answer is sent, or queued behind others; of one that is sent partially the rest is queued, and 1 returned. */
  function Offering(l: Link, answer: seq<byte>): Step {
    if answer == [] then Step(l, 0)
    else if l.waiting != [] then Step(l.(waiting := l.waiting + [answer]), 0)
    else
      var s := Sending(|answer|, l.sends);
      var l' := l.(out := l.out + answer[..s.count], sends := s.sends);
      Step(if s.rc > 0 then l'.(waiting := [answer[s.count..]]) else l', s.rc)
  }

  /** The first `n` bytes of the read buffer are a request; what is behind them goes to another buffer. */
  function Taking(l: Link, n: nat, reply: Replies): Step
    requires n <= |Left(l)|
  {
    var left := Left(l);
    var rd := if n < |left| then Holding(left[n..]) else NoBuffer;
    Offering(l.(rd := rd, passed := l.passed + [left[..n]]), reply(|l.passed|, left[..n]))
  }

  /** `parse_buffer`, where the connection could hold `room` buffers at most. */
  function Parsing(l: Link, room: int, reply: Replies, result: int): (s: Step)
    decreases |Left(l)|
  {
    if l.rd.NoBuffer? then Step(l, 0)
    else
      var n := ReqLen(Left(l));
      if n == 0 then Step(l, result)
      else if n < |Left(l)| && Slots(l) >= room then Step(l, -1)
      else
        var t := Taking(l, n, reply);
        if t.rc < 0 then t else Parsing(t.l, room, reply, if t.rc > 0 then 1 else result)
  }

  datatype Outcome = Outcome(l: Link, open: bool)

  /** `close_event`: the buffers go back, with what is in them. */
  function Closed(l: Link): Outcome {
    Outcome(l.(rd := NoBuffer, waiting := [], armed := false), false)
  }

  /** A chunk is read and parsed; the loop asks for EPOLLOUT if `parse_buffer` wants it. */
  function Taken(l: Link, room: int, chunk: seq<byte>, reply: Replies): Outcome {
    var s := Parsing(l.(rd := Holding(Left(l) + chunk), chunks := l.chunks + [chunk]), room, reply, 0);
    if s.rc < 0 then Closed(s.l) else Outcome(s.l.(armed := s.l.armed || s.rc > 0), true)
  }

  /** The reading loop: `arrived` is what the socket has, and `eof` says that nothing will follow it. A full buffer reads
      as the end of the stream; without a free buffer nothing is read. */
  function Reading(l: Link, room: int, arrived: seq<byte>, eof: bool, reply: Replies): Outcome
    decreases |arrived|
  {
    if l.rd.NoBuffer? && Slots(l) >= room then Outcome(l, true)
    else if |Left(l)| >= MAX_TCP_ADU || (arrived == [] && eof) then Closed(l)
    else if arrived == [] then Outcome(l.(rd := Holding(Left(l))), true)
    else
      var wanted := MAX_TCP_ADU - |Left(l)|;
      if |arrived| < wanted then Taken(l, room, arrived, reply)
      else
        var o := Taken(l, room, arrived[..wanted], reply);
        if o.open then Reading(o.l, room, arrived[wanted..], eof, reply) else o
  }

  /** The loop that sends from the front of the queue, with the assignment that the source has a comparison for. When
      the queue is empty, EPOLLOUT is no longer asked for. */
  function Writing(l: Link): (s: Step)
    ensures -1 <= s.rc <= 1
    decreases |l.waiting|
  {
    if l.waiting == [] then Step(l, 0)
    else
      var first := l.waiting[0];
      var s := Sending(|first|, l.sends);
      var l' := l.(out := l.out + first[..s.count], sends := s.sends);
      if s.rc != 0 then Step(l'.(waiting := [first[s.count..]] + l.waiting[1..]), s.rc)
      else if |l.waiting| == 1 then Step(l'.(waiting := [], armed := false), 0)
      else Writing(l'.(waiting := l.waiting[1..]))
  }

  /** What `epoll_wait` says about a connection, with what there is to read: EPOLLIN, EPOLLOUT, and EPOLLERR or
      EPOLLHUP. */
  datatype Event = Event(readable: bool, writable: bool, failed: bool, arrived: seq<byte>, eof: bool)

  /** EPOLLOUT is told only where it was asked for. */
  predicate Reported(l: Link, e: Event) {
    e.failed || e.readable || (e.writable && l.armed)
  }

  /** One event of a connection. Everything but EPOLLIN, alone or with EPOLLOUT, closes it. */
  function Handling(l: Link, room: int, e: Event, reply: Replies): Outcome {
    if !Reported(l, e) then Outcome(l, true)
    else if e.failed || !e.readable then Closed(l)
    else
      var s := if e.writable && l.armed then Writing(l) else Step(l, 0);
      if s.rc < 0 then Closed(s.l) else Reading(s.l, room, e.arrived, e.eof, reply)
  }

  // ----- all connections -----

  datatype Client = Client(reply: Replies, link: Link, open: bool)

  datatype Net = Net(free: int, clients: seq<Client>)

  datatype Happening = Opens(reply: Replies, sends: seq<int>) | Concerns(k: nat, event: Event)

  function Happens(net: Net, h: Happening): Net {
    match h
    case Opens(reply, sends) => net.(clients := net.clients + [Client(reply, Opened(sends), true)])
    case Concerns(k, event) =>
      if k >= |net.clients| || !net.clients[k].open then net
      else
        var c := net.clients[k];
        var o := Handling(c.link, net.free + Slots(c.link), event, c.reply);
        Net(net.free + Slots(c.link) - Slots(o.l), net.clients[k := Client(c.reply, o.l, o.open)])
  }

  /** A new server after a run of its event loop. */
  function AfterRun(run: seq<Happening>): Net {
    if run == [] then Net(BUFFERS, []) else Happens(AfterRun(run[..|run| - 1]), run[|run| - 1])
  }

  // ----- sending -----

  function Sum(s: seq<int>): int {
    if s == [] then 0 else s[0] + Sum(s[1..])
  }

  /** The socket takes something `k` times, and then nothing before it took `n` bytes. */
  predicate RefusesAt(n: nat, sends: seq<int>, k: nat) {
    k < |sends| && sends[k] == 0 && (forall i | 0 <= i < k :: sends[i] > 0) && Sum(sends[..k]) < n
  }

  /** A send is partial exactly when the socket refuses before it took the whole. */
  lemma {:induction false} PartialSend(n: nat, sends: seq<int>)
    ensures Sending(n, sends).rc == 1 <==> exists k: nat :: RefusesAt(n, sends, k)
    decreases |sends|
  {
    if n > 0 && sends != [] && sends[0] > 0 {
      forall k: nat | 0 < k <= |sends|
        ensures Sum(sends[..k]) == sends[0] + Sum(sends[1..][..k - 1])
      {
        assert sends[..k][1..] == sends[1..][..k - 1];
      }
      if sends[0] < n {
        var more, rest := n - sends[0], sends[1..];
        PartialSend(more, rest);
        if k: nat :| RefusesAt(more, rest, k) {
          assert RefusesAt(n, sends, k + 1);
        }
        if k: nat :| RefusesAt(n, sends, k) {
          assert RefusesAt(more, rest, k - 1);
        }
      } else {
        forall k: nat
          ensures !RefusesAt(n, sends, k)
        {
          if 0 < k < |sends| && forall i | 0 <= i < k :: sends[i] > 0 {
            SumPositive(sends[1..][..k - 1]);
          }
        }
      }
    } else if n > 0 && sends != [] && sends[0] == 0 {
      assert RefusesAt(n, sends, 0);
    } else {
      forall k: nat
        ensures !RefusesAt(n, sends, k)
      {
        if k < |sends| && forall i | 0 <= i < k :: sends[i] > 0 {
          SumPositive(sends[..k]);
        }
      }
    }
  }

  lemma {:induction false} SumPositive(s: seq<int>)
    requires forall i | 0 <= i < |s| :: s[i] > 0
    ensures Sum(s) >= 0
  {
    if s != [] {
      SumPositive(s[1..]);
    }
  }

  // ----- order and completeness -----

  lemma {:induction false} FlattenedConcat(a: seq<seq<byte>>, b: seq<seq<byte>>)
    ensures Flattened(a + b) == Flattened(a) + Flattened(b)
    decreases |a|
  {
    if a == [] {
      assert a + b == b;
    } else {
      assert (a + b)[1..] == a[1..] + b;
      FlattenedConcat(a[1..], b);
    }
  }

  lemma FlattenedOne(w: seq<byte>)
    ensures Flattened([w]) == w && Flattened([]) == []
  {
    assert [w][1..] == [];
  }

  lemma AnswersGrow(reply: Replies, passed: seq<seq<byte>>, request: seq<byte>)
    ensures AnswersTo(reply, passed + [request]) == AnswersTo(reply, passed) + reply(|passed|, request)
  {
    assert (passed + [request])[..|passed|] == passed;
  }

  predicate NoneEmpty(waiting: seq<seq<byte>>) {
    forall w <- waiting :: w != []
  }

  /** What was sent and what is queued are the answers, in the order of the requests. */
  predicate InOrder(l: Link, reply: Replies) {
    l.out + Flattened(l.waiting) == AnswersTo(reply, l.passed) && NoneEmpty(l.waiting)
  }

  lemma OfferingKeeps(l: Link, answer: seq<byte>)
    requires NoneEmpty(l.waiting)
    ensures var s := Offering(l, answer);
            && -1 <= s.rc <= 1 && NoneEmpty(s.l.waiting)
            && s.l == l.(out := s.l.out, waiting := s.l.waiting, sends := s.l.sends)
            && (if s.rc >= 0 then s.l.out + Flattened(s.l.waiting) == l.out + Flattened(l.waiting) + answer
                else s.l.out <= l.out + answer && l.waiting == [])
            && (s.rc == 1 <==> s.rc >= 0 && l.waiting == [] && s.l.waiting != [])
            && (l.waiting != [] ==> s.l.out == l.out && l.waiting <= s.l.waiting)
  {
    FlattenedConcat(l.waiting, [answer]);
    FlattenedOne(answer);
    var n := Sending(|answer|, l.sends).count;
    FlattenedOne(answer[n..]);
    assert answer == answer[..n] + answer[n..];
    hide Sending, Flattened;
    assert l.out + answer == l.out + answer[..n] + answer[n..];
    assert l.out + Flattened(l.waiting) + answer == l.out + (Flattened(l.waiting) + answer);
  }

  /** One request: it is passed on and answered, or the connection has failed. */
  lemma TakingKeeps(l: Link, n: nat, reply: Replies)
    requires InOrder(l, reply) && 0 < n <= |Left(l)|
    ensures var s, left := Taking(l, n, reply), Left(l);
            && -1 <= s.rc <= 1 && s.l.passed == l.passed + [left[..n]] && Left(s.l) == left[n..]
            && s.l.chunks == l.chunks && s.l.armed == l.armed
            && (if s.rc >= 0 then InOrder(s.l, reply) else s.l.out <= AnswersTo(reply, s.l.passed))
            && (s.rc == 1 <==> s.rc >= 0 && l.waiting == [] && s.l.waiting != [])
            && (l.waiting != [] ==> s.l.out == l.out && l.waiting <= s.l.waiting)
  {
    var left := Left(l);
    var rd := if n < |left| then Holding(left[n..]) else NoBuffer;
    AnswersGrow(reply, l.passed, left[..n]);
    OfferingKeeps(l.(rd := rd, passed := l.passed + [left[..n]]), reply(|l.passed|, left[..n]));
    FlattenedOne([]);
    hide Offering, Flattened, AnswersTo;
    assert l.waiting == [] ==> l.out + [] == l.out;
  }

  /** `parse_buffer` passes on and answers what the splitting of the buffer says. It wants EPOLLOUT exactly when it
      came upon an empty queue, leaves a queue, and leaves bytes over as well. */
  lemma {:induction false} ParsingKeeps(l: Link, room: int, reply: Replies, result: int)
    requires InOrder(l, reply) && 0 <= result <= 1
    ensures var s, cut := Parsing(l, room, reply, result), Parsed(Left(l));
            && -1 <= s.rc <= 1 && s.l.chunks == l.chunks && s.l.armed == l.armed
            && (if s.rc >= 0 then InOrder(s.l, reply) && s.l.passed == l.passed + cut.requests && Left(s.l) == cut.left
                else s.l.out <= AnswersTo(reply, s.l.passed) && l.passed <= s.l.passed <= l.passed + cut.requests)
            && (s.rc == 1 <==>
                  s.rc >= 0 && s.l.rd.Holding? && (result == 1 || (l.waiting == [] && s.l.waiting != [])))
            && (l.waiting != [] ==> s.l.out == l.out && l.waiting <= s.l.waiting)
    decreases |Left(l)|
  {
    hide Taking, Flattened, AnswersTo, ReqLen, Parsed, NoneEmpty;
    var left := Left(l);
    ParsedStep(left);
    var n := ReqLen(left);
    assert l.passed + [] == l.passed && l.out <= l.out + Flattened(l.waiting);
    if l.rd.Holding? && n > 0 && !(n < |left| && Slots(l) >= room) {
      TakingKeeps(l, n, reply);
      var t := Taking(l, n, reply);
      var rest := Parsed(left[n..]).requests;
      assert l.passed + ([left[..n]] + rest) == l.passed + [left[..n]] + rest;
      if t.rc >= 0 {
        ParsingKeeps(t.l, room, reply, if t.rc > 0 then 1 else result);
      }
    }
  }

  /** An open connection: the answers are sent or queued in order, the requests and what is left over are what the
      splitting of the chunks says, and who waits for EPOLLOUT has something to send. */
  predicate Kept(l: Link, reply: Replies) {
    hide Parsed;
    var cut := AfterReads([], l.chunks);
    && InOrder(l, reply) && l.passed == cut.requests && Left(l) == cut.left && RequestSplit.Fits([], l.chunks)
    && (l.armed ==> l.waiting != [])
  }

  /** A closed one: the answers that were sent, and the requests that were passed on, are the first of them. */
  predicate Ended(l: Link, reply: Replies) {
    l.out <= AnswersTo(reply, l.passed) && l.passed <= AfterReads([], l.chunks).requests && Slots(l) == 0 && !l.armed
  }

  predicate KeptOrEnded(o: Outcome, reply: Replies) {
    if o.open then Kept(o.l, reply) else Ended(o.l, reply)
  }

  lemma OpenedKept(sends: seq<int>, reply: Replies)
    ensures Kept(Opened(sends), reply)
  {
  }

  lemma ClosedEnds(l: Link, reply: Replies)
    requires l.out <= AnswersTo(reply, l.passed) && l.passed <= AfterReads([], l.chunks).requests
    ensures Ended(Closed(l).l, reply)
  {
  }

  lemma KeptCloses(l: Link, reply: Replies)
    requires Kept(l, reply)
    ensures Ended(Closed(l).l, reply)
  {
    hide Parsed;
  }

  lemma {:induction false} FitsOneMore(left: seq<byte>, chunks: seq<seq<byte>>, chunk: seq<byte>)
    requires RequestSplit.Fits(left, chunks) && |AfterReads(left, chunks).left + chunk| <= MAX_TCP_ADU
    ensures RequestSplit.Fits(left, chunks + [chunk])
    decreases |chunks|
  {
    hide Parsed;
    if chunks == [] {
      assert [] + [chunk] == [chunk] && [chunk][1..] == [];
    } else {
      assert (chunks + [chunk])[1..] == chunks[1..] + [chunk];
      FitsOneMore(Parsed(left + chunks[0]).left, chunks[1..], chunk);
    }
  }

  /** One read. Afterwards EPOLLOUT is waited for if it was before, or if the read found an empty queue, left a
      queue, and left bytes over as well: without these the wish is lost. */
  lemma TakenKeeps(l: Link, room: int, chunk: seq<byte>, reply: Replies)
    requires Kept(l, reply) && |Left(l)| + |chunk| <= MAX_TCP_ADU
    ensures var o := Taken(l, room, chunk, reply);
            && KeptOrEnded(o, reply) && o.l.chunks == l.chunks + [chunk]
            && (o.open ==> (o.l.armed <==> l.armed || (l.waiting == [] && o.l.waiting != [] && o.l.rd.Holding?)))
            && (l.waiting != [] ==> o.l.out == l.out && (o.open ==> l.waiting <= o.l.waiting))
  {
    hide Flattened, AnswersTo, Parsed, Parsing, AfterReads, RequestSplit.Fits;
    AfterOneMoreRead([], l.chunks, chunk);
    FitsOneMore([], l.chunks, chunk);
    var l' := l.(rd := Holding(Left(l) + chunk), chunks := l.chunks + [chunk]);
    ParsingKeeps(l', room, reply, 0);
    var s := Parsing(l', room, reply, 0);
    if s.rc < 0 {
      ClosedEnds(s.l, reply);
    }
  }

  lemma {:induction false} ReadingKeeps(l: Link, room: int, arrived: seq<byte>, eof: bool, reply: Replies)
    requires Kept(l, reply)
    ensures KeptOrEnded(Reading(l, room, arrived, eof, reply), reply)
    ensures l.waiting != [] ==>
              var o := Reading(l, room, arrived, eof, reply);
              o.l.out == l.out && (o.open ==> l.waiting <= o.l.waiting && o.l.armed == l.armed)
    decreases |arrived|
  {
    hide Taken, Kept, Ended;
    LeftBounded(l, reply);
    KeptCloses(l, reply);
    KeptHolding(l, reply);
    if !(l.rd.NoBuffer? && Slots(l) >= room) && |Left(l)| < MAX_TCP_ADU && arrived != [] {
      var wanted := MAX_TCP_ADU - |Left(l)|;
      if |arrived| < wanted {
        TakenKeeps(l, room, arrived, reply);
      } else {
        TakenKeeps(l, room, arrived[..wanted], reply);
        var o := Taken(l, room, arrived[..wanted], reply);
        if o.open {
          ReadingKeeps(o.l, room, arrived[wanted..], eof, reply);
        }
      }
    }
  }

  lemma LeftBounded(l: Link, reply: Replies)
    requires Kept(l, reply)
    ensures |Left(l)| <= MAX_TCP_ADU
  {
    FitsLeft([], l.chunks);
  }

  lemma {:induction false} FitsLeft(left: seq<byte>, chunks: seq<seq<byte>>)
    requires RequestSplit.Fits(left, chunks) && |left| <= MAX_TCP_ADU
    ensures |AfterReads(left, chunks).left| <= MAX_TCP_ADU
    decreases |chunks|
  {
    hide Parsed;
    if chunks != [] {
      ParsedKeepsAll(left + chunks[0]);
      FitsLeft(Parsed(left + chunks[0]).left, chunks[1..]);
    }
  }

  lemma KeptHolding(l: Link, reply: Replies)
    requires Kept(l, reply)
    ensures Kept(l.(rd := Holding(Left(l))), reply)
  {
    hide AfterReads, Flattened, RequestSplit.Fits;
  }

  /** Sending from the queue keeps the order. */
  lemma {:induction false} WritingKeeps(l: Link, reply: Replies)
    requires Kept(l, reply)
    ensures var s := Writing(l);
            if s.rc >= 0 then Kept(s.l, reply) else Ended(Closed(s.l).l, reply)
    decreases |l.waiting|
  {
    hide AfterReads, AnswersTo, RequestSplit.Fits, Flattened, Sending, NoneEmpty;
    if l.waiting != [] {
      var s := Sending(|l.waiting[0]|, l.sends);
      FrontSent(l.out, l.waiting, s.count);
      var l' := l.(out := l.out + l.waiting[0][..s.count], sends := s.sends);
      if s.rc == 0 && |l.waiting| > 1 {
        WritingKeeps(l'.(waiting := l.waiting[1..]), reply);
      }
    }
  }

  lemma FrontSent(out: seq<byte>, waiting: seq<seq<byte>>, n: nat)
    requires waiting != [] && n <= |waiting[0]| && NoneEmpty(waiting)
    ensures var first, rest := waiting[0], waiting[1..];
            var cut := [first[n..]] + rest;
            && out + first[..n] + Flattened(cut) == out + Flattened(waiting) && out + first[..n] <= out + Flattened(waiting)
            && NoneEmpty(rest) && (n < |first| ==> NoneEmpty(cut))
            && (n == |first| ==> out + first[..n] + Flattened(rest) == out + Flattened(waiting))
  {
    var first, rest := waiting[0], waiting[1..];
    assert ([first[n..]] + rest)[1..] == rest;
    assert first == first[..n] + first[n..];
    assert out + (first + Flattened(rest)) == out + first[..n] + (first[n..] + Flattened(rest));
    assert first[|first|..] + Flattened(rest) == Flattened(rest);
    assert forall w <- rest :: w in waiting;
  }

  lemma HandlingKeeps(l: Link, room: int, e: Event, reply: Replies)
    requires Kept(l, reply)
    ensures KeptOrEnded(Handling(l, room, e, reply), reply)
  {
    hide Kept, Ended, Writing, Reading;
    KeptCloses(l, reply);
    WritingKeeps(l, reply);
    if Reported(l, e) && !e.failed && e.readable {
      var s := if e.writable && l.armed then Writing(l) else Step(l, 0);
      if s.rc >= 0 {
        ReadingKeeps(s.l, room, e.arrived, e.eof, reply);
      }
    }
  }

  predicate ClientKept(c: Client) {
    KeptOrEnded(Outcome(c.link, c.open), c.reply)
  }

  /** Over any run of the event loop, on every connection: the answers go out in the order of the requests and none is
      lost while it is open; the requests are those that the chunks read are split into. */
  lemma {:induction false} RunKeeps(run: seq<Happening>)
    ensures forall c <- AfterRun(run).clients :: ClientKept(c)
    decreases |run|
  {
    hide Handling, KeptOrEnded;
    if run != [] {
      var before, h := AfterRun(run[..|run| - 1]), run[|run| - 1];
      RunKeeps(run[..|run| - 1]);
      match h {
        case Opens(reply, sends) =>
          OpenedStarts(reply, sends);
        case Concerns(k, event) =>
          if k < |before.clients| && before.clients[k].open {
            var c := before.clients[k];
            assert ClientKept(c);
            ClientHandles(c, before.free + Slots(c.link), event);
          }
      }
    }
  }

  lemma OpenedStarts(reply: Replies, sends: seq<int>)
    ensures ClientKept(Client(reply, Opened(sends), true))
  {
    hide Kept;
    OpenedKept(sends, reply);
  }

  lemma ClientHandles(c: Client, room: int, e: Event)
    requires ClientKept(c) && c.open
    ensures var o := Handling(c.link, room, e, c.reply); ClientKept(Client(c.reply, o.l, o.open))
  {
    hide Kept, Ended, Handling;
    HandlingKeeps(c.link, room, e, c.reply);
  }

  /** Over any run, the requests of an open connection are those that cutting its whole stream gives, whatever the
      reads - exactly when no read left 256 bytes or more with a complete request among them. */
  lemma RunSplits(run: seq<Happening>, k: nat)
    requires k < |AfterRun(run).clients| && AfterRun(run).clients[k].open
    ensures var l := AfterRun(run).clients[k].link;
            Cut(l.passed, Left(l)) == Cutting(Flattened(l.chunks)) <==> Handled([], l.chunks)
  {
    hide Parsed, AfterReads, Cutting, Handled, AfterRun, Flattened;
    RunKeeps(run);
    var c := AfterRun(run).clients[k];
    assert ClientKept(c);
    CuttingStep([]);
    SplitIndependent([], c.link.chunks);
    assert [] + Flattened(c.link.chunks) == Flattened(c.link.chunks);
  }

  // ----- buffers -----

  function Total(clients: seq<Client>): nat {
    if clients == [] then 0 else Slots(clients[0].link) + Total(clients[1..])
  }

  lemma {:induction false} TotalUpdated(clients: seq<Client>, k: nat, c: Client)
    requires k < |clients|
    ensures Total(clients[k := c]) == Total(clients) - Slots(clients[k].link) + Slots(c.link)
    decreases |clients|
  {
    if k == 0 {
      assert clients[0 := c][1..] == clients[1..];
    } else {
      assert clients[k := c][1..] == clients[1..][k - 1 := c];
      TotalUpdated(clients[1..], k - 1, c);
    }
  }

  lemma {:induction false} TotalOpened(clients: seq<Client>, c: Client)
    ensures Total(clients + [c]) == Total(clients) + Slots(c.link)
    decreases |clients|
  {
    if clients == [] {
      assert [] + [c] == [c] && [c][1..] == [];
    } else {
      assert (clients + [c])[1..] == clients[1..] + [c];
      TotalOpened(clients[1..], c);
    }
  }

  lemma TakingFits(l: Link, n: nat, reply: Replies)
    requires l.rd.Holding? && n <= |Left(l)|
    ensures Slots(Taking(l, n, reply).l) <= Slots(l) + if n < |Left(l)| then 1 else 0
  {
  }

  lemma {:induction false} ParsingFits(l: Link, room: int, reply: Replies, result: int)
    requires Slots(l) <= room
    ensures Slots(Parsing(l, room, reply, result).l) <= room
    decreases |Left(l)|
  {
    hide Taking, ReqLen;
    var n := ReqLen(Left(l));
    if l.rd.Holding? && n > 0 && !(n < |Left(l)| && Slots(l) >= room) {
      TakingFits(l, n, reply);
      var t := Taking(l, n, reply);
      if t.rc >= 0 {
        TakingLeft(l, n, reply);
        ParsingFits(t.l, room, reply, if t.rc > 0 then 1 else result);
      }
    }
  }

  lemma TakingLeft(l: Link, n: nat, reply: Replies)
    requires n <= |Left(l)|
    ensures Left(Taking(l, n, reply).l) == Left(l)[n..]
  {
  }

  lemma {:induction false} ReadingFits(l: Link, room: int, arrived: seq<byte>, eof: bool, reply: Replies)
    requires Slots(l) <= room
    ensures Slots(Reading(l, room, arrived, eof, reply).l) <= room
    decreases |arrived|
  {
    hide Parsing;
    if !(l.rd.NoBuffer? && Slots(l) >= room) && |Left(l)| < MAX_TCP_ADU && arrived != [] {
      var wanted := MAX_TCP_ADU - |Left(l)|;
      var chunk := if |arrived| < wanted then arrived else arrived[..wanted];
      ParsingFits(l.(rd := Holding(Left(l) + chunk), chunks := l.chunks + [chunk]), room, reply, 0);
      var o := Taken(l, room, chunk, reply);
      if o.open && |arrived| >= wanted {
        ReadingFits(o.l, room, arrived[wanted..], eof, reply);
      }
    }
  }

  lemma {:induction false} WritingFits(l: Link)
    ensures Slots(Writing(l).l) <= Slots(l) && Writing(l).l.rd == l.rd
    decreases |l.waiting|
  {
    hide Sending;
    if |l.waiting| > 1 {
      var s := Sending(|l.waiting[0]|, l.sends);
      WritingFits(l.(out := l.out + l.waiting[0][..s.count], sends := s.sends, waiting := l.waiting[1..]));
    }
  }

  lemma HandlingFits(l: Link, room: int, e: Event, reply: Replies)
    requires Slots(l) <= room
    ensures Slots(Handling(l, room, e, reply).l) <= room
  {
    hide Writing, Reading;
    WritingFits(l);
    var s := if e.writable && l.armed then Writing(l) else Step(l, 0);
    ReadingFits(s.l, room, e.arrived, e.eof, reply);
  }

  /** Over any run, every buffer is free or held by one connection. */
  lemma {:induction false} RunCounts(run: seq<Happening>)
    ensures var net := AfterRun(run); net.free >= 0 && net.free + Total(net.clients) == 129
    decreases |run|
  {
    hide Handling, Total;
    if run != [] {
      var before, h := AfterRun(run[..|run| - 1]), run[|run| - 1];
      RunCounts(run[..|run| - 1]);
      match h {
        case Opens(reply, sends) =>
          TotalOpened(before.clients, Client(reply, Opened(sends), true));
        case Concerns(k, event) =>
          if k < |before.clients| && before.clients[k].open {
            var c := before.clients[k];
            var room := before.free + Slots(c.link);
            HandlingFits(c.link, room, event, c.reply);
            var o := Handling(c.link, room, event, c.reply);
            TotalUpdated(before.clients, k, Client(c.reply, o.l, o.open));
          }
      }
    } else {
      NothingHeld();
    }
  }

  lemma NothingHeld()
    ensures Total([]) == 0
  {
  }

  // ----- when the queue goes out -----

  predicate Willing(sends: seq<int>) {
    forall n <- sends :: n > 0
  }

  /** A socket that takes something whenever it is asked to takes all. */
  lemma {:induction false} WillingSends(n: nat, sends: seq<int>)
    requires Willing(sends)
    ensures Sending(n, sends).rc == 0 && Willing(Sending(n, sends).sends)
    decreases |sends|
  {
    if sends != [] {
      assert sends[0] in sends && forall m <- sends[1..] :: m in sends;
      if n > sends[0] {
        WillingSends(n - sends[0], sends[1..]);
      }
    }
  }

  lemma {:induction false} WillingWrites(l: Link)
    requires Willing(l.sends)
    ensures var s := Writing(l); s.rc == 0 && s.l.waiting == []
    decreases |l.waiting|
  {
    hide Sending, Willing;
    if l.waiting != [] {
      WillingSends(|l.waiting[0]|, l.sends);
      var s := Sending(|l.waiting[0]|, l.sends);
      if |l.waiting| > 1 {
        WillingWrites(l.(out := l.out + l.waiting[0][..s.count], sends := s.sends, waiting := l.waiting[1..]));
      }
    }
  }

  lemma {:induction false} WritingPasses(l: Link)
    ensures Writing(l).l.passed == l.passed
    decreases |l.waiting|
  {
    hide Sending;
    if |l.waiting| > 1 {
      var s := Sending(|l.waiting[0]|, l.sends);
      WritingPasses(l.(out := l.out + l.waiting[0][..s.count], sends := s.sends, waiting := l.waiting[1..]));
    }
  }

  lemma {:induction false} ParsingSends(l: Link, room: int, reply: Replies, result: int)
    ensures l.out <= Parsing(l, room, reply, result).l.out
    decreases |Left(l)|
  {
    hide ReqLen, Sending;
    var n := ReqLen(Left(l));
    if l.rd.Holding? && n > 0 && !(n < |Left(l)| && Slots(l) >= room) {
      TakingLeft(l, n, reply);
      var t := Taking(l, n, reply);
      if t.rc >= 0 {
        ParsingSends(t.l, room, reply, if t.rc > 0 then 1 else result);
      }
    }
  }

  /** What the socket took stays taken. */
  lemma {:induction false} ReadingSends(l: Link, room: int, arrived: seq<byte>, eof: bool, reply: Replies)
    ensures l.out <= Reading(l, room, arrived, eof, reply).l.out
    decreases |arrived|
  {
    hide Parsing;
    if !(l.rd.NoBuffer? && Slots(l) >= room) && |Left(l)| < MAX_TCP_ADU && arrived != [] {
      var wanted := MAX_TCP_ADU - |Left(l)|;
      var chunk := if |arrived| < wanted then arrived else arrived[..wanted];
      ParsingSends(l.(rd := Holding(Left(l) + chunk), chunks := l.chunks + [chunk]), room, reply, 0);
      var o := Taken(l, room, chunk, reply);
      if o.open && |arrived| >= wanted {
        ReadingSends(o.l, room, arrived[wanted..], eof, reply);
      }
    }
  }

  /** When a connection that waits for EPOLLOUT is told, and the socket is willing, what it owes goes out - exactly
      when EPOLLIN comes along, and no error. */
  lemma QueueGoesOut(l: Link, room: int, e: Event, reply: Replies)
    requires Kept(l, reply) && l.armed && e.writable && Willing(l.sends)
    ensures AnswersTo(reply, l.passed) <= Handling(l, room, e, reply).l.out <==> e.readable && !e.failed
  {
    hide Writing, Reading, AfterReads, RequestSplit.Fits, AnswersTo;
    if e.readable && !e.failed {
      WillingWrites(l);
      WritingPasses(l);
      WritingKeeps(l, reply);
      var s := Writing(l);
      assert s.l.out + [] == s.l.out;
      ReadingSends(s.l, room, e.arrived, e.eof, reply);
    } else {
      assert l.waiting[0] in l.waiting;
    }
  }

  /** What comes to a connection that owes nothing, with room to spare, two buffers to use and a willing socket, is read
      and answered at once; a buffer is kept only for bytes that are left over. */
  lemma AnsweredAtOnce(l: Link, room: int, e: Event, reply: Replies)
    requires Kept(l, reply) && l.waiting == [] && Willing(l.sends) && room >= 2
    requires e.readable && !e.failed && 0 < |e.arrived| < MAX_TCP_ADU - |Left(l)|
    ensures var o, cut := Handling(l, room, e, reply), Parsed(Left(l) + e.arrived);
            && o.open && o.l.waiting == [] && o.l.passed == l.passed + cut.requests && Left(o.l) == cut.left
            && o.l.out == AnswersTo(reply, o.l.passed) && Willing(o.l.sends) && (o.l.rd.Holding? ==> Left(o.l) != [])
  {
    hide Parsing, AfterReads, RequestSplit.Fits, AnswersTo, Parsed;
    var l' := l.(rd := Holding(Left(l) + e.arrived), chunks := l.chunks + [e.arrived]);
    ParsingKeeps(l', room, reply, 0);
    WillingParses(l', room, reply, 0);
    var s := Parsing(l', room, reply, 0);
    assert s.l.out + [] == s.l.out;
  }

  lemma {:induction false} WillingParses(l: Link, room: int, reply: Replies, result: int)
    requires l.waiting == [] && Willing(l.sends) && room >= 2 && result >= 0
    requires l.rd.Holding? ==> Left(l) != []
    ensures var s := Parsing(l, room, reply, result);
            && s.rc >= 0 && s.l.waiting == [] && Willing(s.l.sends) && (s.l.rd.Holding? ==> Left(s.l) != [])
    decreases |Left(l)|
  {
    hide ReqLen, Sending, Willing;
    var n := ReqLen(Left(l));
    if l.rd.Holding? && n > 0 {
      TakingLeft(l, n, reply);
      WillingSends(|reply(|l.passed|, Left(l)[..n])|, l.sends);
      var t := Taking(l, n, reply);
      WillingParses(t.l, room, reply, if t.rc > 0 then 1 else result);
    }
  }

  // ----- what is read, and when a connection ends -----

  /** What arrives is read from the front, and all of it unless the connection is closed or gets no buffer. */
  lemma {:induction false} ArrivedIsRead(l: Link, room: int, arrived: seq<byte>, eof: bool, reply: Replies)
    requires Kept(l, reply)
    ensures var o := Reading(l, room, arrived, eof, reply);
            var stream, all := Flattened(o.l.chunks), Flattened(l.chunks) + arrived;
            && Flattened(l.chunks) <= stream <= all
            && (o.open ==> stream == all || (o.l.rd.NoBuffer? && Slots(o.l) >= room))
    decreases |arrived|
  {
    hide Taken, Kept, Flattened;
    LeftBounded(l, reply);
    assert Flattened(l.chunks) + [] == Flattened(l.chunks);
    if !(l.rd.NoBuffer? && Slots(l) >= room) && |Left(l)| < MAX_TCP_ADU && arrived != [] {
      var wanted := MAX_TCP_ADU - |Left(l)|;
      var chunk := if |arrived| < wanted then arrived else arrived[..wanted];
      TakenKeeps(l, room, chunk, reply);
      FlattenedConcat(l.chunks, [chunk]);
      FlattenedOne(chunk);
      var o := Taken(l, room, chunk, reply);
      assert Flattened(l.chunks) + arrived == Flattened(o.l.chunks) + arrived[|chunk|..] by {
        assert arrived == chunk + arrived[|chunk|..];
      }
      if |arrived| >= wanted && o.open {
        OpenKept(o, reply);
        ArrivedIsRead(o.l, room, arrived[wanted..], eof, reply);
      }
    }
  }

  lemma OpenKept(o: Outcome, reply: Replies)
    requires KeptOrEnded(o, reply) && o.open
    ensures Kept(o.l, reply)
  {
    hide Kept;
  }

  /** A client that hangs up, with nothing more to read: its connection is closed and holds no buffer - if and only if
      it has a read buffer or can get one, or its queue met an error of the socket on the way. */
  lemma HangUp(l: Link, room: int, e: Event, reply: Replies)
    requires Kept(l, reply) && Slots(l) <= room
    requires e.readable && !e.failed && e.arrived == [] && e.eof
    ensures var o, s := Handling(l, room, e, reply), if e.writable && l.armed then Writing(l) else Step(l, 0);
            && (!o.open <==> s.rc < 0 || l.rd.Holding? || |s.l.waiting| < room)
            && (if o.open then o.l == s.l else Slots(o.l) == 0)
  {
    hide Writing, Kept;
    WritingFits(l);
  }

  /** An error closes, and so does EPOLLOUT alone. */
  lemma FailureCloses(l: Link, room: int, e: Event, reply: Replies)
    requires e.failed || (!e.readable && e.writable && l.armed)
    ensures var o := Handling(l, room, e, reply); !o.open && Slots(o.l) == 0 && o.l.out == l.out && o.l.passed == l.passed
  {
  }

  /** Bytes before the end of the stream, fewer than a read could take: the end is not noticed. */
  lemma HangUpUnnoticed(l: Link, room: int, e: Event, reply: Replies)
    requires Kept(l, reply) && e.readable && !e.failed && !(e.writable && l.armed)
    requires 0 < |e.arrived| < MAX_TCP_ADU - |Left(l)|
    ensures Handling(l, room, e, reply) == Handling(l, room, e.(eof := !e.eof), reply)
  {
    hide Taken, Kept;
  }

  /** The event that ends connection `k`. */
  predicate EndsWith(net: Net, k: nat, e: Event) {
    && k < |net.clients| && net.clients[k].open
    && (e.failed || (e.readable && e.arrived == [] && e.eof && (net.clients[k].link.rd.Holding? || net.free > 0)))
  }

  /** After it the connection holds nothing, its buffers are free again, and the others are as before. */
  lemma EndGivesBack(run: seq<Happening>, k: nat, e: Event)
    requires EndsWith(AfterRun(run), k, e)
    ensures var before, after := AfterRun(run), AfterRun(run + [Concerns(k, e)]);
            && |after.clients| == |before.clients| && !after.clients[k].open && Slots(after.clients[k].link) == 0
            && after.free == before.free + Slots(before.clients[k].link)
            && forall j | 0 <= j < |before.clients| && j != k :: after.clients[j] == before.clients[j]
  {
    hide Handling, Kept, Writing;
    RunKeeps(run);
    var net := AfterRun(run);
    assert (run + [Concerns(k, e)])[..|run|] == run;
    var c := net.clients[k];
    assert ClientKept(c);
    var room := net.free + Slots(c.link);
    if e.failed {
      FailureCloses(c.link, room, e, c.reply);
    } else {
      WritingFits(c.link);
      RunCounts(run);
      HangUp(c.link, room, e, c.reply);
    }
  }

  const HANG_UP := Event(true, false, false, [], true)

  /** `n` clients that connect and hang up, one after the other. */
  function Visitors(n: nat, reply: Replies): (run: seq<Happening>)
    ensures |run| == 2 * n
  {
    if n == 0 then [] else Visitors(n - 1, reply) + [Opens(reply, [])] + [Concerns(n - 1, HANG_UP)]
  }

  /** All buffers are free, and `n` connections are closed and hold nothing. */
  ghost predicate AllLeft(net: Net, n: nat) {
    net.free == BUFFERS && |net.clients| == n && forall c <- net.clients :: !c.open && Slots(c.link) == 0
  }

  /** However many they are, all buffers are free then. */
  lemma {:induction false} VisitorsLeave(n: nat, reply: Replies)
    ensures AllLeft(AfterRun(Visitors(n, reply)), n)
    decreases n
  {
    hide AllLeft, AfterRun;
    if n == 0 {
      NobodyThere();
    } else {
      VisitorsLeave(n - 1, reply);
      VisitorLeaves(Visitors(n - 1, reply), n - 1, reply);
    }
  }

  lemma NobodyThere()
    ensures AllLeft(AfterRun([]), 0)
  {
  }

  lemma VisitorLeaves(run: seq<Happening>, n: nat, reply: Replies)
    requires AllLeft(AfterRun(run), n)
    ensures AllLeft(AfterRun(run + [Opens(reply, [])] + [Concerns(n, HANG_UP)]), n + 1)
  {
    hide AfterRun, Slots;
    OneOpens(run, reply);
    EndGivesBack(run + [Opens(reply, [])], n, HANG_UP);
  }

  lemma OneOpens(run: seq<Happening>, reply: Replies)
    ensures var net, after := AfterRun(run), AfterRun(run + [Opens(reply, [])]);
            && after.free == net.free && after.clients == net.clients + [Client(reply, Opened([]), true)]
            && Slots(Opened([])) == 0
  {
    assert (run + [Opens(reply, [])])[..|run|] == run;
  }

  // ----- when it does not -----

  predicate Stuck(c: Client) {
    c.open ==> !c.link.armed && c.link.waiting != []
  }

  lemma StuckStays(c: Client, room: int, e: Event)
    requires ClientKept(c) && c.open && Stuck(c)
    ensures var o := Handling(c.link, room, e, c.reply);
            o.l.out == c.link.out && Stuck(Client(c.reply, o.l, o.open))
  {
    hide Kept, Reading;
    ReadingKeeps(c.link, room, e.arrived, e.eof, c.reply);
  }

  /** A queue that nobody waits for is never sent, whatever else happens. */
  lemma {:induction false} StuckForever(run: seq<Happening>, more: seq<Happening>, k: nat)
    requires k < |AfterRun(run).clients| && Stuck(AfterRun(run).clients[k])
    ensures var before, after := AfterRun(run), AfterRun(run + more);
            && |before.clients| <= |after.clients|
            && after.clients[k].link.out == before.clients[k].link.out && Stuck(after.clients[k])
    decreases |more|
  {
    if more == [] {
      assert run + [] == run;
    } else {
      var last := |more| - 1;
      assert (run + more)[..|run + more| - 1] == run + more[..last];
      StuckForever(run, more[..last], k);
      RunKeeps(run + more[..last]);
      var net := AfterRun(run + more[..last]);
      StuckHappens(net, more[last], k);
    }
  }

  lemma StuckHappens(net: Net, h: Happening, k: nat)
    requires k < |net.clients| && ClientKept(net.clients[k]) && Stuck(net.clients[k])
    ensures var after := Happens(net, h);
            && |net.clients| <= |after.clients|
            && after.clients[k].link.out == net.clients[k].link.out && Stuck(after.clients[k])
  {
    hide ClientKept, Handling;
    if h.Concerns? && h.k == k && net.clients[k].open {
      StuckStays(net.clients[k], net.free + Slots(net.clients[k].link), h.event);
    }
  }

  predicate Twelve(req: seq<byte>) {
    |req| == 12 && Announced(req) == 12
  }

  function Arrives(bytes: seq<byte>): Happening {
    Concerns(0, Event(true, false, false, bytes, false))
  }

  lemma OneRequestParsed(req: seq<byte>, more: seq<byte>)
    requires Twelve(req) && |more| < 6
    ensures ReqLen(req + more) == 12 && (req + more)[..12] == req && (req + more)[12..] == more && ReqLen(more) == 0
  {
  }

  /** A lone request whose answer the socket does not take at once: the answer stays in the queue, and EPOLLOUT is
      not asked for. */
  lemma LoneRequestUnanswered(reply: Replies, req: seq<byte>, more: seq<Happening>)
    requires Twelve(req) && reply(0, req) != []
    ensures AfterRun([Opens(reply, [0]), Arrives(req)]).clients
            == [Client(reply, Link(NoBuffer, [reply(0, req)], [], [], [req], [req], false), true)]
    ensures var c := AfterRun([Opens(reply, [0]), Arrives(req)] + more).clients; |c| >= 1 && c[0].link.out == []
  {
    var run := [Opens(reply, [0]), Arrives(req)];
    Begins(reply, [0]);
    assert run[..1] == [Opens(reply, [0])];
    OneRequestParsed(req, []);
    assert req + [] == req && [] + req == req && [] + [req] == [req];
    PartialAtOnce(reply(0, req), [0]);
    hide ReqLen, Sending, Announced;
    var l := Opened([0]).(rd := Holding(req), chunks := [req]);
    assert Parsing(l, BUFFERS, reply, 0) == Step(Link(NoBuffer, [reply(0, req)], [], [], [req], [req], false), 0);
    StuckForever(run, more, 0);
  }

  lemma PartialAtOnce(answer: seq<byte>, sends: seq<int>)
    requires answer != [] && sends != [] && sends[0] == 0
    ensures Sending(|answer|, sends) == Sent(0, 1, sends[1..]) && answer[..0] == [] && answer[0..] == answer
  {
  }

  lemma Begins(reply: Replies, sends: seq<int>)
    ensures AfterRun([Opens(reply, sends)]) == Net(BUFFERS, [Client(reply, Opened(sends), true)])
  {
    assert [Opens(reply, sends)][..0] == [];
  }

  /** With one byte of the next request behind it, EPOLLOUT is asked for; and when the socket takes more and nothing
      is to be read, the connection is closed and the answer is lost. */
  lemma OutAloneLoses(reply: Replies, req: seq<byte>, b: byte)
    requires Twelve(req) && reply(0, req) != []
    ensures var run := [Opens(reply, [0]), Arrives(req + [b])];
            var out := Concerns(0, Event(false, true, false, [], false));
            && AfterRun(run).clients
               == [Client(reply, Link(Holding([b]), [reply(0, req)], [], [], [req], [req + [b]], true), true)]
            && AfterRun(run + [out]).clients
               == [Client(reply, Link(NoBuffer, [], [], [], [req], [req + [b]], false), false)]
  {
    var run, out := [Opens(reply, [0]), Arrives(req + [b])], Concerns(0, Event(false, true, false, [], false));
    Begins(reply, [0]);
    assert run[..1] == [Opens(reply, [0])] && (run + [out])[..2] == run;
    OneRequestParsed(req, [b]);
    assert [] + (req + [b]) == req + [b] && [] + [req + [b]] == [req + [b]] && [] + [req] == [req];
    PartialAtOnce(reply(0, req), [0]);
    hide ReqLen, Sending, Announced;
    var l := Opened([0]).(rd := Holding(req + [b]), chunks := [req + [b]]);
    var l' := Link(Holding([b]), [reply(0, req)], [], [], [req], [req + [b]], false);
    assert Taking(l, 12, reply) == Step(l', 1);
    assert Parsing(l', BUFFERS, reply, 1) == Step(l', 1);
    assert Parsing(l, BUFFERS, reply, 0) == Step(l', 1);
  }
}
