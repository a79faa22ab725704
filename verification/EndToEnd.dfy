/** The client at one end, the boards at the other: runs of calls through the gateway, and through the server. */
module EndToEnd {
  import opened Bytes
  import opened Pdu
  import opened Refinement
  import opened Transport
  import opened Transaction
  import opened TwoPhase
  import opened Boards
  import opened Gateway
  import opened RequestSplit
  import opened Links

  datatype Slot = Empty | Board(s: Store)

  /** The boards of the gateway. */
  type Rack = r: seq<Slot> | |r| == 3 witness [Empty, Empty, Empty]

  /** A call to a unit, with the request in the gateway's buffer, what an earlier reply left in the receive buffer of the
      board, and what the line to it does. */
  datatype Turn = Turn(call: Call, unit: byte, p: seq<byte>, before: seq<byte>, line: Wire)

  function Index(t: Turn): nat {
    Chosen(t.unit, Reach(t.call.addr))
  }

  function Register(t: Turn): word {
    Route(t.unit, Reach(t.call.addr)).1
  }

  predicate Plugged(r: Rack, k: nat) {
    k < 3 && r[k].Board?
  }

  /** The line reaches the board that is chosen, which keeps to its side. */
  predicate Ready(r: Rack, t: Turn) {
    hide Honest, RequestPdu, Chosen, Route;
    !TooMuch(t.call) ==>
      && |t.p| >= MAX_PDU && RequestPdu(t.call) <= t.p && |t.before| == SECOND_BUFFER && Carries(t.line, SECOND_BUFFER)
      && (Plugged(r, Index(t)) ==> Honest(r[Index(t)].s, Ordering(t.p, Register(t)), t.line))
  }

  /** What the client sees of a call, and what the boards hold then. */
  datatype Seen = Seen(outcome: Pdu.Outcome, r: Rack)

  /** The answer of `nb_modbus_reply`. */
  function AnswerTo(r: Rack, t: Turn): (pdu: seq<byte>)
    requires Ready(r, t) && !TooMuch(t.call)
    ensures |pdu| >= 2
  {
    hide Serving, Chosen, Route;
    if Plugged(r, Index(t)) then Serving(t.p, Register(t), t.before, t.line) else Refusal(t.p[0], GATEWAY_TARGET)
  }

  function RackAfter(r: Rack, t: Turn): Rack
    requires Ready(r, t) && !TooMuch(t.call)
  {
    hide Ordering, Chosen, Route;
    var k := Index(t);
    if Plugged(r, k) then r[k := Board(Obeyed(r[k].s, Ordering(t.p, Register(t))))] else r
  }

  function Through(r: Rack, t: Turn): Seen
    requires Ready(r, t)
  {
    if TooMuch(t.call) then Seen(Failed(TooMuchData), r)
    else Seen(Finish(t.call, AnswerTo(r, t)), RackAfter(r, t))
  }

  /** In the hundred from `low` on of one of the three thousands. */
  predicate Within(address: word, low: nat) {
    low <= address < low + 100 || low + 1000 <= address < low + 1100 || low + 2000 <= address < low + 2100
  }

  /** The board that a unit and an address mean, counted from 0, and the address there. Unit 0 stands for all boards: the
      first hundred of each thousand below 3000 is that of the first board, the second of the second, the third of
      the third, and the others are nobody's. */
  function Meant(unit: byte, address: word): (int, word) {
    if unit != 0 then (unit - 1, address)
    else if address >= 3000 || Within(address, 0) then (0, address)
    else if Within(address, 100) then (1, address - 100)
    else if Within(address, 200) then (2, address - 200)
    else (3, address)
  }

  /** The operation itself, on the board that is meant; without one, exception 11. */
  function Wanted(r: Rack, unit: byte, call: Call): Seen {
    var (k, reg) := Meant(unit, Reach(call.addr));
    if TooMuch(call) then Seen(Failed(TooMuchData), r)
    else if !Plugged(r, k) then Seen(Failed(Exception(11)), r)
    else
      var e := Direct(AsMapping(r[k].s), At(call, reg));
      Seen(e.outcome, r[k := Board(Store(e.m.bits.cells, e.m.registers.cells))])
  }

  /** The same, but for the reason of a failure. */
  predicate SameSeen(a: Seen, b: Seen) {
    a.r == b.r && (a.outcome == b.outcome || (a.outcome.Failed? && b.outcome.Failed?))
  }

  predicate Suitable(r: Rack, unit: byte, call: Call) {
    var (k, reg) := Meant(unit, Reach(call.addr));
    TooMuch(call) || !Plugged(r, k) || Suits(r[k].s, At(call, reg))
  }

  lemma FailureKeeps(m: Mapping, call: Call)
    requires Direct(m, call).outcome.Failed?
    ensures Direct(m, call).m == m
  {
    hide Reach, Choose;
  }

  /** The gateway chooses the board that is meant, if there is one. */
  lemma ChosenIsMeant(t: Turn)
    ensures var (k, reg) := Meant(t.unit, Reach(t.call.addr));
            (Index(t) == k && Register(t) == reg) || (Index(t) >= 3 && k >= 3)
  {
    hide Route, Chosen;
    ChosenIs(t.unit, Reach(t.call.addr));
  }

  lemma OneCall(r: Rack, t: Turn)
    requires Ready(r, t)
    ensures SameSeen(Through(r, t), Wanted(r, t.unit, t.call)) <==> Suitable(r, t.unit, t.call)
  {
    hide Direct, Honest, RequestPdu, Serving, Ordering, Finish, Obeyed, Suits, Meant, Index, Register, At, Refusal;
    ChosenIsMeant(t);
    if !TooMuch(t.call) {
      var k, reg := Index(t), Register(t);
      if Plugged(r, k) {
        var s := r[k].s;
        ClientSeesBoardAt(s, t.call, reg, t.p, t.before, t.line);
        var e := Direct(AsMapping(s), At(t.call, reg));
        if e.outcome.Failed? {
          FailureKeeps(AsMapping(s), At(t.call, reg));
        }
        SameBoard(r, k, Obeyed(s, Ordering(t.p, reg)), Store(e.m.bits.cells, e.m.registers.cells));
      } else {
        NoBoard(t.call, t.p);
      }
    }
  }

  lemma SameBoard(r: Rack, k: nat, a: Store, b: Store)
    requires k < 3
    ensures r[k := Board(a)] == r[k := Board(b)] <==> a == b
  {
    assert r[k := Board(a)][k] == Board(a);
  }

  lemma NoBoard(call: Call, p: seq<byte>)
    requires !TooMuch(call) && |p| >= MAX_PDU && RequestPdu(call) <= p
    ensures Finish(call, Refusal(p[0], GATEWAY_TARGET)) == Failed(Exception(11))
  {
    hide RequestPdu, Finish, Refusal;
    RequestHead(call, p);
    RefusedAs(call, GATEWAY_TARGET);
  }

  // ----- runs -----

  datatype Ask = Ask(unit: byte, call: Call)

  function Asks(turns: seq<Turn>): (asks: seq<Ask>)
    ensures |asks| == |turns|
  {
    seq(|turns|, i requires 0 <= i < |turns| => Ask(turns[i].unit, turns[i].call))
  }

  /** Each line reaches the board as the earlier calls left it. */
  predicate ReadyRun(r: Rack, turns: seq<Turn>)
    decreases |turns|
  {
    turns != [] ==> Ready(r, turns[0]) && ReadyRun(Through(r, turns[0]).r, turns[1..])
  }

  function GatewayRun(r: Rack, turns: seq<Turn>): (run: seq<Seen>)
    requires ReadyRun(r, turns)
    decreases |turns|
  {
    if turns == [] then []
    else
      var first := Through(r, turns[0]);
      [first] + GatewayRun(first.r, turns[1..])
  }

  function WantedRun(r: Rack, asks: seq<Ask>): (run: seq<Seen>)
    ensures |run| == |asks|
    decreases |asks|
  {
    if asks == [] then []
    else
      var first := Wanted(r, asks[0].unit, asks[0].call);
      [first] + WantedRun(first.r, asks[1..])
  }

  /** Each call suits the board that the earlier ones ought to leave. */
  predicate SuitableRun(r: Rack, asks: seq<Ask>)
    decreases |asks|
  {
    asks != [] ==>
      && Suitable(r, asks[0].unit, asks[0].call)
      && SuitableRun(Wanted(r, asks[0].unit, asks[0].call).r, asks[1..])
  }

  predicate SameRun(a: seq<Seen>, b: seq<Seen>) {
    |a| == |b| && forall i | 0 <= i < |a| :: SameSeen(a[i], b[i])
  }

  lemma SameCons(a: Seen, as': seq<Seen>, b: Seen, bs: seq<Seen>)
    ensures SameRun([a] + as', [b] + bs) <==> SameSeen(a, b) && SameRun(as', bs)
  {
    var x, y := [a] + as', [b] + bs;
    assert x[0] == a && y[0] == b;
    assert x[1..] == as' && y[1..] == bs;
    if SameRun(x, y) {
      forall i | 0 <= i < |as'|
        ensures SameSeen(as'[i], bs[i])
      {
        assert SameSeen(x[i + 1], y[i + 1]);
      }
    }
  }

  lemma {:induction false} EachTurnSeen(r: Rack, turns: seq<Turn>)
    requires ReadyRun(r, turns)
    ensures |GatewayRun(r, turns)| == |turns|
    decreases |turns|
  {
    hide Through, Ready;
    if turns != [] {
      EachTurnSeen(Through(r, turns[0]).r, turns[1..]);
    }
  }

  /** Over any run of calls through the gateway, to whatever units, every call gives what the operation gives on the board
      that is meant, and leaves all boards as the operation would - if and only if each call suits the board that the
      earlier ones ought to leave. */
  lemma {:induction false} GatewayRunRefines(r: Rack, turns: seq<Turn>)
    requires ReadyRun(r, turns)
    ensures SameRun(GatewayRun(r, turns), WantedRun(r, Asks(turns))) <==> SuitableRun(r, Asks(turns))
    decreases |turns|
  {
    hide Through, Wanted, Suitable, Ready, SameSeen;
    if turns != [] {
      var t := turns[0];
      assert Asks(turns)[0] == Ask(t.unit, t.call) && Asks(turns)[1..] == Asks(turns[1..]);
      OneCall(r, t);
      var got, due := Through(r, t), Wanted(r, t.unit, t.call);
      SameCons(got, GatewayRun(got.r, turns[1..]), due, WantedRun(due.r, Asks(turns[1..])));
      SameRack(got, due);
      GatewayRunRefines(got.r, turns[1..]);
    }
  }

  lemma SameRack(a: Seen, b: Seen)
    ensures SameSeen(a, b) ==> a.r == b.r
  {
  }

  // ----- through the server -----

  lemma RequestShort(call: Call)
    requires !TooMuch(call)
    ensures |RequestPdu(call)| <= 252
  {
    PayloadLength(call);
    PayloadCount(call);
    hide RequestPdu, Payload;
    if call.WriteBits? {
      ByteCountFits(|call.src|);
    }
  }

  /** The connection is answered with what `nb_modbus_reply` makes of the request. */
  predicate Gives(reply: Replies, k: nat, tid: word, r: Rack, t: Turn)
    requires !TooMuch(t.call) && Ready(r, t)
  {
    hide AnswerTo, RequestPdu, Adu;
    reply(k, Adu(Tcp, tid, t.unit, RequestPdu(t.call))) == Adu(Tcp, tid, t.unit, AnswerTo(r, t))
  }

  /** A request that comes to a connection at rest is answered with what `nb_modbus_reply` makes of it - exactly when it has
      fewer than 256 bytes; a longer one stays in the buffer. */
  lemma RequestThroughServer(l: Link, room: int, e: Event, reply: Replies, tid: word, unit: byte, call: Call)
    requires Kept(l, reply) && l.waiting == [] && Left(l) == [] && Willing(l.sends) && room >= 2 && !TooMuch(call)
    requires e.readable && !e.failed && e.arrived == Adu(Tcp, tid, unit, RequestPdu(call))
    ensures var o, req := Handling(l, room, e, reply), Adu(Tcp, tid, unit, RequestPdu(call));
            && o.open && o.l.waiting == [] && Willing(o.l.sends)
            && if |req| < 256 then
                 && o.l.out == l.out + reply(|l.passed|, req) && o.l.passed == l.passed + [req] && o.l.rd == NoBuffer
               else o.l.out == l.out && o.l.passed == l.passed
  {
    hide RequestPdu, Adu, Parsed, Kept, AnswersTo, Handling;
    var req := Adu(Tcp, tid, unit, RequestPdu(call));
    RequestShort(call);
    AduSize(tid, unit, RequestPdu(call));
    ClientRequestPasses(tid, unit, call);
    assert [] + req == req;
    AnsweredAtOnce(l, room, e, reply);
    AnswersGrow(reply, l.passed, req);
    AllSent(l, reply);
    assert l.passed + [] == l.passed;
  }

  lemma AduSize(tid: word, unit: byte, pdu: seq<byte>)
    ensures |Adu(Tcp, tid, unit, pdu)| == |pdu| + 7
  {
  }

  lemma AllSent(l: Link, reply: Replies)
    requires Kept(l, reply) && l.waiting == []
    ensures l.out == AnswersTo(reply, l.passed)
  {
    hide AfterReads, RequestSplit.Fits, AnswersTo;
    assert l.out + [] == l.out;
  }

  /** What the client makes of the bytes that come back, if any do. */
  predicate ClientSees(tid: word, unit: byte, call: Call, bytes: seq<byte>, outcome: Pdu.Outcome)
    requires !TooMuch(call)
  {
    hide RequestPdu, Adu, ClientOutcome;
    && |bytes| >= 9 && |Adu(Tcp, tid, unit, RequestPdu(call))| > 7
    && var seen := ClientOutcome(Tcp, call, Adu(Tcp, tid, unit, RequestPdu(call)), bytes);
       seen == outcome || (seen.Failed? && outcome.Failed?)
  }

  /** A call from the client to a unit, through the server's connection and the gateway to the boards and back, gives what
      the operation gives on the board that is meant, and the boards change accordingly - if and only if the request has
      fewer than 256 bytes and the call suits the board. */
  lemma CallThroughServer(l: Link, room: int, e: Event, reply: Replies, tid: word, r: Rack, t: Turn)
    requires Kept(l, reply) && l.waiting == [] && Left(l) == [] && Willing(l.sends) && room >= 2
    requires !TooMuch(t.call) && Ready(r, t) && Gives(reply, |l.passed|, tid, r, t)
    requires e.readable && !e.failed && e.arrived == Adu(Tcp, tid, t.unit, RequestPdu(t.call))
    ensures var o, due := Handling(l, room, e, reply), Wanted(r, t.unit, t.call);
            && l.out <= o.l.out
            && (ClientSees(tid, t.unit, t.call, o.l.out[|l.out|..], due.outcome) && RackAfter(r, t) == due.r
                <==> |e.arrived| < 256 && Suitable(r, t.unit, t.call))
  {
    hide Handling, RequestPdu, Adu, Kept, Wanted, Suitable, AnswerTo, RackAfter, ClientOutcome, Finish, Ready;
    RequestThroughServer(l, room, e, reply, tid, t.unit, t.call);
    var req, o := e.arrived, Handling(l, room, e, reply);
    var pdu := AnswerTo(r, t);
    if |req| < 256 {
      assert o.l.out[|l.out|..] == reply(|l.passed|, req) == Adu(Tcp, tid, t.unit, pdu);
      AduSize(tid, t.unit, pdu);
      ClientReadsAdu(Tcp, t.call, tid, t.unit, pdu);
      OneCall(r, t);
    } else {
      assert o.l.out[|l.out|..] == [];
    }
  }

  // ----- runs through the server -----

  /** A call that comes on connection `k`. */
  datatype Visit = Visit(k: nat, tid: word, turn: Turn)

  function Request(v: Visit): (req: seq<byte>)
    requires !TooMuch(v.turn.call)
  {
    Adu(Tcp, v.tid, v.turn.unit, RequestPdu(v.turn.call))
  }

  function Arrival(v: Visit): Happening
    requires !TooMuch(v.turn.call)
  {
    Concerns(v.k, Event(true, false, false, Request(v), false))
  }

  function LinkOf(run: seq<Happening>, k: nat): Link {
    var clients := AfterRun(run).clients;
    if k < |clients| then clients[k].link else Opened([])
  }

  /** What connection `k` is sent in the last step of a run. */
  function SentNew(run: seq<Happening>, h: Happening, k: nat): seq<byte> {
    var before, after := LinkOf(run, k).out, LinkOf(run + [h], k).out;
    if before <= after then after[|before|..] else []
  }

  /** The boards are given the order of a call if the server passes the request on. */
  function RackThen(run: seq<Happening>, r: Rack, v: Visit): Rack
    requires !TooMuch(v.turn.call) && Ready(r, v.turn)
  {
    hide Ready, RequestPdu, Adu;
    if LinkOf(run + [Arrival(v)], v.k).passed == LinkOf(run, v.k).passed then r else RackAfter(r, v.turn)
  }

  /** A connection that owes nothing, with nothing in its buffer and a willing socket. */
  predicate AtRest(net: Net, k: nat) {
    && k < |net.clients| && net.clients[k].open
    && var l := net.clients[k].link; l.waiting == [] && Left(l) == [] && Willing(l.sends)
  }

  /** For each visit the line reaches the board as the earlier ones left it, and the server answers through the
      gateway. */
  predicate ReadyVisits(run: seq<Happening>, r: Rack, visits: seq<Visit>)
    decreases |visits|
  {
    hide Ready, RequestPdu, Adu, AfterRun;
    visits != [] ==>
      var v := visits[0];
      && !TooMuch(v.turn.call) && Ready(r, v.turn) && v.k < |AfterRun(run).clients|
      && Gives(AfterRun(run).clients[v.k].reply, |LinkOf(run, v.k).passed|, v.tid, r, v.turn)
      && ReadyVisits(run + [Arrival(v)], RackThen(run, r, v), visits[1..])
  }

  /** Every client sees what the operation gives, and the boards are left as the operation would leave them. */
  predicate VisitsSeen(run: seq<Happening>, r: Rack, visits: seq<Visit>)
    requires ReadyVisits(run, r, visits)
    decreases |visits|
  {
    hide Ready, Gives, Wanted;
    visits != [] ==>
      var v := visits[0];
      var due := Wanted(r, v.turn.unit, v.turn.call);
      && ClientSees(v.tid, v.turn.unit, v.turn.call, SentNew(run, Arrival(v), v.k), due.outcome)
      && RackThen(run, r, v) == due.r
      && VisitsSeen(run + [Arrival(v)], RackThen(run, r, v), visits[1..])
  }

  /** Each request is short enough for the server, and suits the board that the earlier ones ought to leave. */
  predicate VisitsSuit(r: Rack, visits: seq<Visit>)
    requires forall v <- visits :: !TooMuch(v.turn.call)
    decreases |visits|
  {
    hide Wanted, Suitable, RequestPdu, Adu;
    visits != [] ==>
      var v := visits[0];
      && |Request(v)| < 256 && Suitable(r, v.turn.unit, v.turn.call)
      && VisitsSuit(Wanted(r, v.turn.unit, v.turn.call).r, visits[1..])
  }

  /** One visit: its client sees the operation exactly if the request is short and suits the board, and then the
      connections are at rest again. */
  lemma OneVisit(run: seq<Happening>, r: Rack, v: Visit)
    requires !TooMuch(v.turn.call) && Ready(r, v.turn) && AtRest(AfterRun(run), v.k) && AfterRun(run).free >= 2
    requires Gives(AfterRun(run).clients[v.k].reply, |LinkOf(run, v.k).passed|, v.tid, r, v.turn)
    ensures var due := Wanted(r, v.turn.unit, v.turn.call);
            ClientSees(v.tid, v.turn.unit, v.turn.call, SentNew(run, Arrival(v), v.k), due.outcome)
            && RackThen(run, r, v) == due.r
            <==> |Request(v)| < 256 && Suitable(r, v.turn.unit, v.turn.call)
    ensures var before, after := AfterRun(run), AfterRun(run + [Arrival(v)]);
            |Request(v)| < 256 ==> after.free >= 2 && forall k | AtRest(before, k) :: AtRest(after, k)
  {
    hide Ready, Gives, Wanted, Suitable, Handling, RequestPdu, Adu, Kept, RackAfter, ClientSees, Willing;
    var net, h, t := AfterRun(run), Arrival(v), v.turn;
    assert (run + [h])[..|run|] == run;
    RunKeeps(run);
    var c := net.clients[v.k];
    assert ClientKept(c);
    var room := net.free + Slots(c.link);
    CallThroughServer(c.link, room, h.event, c.reply, v.tid, r, t);
    RequestThroughServer(c.link, room, h.event, c.reply, v.tid, t.unit, t.call);
    NothingSeen(v.tid, t.unit, t.call, Wanted(r, t.unit, t.call).outcome);
    var o := Handling(c.link, room, h.event, c.reply);
    assert LinkOf(run, v.k) == c.link && LinkOf(run + [h], v.k) == o.l;
    assert |Request(v)| >= 256 ==> SentNew(run, h, v.k) == [];
  }

  lemma NothingSeen(tid: word, unit: byte, call: Call, outcome: Pdu.Outcome)
    requires !TooMuch(call)
    ensures !ClientSees(tid, unit, call, [], outcome)
  {
    hide RequestPdu, Adu, ClientOutcome;
  }

  /** After any run of the event loop, calls that come one by one on connections at rest, whichever connections and units
      these are, all give what the operations give on the boards that are meant - if and only if every request has fewer
      than 256 bytes and suits the board that the earlier ones ought to leave. */
  lemma {:induction false} VisitsThroughServer(run: seq<Happening>, r: Rack, visits: seq<Visit>)
    requires AfterRun(run).free >= 2 && forall v <- visits :: AtRest(AfterRun(run), v.k)
    requires ReadyVisits(run, r, visits) && forall v <- visits :: !TooMuch(v.turn.call)
    ensures VisitsSeen(run, r, visits) <==> VisitsSuit(r, visits)
    decreases |visits|
  {
    hide Ready, Gives, Wanted, Suitable, AfterRun, ClientSees, RackThen, Request, SentNew, AtRest;
    if visits != [] {
      var v := visits[0];
      OneVisit(run, r, v);
      if |Request(v)| < 256 && Suitable(r, v.turn.unit, v.turn.call) {
        VisitsThroughServer(run + [Arrival(v)], RackThen(run, r, v), visits[1..]);
      }
    }
  }
}
