/** A slave that listens to a serial bus it shares with other slaves. It tells requests from answers only by
    counting: after a request to someone else, the next message is that slave's answer. */
module RtuBus {
  import opened Bytes
  import opened RtuCrc
  import opened Pdu
  import opened Refinement
  import opened Transport
  import opened Receive
  import opened Transaction
  import Standard

  /** The bus as a listener sees it: bytes, and silences longer than the timeouts. */
  datatype Event = Octet(b: byte) | Gap

  function Octets(s: seq<byte>): (e: seq<Event>)
    ensures |e| == |s|
  {
    seq(|s|, k requires 0 <= k < |s| => Octet(s[k]))
  }

  /** The bytes before the next silence. */
  function Lead(bus: seq<Event>): (s: seq<byte>)
    ensures |s| <= |bus| && Octets(s) == bus[..|s|]
    ensures |s| < |bus| ==> bus[|s|].Gap?
  {
    if bus == [] || bus[0].Gap? then [] else [bus[0].b] + Lead(bus[1..])
  }

  function SkipGaps(bus: seq<Event>): (rest: seq<Event>)
    ensures |rest| <= |bus| && (rest == [] || rest[0].Octet?)
  {
    if bus != [] && bus[0].Gap? then SkipGaps(bus[1..]) else bus
  }

  /** Waiting for a request, the listener waits as long as it takes for the first byte; waiting for an answer
      it gives up at the first silence. */
  function Listen(kind: Kind, bus: seq<Event>): seq<Event> {
    if kind.Indication? then SkipGaps(bus) else bus
  }

  /** What a reception leaves of the bus when `n` bytes were taken. */
  function After(bus: seq<Event>, n: nat, broken: bool): seq<Event>
    requires n <= |bus|
  {
    if broken && n < |bus| then bus[n + 1..] else bus[n..]
  }

  /** How many bytes a reception takes: the frame, or those up to the point where it is given up. */
  function Taken(kind: Kind, s: seq<byte>): (n: nat)
    ensures n <= |s|
  {
    match Frame(Rtu, kind, s)
    case Whole(length) => length
    case Short(_) => |s|
    case TooLong => 2 + MetaLength(kind, s[1])
  }

  datatype Heard = Request(msg: seq<byte>) | Damaged | Nothing

  datatype Turn = Turn(heard: Heard, ignoreNext: bool, bus: seq<Event>)

  /** What a turn makes of the bytes before the next silence. */
  function Hears(slave: byte, ignoreNext: bool, g: seq<byte>): Heard {
    if ignoreNext then Nothing
    else if !Frame(Rtu, Indication, g).Whole? then Damaged
    else
      var rc := CheckIntegrity(Rtu, slave, g[..Taken(Indication, g)]);
      if rc == 0 then Nothing else if rc < 0 then Damaged else Request(g[..Taken(Indication, g)])
  }

  predicate Ignores(slave: byte, ignoreNext: bool, g: seq<byte>) {
    !ignoreNext && Hears(slave, ignoreNext, g).Nothing?
  }

  /** What the slave takes the next message for. */
  function Awaited(ignoreNext: bool): Kind {
    if ignoreNext then ConfirmationMsg else Indication
  }

  /** `_modbus_rtu_receive`, once: `ignoreNext` is the flag `confirmation_to_ignore`. */
  function ReceiveTurn(slave: byte, ignoreNext: bool, bus: seq<Event>): Turn {
    var kind := Awaited(ignoreNext);
    var line := Listen(kind, bus);
    var s := Lead(line);
    var rest := After(line, Taken(kind, s), Frame(Rtu, kind, s).Short?);
    Turn(Hears(slave, ignoreNext, s), Ignores(slave, ignoreNext, s), rest)
  }

  /** All receptions from now on, without the turns in which a message to another slave or its answer passes by. */
  function Results(slave: byte, ignoreNext: bool, bus: seq<Event>): seq<Heard>
    decreases |bus|, ignoreNext
  {
    if !ignoreNext && SkipGaps(bus) == [] then []
    else
      var t := ReceiveTurn(slave, ignoreNext, bus);
      (if t.heard.Nothing? then [] else [t.heard]) + Results(slave, t.ignoreNext, t.bus)
  }

  // ----- what masters and slaves put on the bus -----

  datatype Option<T> = None | Some(value: T)

  /** A request, after some silence, with what follows it. The answer is that of another slave; the listener's
      own answers are not on the bus it hears. A late answer comes after the timeout, and a silence follows it; it
      may be any bytes. A garbled request has a wrong checksum. */
  datatype Passage =
    | Foreign(quiet: nat, request: seq<byte>, answer: Option<seq<byte>>)
    | Late(quiet: nat, request: seq<byte>, late: seq<byte>)
    | Ours(quiet: nat, request: seq<byte>)
    | Garbled(quiet: nat, request: seq<byte>)

  predicate WellFormed(slave: byte, t: Passage) {
    && IsFrame(Rtu, Indication, t.request)
    && match t
       case Foreign(_, q, answer) =>
         q[0] != slave && q[0] != BROADCAST && (answer.Some? ==> IsFrame(Rtu, ConfirmationMsg, answer.value))
       case Late(_, q, _) => q[0] != slave && q[0] != BROADCAST
       case Ours(_, q) => (q[0] == slave || q[0] == BROADCAST) && Sealed(q)
       case Garbled(_, q) => (q[0] == slave || q[0] == BROADCAST) && !Sealed(q)
  }

  function Silence(n: nat): (e: seq<Event>) {
    seq(n, _ => Gap)
  }

  /** A slave that does not answer leaves a silence; one that does answers in time. */
  function Rendered(t: Passage): seq<Event> {
    Silence(t.quiet) + Octets(t.request) +
    match t
    case Foreign(_, _, Some(r)) => Octets(r)
    case Foreign(_, _, None) => [Gap]
    case Late(_, _, r) => [Gap] + (Octets(r) + [Gap])
    case _ => []
  }

  function Render(trace: seq<Passage>): seq<Event> {
    if trace == [] then [] else Rendered(trace[0]) + Render(trace[1..])
  }

  /** What bytes lead to that nobody waits for, before the next silence. */
  function Stray(slave: byte, g: seq<byte>): seq<Heard> {
    Results(slave, false, Octets(g) + [Gap])
  }

  function Told(slave: byte, t: Passage): seq<Heard> {
    match t
    case Foreign(_, _, _) => []
    case Late(_, _, r) => Stray(slave, r)
    case Ours(_, q) => [Request(q)]
    case Garbled(_, _) => [Damaged]
  }

  /** What the slave ought to hear: requests to it and to everyone, in order, with the garbled ones reported, and
      what it makes of late answers. */
  function Expected(slave: byte, trace: seq<Passage>): seq<Heard> {
    if trace == [] then [] else Told(slave, trace[0]) + Expected(slave, trace[1..])
  }

  // ----- one message -----

  lemma {:induction false} LeadOfOctets(s: seq<byte>, rest: seq<Event>)
    ensures Lead(Octets(s) + rest) == s + Lead(rest)
  {
    if s == [] {
      assert Octets(s) + rest == rest;
    } else {
      var bus := Octets(s) + rest;
      assert bus[0] == Octet(s[0]) && bus[1..] == Octets(s[1..]) + rest;
      hide Octets;
      LeadOfOctets(s[1..], rest);
      assert [s[0]] + (s[1..] + Lead(rest)) == s + Lead(rest);
    }
  }

  lemma {:induction false} SilenceSkipped(n: nat, s: seq<byte>, rest: seq<Event>)
    requires s != []
    ensures SkipGaps(Silence(n) + Octets(s) + rest) == Octets(s) + rest
  {
    var bus := Silence(n) + Octets(s) + rest;
    if n == 0 {
      assert bus == Octets(s) + rest;
    } else {
      assert bus[1..] == Silence(n - 1) + Octets(s) + rest;
      SilenceSkipped(n - 1, s, rest);
    }
  }

  /** A frame at the head of the line is taken, whole, and nothing else. */
  lemma FrameTaken(kind: Kind, frame: seq<byte>, rest: seq<Event>)
    requires IsFrame(Rtu, kind, frame)
    ensures var line := Octets(frame) + rest; var s := Lead(line);
            && Frame(Rtu, kind, s) == Whole(|frame|) && Taken(kind, s) == |frame| && s[..|frame|] == frame
            && After(line, |frame|, false) == rest
  {
    LeadOfOctets(frame, rest);
    FrameStable(Rtu, kind, frame, Lead(rest));
    hide Frame;
  }

  lemma RequestTurn(slave: byte, t: Passage, rest: seq<Event>)
    requires WellFormed(slave, t)
    ensures ReceiveTurn(slave, false, Silence(t.quiet) + Octets(t.request) + rest)
            == Turn(match t
                    case Ours(_, q) => Request(q)
                    case Garbled(_, _) => Damaged
                    case _ => Nothing, t.Foreign? || t.Late?, rest)
  {
    hide Frame, Taken, Sealed;
    assert t.request != [] by {
      assert IsFrame(Rtu, Indication, t.request);
    }
    SilenceSkipped(t.quiet, t.request, rest);
    FrameTaken(Indication, t.request, rest);
  }

  lemma AnswerTurn(slave: byte, r: seq<byte>, rest: seq<Event>)
    requires IsFrame(Rtu, ConfirmationMsg, r)
    ensures ReceiveTurn(slave, true, Octets(r) + rest) == Turn(Nothing, false, rest)
  {
    hide Frame, Taken;
    FrameTaken(ConfirmationMsg, r, rest);
  }

  lemma TimeoutTurn(slave: byte, rest: seq<Event>)
    ensures ReceiveTurn(slave, true, [Gap] + rest) == Turn(Nothing, false, rest)
  {
  }

  lemma Waiting(slave: byte, t: Passage, rest: seq<Event>)
    requires WellFormed(slave, t)
    ensures SkipGaps(Silence(t.quiet) + Octets(t.request) + rest) != []
  {
    assert IsFrame(Rtu, Indication, t.request);
    SilenceSkipped(t.quiet, t.request, rest);
  }

  // ----- bytes without a silence -----

  lemma OctetsCut(g: seq<byte>, n: nat, behind: seq<Event>)
    requires n <= |g|
    ensures (Octets(g) + behind)[n..] == Octets(g[n..]) + behind
  {
  }

  /** What is decided about bytes is not changed by what follows them. */
  lemma DecidedAlready(slave: byte, ignoreNext: bool, r: seq<byte>, t: seq<byte>)
    requires !Frame(Rtu, Awaited(ignoreNext), r).Short?
    ensures var kind := Awaited(ignoreNext);
            && r != [] && !Frame(Rtu, kind, r + t).Short? && Taken(kind, r + t) == Taken(kind, r)
            && Hears(slave, ignoreNext, r + t) == Hears(slave, ignoreNext, r)
            && Ignores(slave, ignoreNext, r + t) == Ignores(slave, ignoreNext, r)
  {
    var kind := Awaited(ignoreNext);
    FrameStable(Rtu, kind, r, t);
    SameTaken(kind, r, t);
    assert (r + t)[..Taken(kind, r)] == r[..Taken(kind, r)];
    hide Frame, Taken, CheckIntegrity;
  }

  lemma SameTaken(kind: Kind, r: seq<byte>, t: seq<byte>)
    requires !Frame(Rtu, kind, r).Short? && Frame(Rtu, kind, r + t) == Frame(Rtu, kind, r)
    ensures r != [] && Taken(kind, r + t) == Taken(kind, r)
  {
    if r != [] {
      assert |r| > 1 ==> (r + t)[1] == r[1];
    }
  }

  lemma DecidedTurn(slave: byte, ignoreNext: bool, r: seq<byte>, rest: seq<Event>)
    requires !Frame(Rtu, Awaited(ignoreNext), r).Short?
    ensures ReceiveTurn(slave, ignoreNext, Octets(r) + rest)
            == Turn(Hears(slave, ignoreNext, r), Ignores(slave, ignoreNext, r),
                    Octets(r[Taken(Awaited(ignoreNext), r)..]) + rest)
    ensures SkipGaps(Octets(r) + rest) != []
  {
    DecidedAlready(slave, ignoreNext, r, Lead(rest));
    LeadOfOctets(r, rest);
    assert (Octets(r) + rest)[0] == Octet(r[0]);
    OctetsCut(r, Taken(Awaited(ignoreNext), r), rest);
    hide Frame, Taken, Octets, Lead, Hears, Ignores;
  }

  /** A request whose byte count promises too much is reported where that is seen, and what follows is taken for the
      next message; of an answer that was to be ignored nothing is reported. */
  lemma OverlongReported(slave: byte, g: seq<byte>, rest: seq<Event>)
    ensures |g| >= 7 && g[1] in {15, 16} && g[6] > 247 ==>
              ReceiveTurn(slave, false, Octets(g) + rest) == Turn(Damaged, false, Octets(g[7..]) + rest)
    ensures |g| >= 11 && g[1] == 23 && g[10] > 243 ==>
              ReceiveTurn(slave, false, Octets(g) + rest) == Turn(Damaged, false, Octets(g[11..]) + rest)
    ensures |g| >= 3 && g[1] in {0, 1, 2, 3, 4, 17, 23} && g[2] > 251 ==>
              ReceiveTurn(slave, true, Octets(g) + rest) == Turn(Nothing, false, Octets(g[3..]) + rest)
  {
    hide ReceiveTurn, Octets, CheckIntegrity;
    if |g| >= 2 {
      Standard.OverlongExactly(Rtu, g);
      if Frame(Rtu, Indication, g) == TooLong {
        DecidedTurn(slave, false, g, rest);
      }
      if Frame(Rtu, ConfirmationMsg, g) == TooLong {
        DecidedTurn(slave, true, g, rest);
      }
    }
  }

  /** How far a listener gets with bytes: what it heard, its flag, and the beginning of a message that it still waits
      for the rest of. */
  datatype Progress = Progress(heard: seq<Heard>, ignoreNext: bool, left: seq<byte>)

  function Worked(slave: byte, ignoreNext: bool, r: seq<byte>): Progress
    decreases |r|
  {
    var kind := Awaited(ignoreNext);
    if Frame(Rtu, kind, r).Short? then Progress([], ignoreNext, r)
    else
      SomethingTaken(kind, r);
      var heard := Hears(slave, ignoreNext, r);
      var w := Worked(slave, Ignores(slave, ignoreNext, r), r[Taken(kind, r)..]);
      Progress((if heard.Nothing? then [] else [heard]) + w.heard, w.ignoreNext, w.left)
  }

  lemma SomethingTaken(kind: Kind, g: seq<byte>)
    ensures !Frame(Rtu, kind, g).Short? ==> 0 < Taken(kind, g)
  {
  }

  lemma OneTurn(slave: byte, ignoreNext: bool, bus: seq<Event>)
    requires ignoreNext || SkipGaps(bus) != []
    ensures var t := ReceiveTurn(slave, ignoreNext, bus);
            && |t.bus| <= |bus|
            && Results(slave, ignoreNext, bus)
               == (if t.heard.Nothing? then [] else [t.heard]) + Results(slave, t.ignoreNext, t.bus)
  {
    hide Frame, Sealed;
  }

  lemma Grouped(a: seq<Heard>, b: seq<Heard>, c: seq<Heard>)
    ensures a + (b + c) == (a + b) + c
  {
  }

  lemma NothingMore(heard: seq<Heard>)
    ensures [] + heard == heard
  {
  }

  /** Nothing but the bytes decides how far a listener gets with them. */
  lemma {:induction false} WorksThrough(slave: byte, ignoreNext: bool, r: seq<byte>, rest: seq<Event>)
    ensures var w := Worked(slave, ignoreNext, r);
            && Frame(Rtu, Awaited(w.ignoreNext), w.left).Short?
            && Results(slave, ignoreNext, Octets(r) + rest) == w.heard + Results(slave, w.ignoreNext, Octets(w.left) + rest)
    decreases |r|
  {
    hide Frame, Taken, Octets, Hears, Ignores, Results, SkipGaps, ReceiveTurn;
    var kind := Awaited(ignoreNext);
    if Frame(Rtu, kind, r).Short? {
      NothingMore(Results(slave, ignoreNext, Octets(r) + rest));
    } else {
      SomethingTaken(kind, r);
      DecidedTurn(slave, ignoreNext, r, rest);
      OneTurn(slave, ignoreNext, Octets(r) + rest);
      var flag, later := Ignores(slave, ignoreNext, r), r[Taken(kind, r)..];
      WorksThrough(slave, flag, later, rest);
      var w := Worked(slave, flag, later);
      var heard := Hears(slave, ignoreNext, r);
      Grouped(if heard.Nothing? then [] else [heard], w.heard, Results(slave, w.ignoreNext, Octets(w.left) + rest));
    }
  }

  // ----- silence -----

  lemma LineBeforeSilence(g: seq<byte>, rest: seq<Event>)
    ensures Lead(Octets(g) + [Gap] + rest) == g
    ensures g != [] ==> SkipGaps(Octets(g) + [Gap] + rest) == Octets(g) + [Gap] + rest
  {
    LeadOfOctets(g, [Gap] + rest);
    assert Octets(g) + [Gap] + rest == Octets(g) + ([Gap] + rest);
    assert Lead([Gap] + rest) == [] && g + [] == g;
  }

  lemma NothingLeft(slave: byte)
    ensures Results(slave, false, []) == []
  {
  }

  lemma ShortTaken(kind: Kind, g: seq<byte>)
    ensures Frame(Rtu, kind, g).Short? ==> Taken(kind, g) == |g|
  {
    hide Frame;
  }

  lemma GapSkipped(slave: byte, rest: seq<Event>)
    ensures Results(slave, false, Octets([]) + [Gap] + rest) == Results(slave, false, rest)
  {
    var bus := Octets([]) + [Gap] + rest;
    assert bus[0].Gap? && bus[1..] == rest;
    assert SkipGaps(bus) == SkipGaps(rest);
  }

  lemma BrokenTurn(slave: byte, ignoreNext: bool, g: seq<byte>, rest: seq<Event>)
    requires Frame(Rtu, Awaited(ignoreNext), g).Short? && (ignoreNext || g != [])
    ensures var bus := Octets(g) + [Gap] + rest;
            && (ignoreNext || SkipGaps(bus) != [])
            && ReceiveTurn(slave, ignoreNext, bus) == Turn(if ignoreNext then Nothing else Damaged, false, rest)
  {
    hide Frame, Taken, Octets, Lead, SkipGaps, Hears, Ignores;
    var bus := Octets(g) + [Gap] + rest;
    LineBeforeSilence(g, rest);
    ShortTaken(Awaited(ignoreNext), g);
    BrokenHeard(slave, ignoreNext, g);
    assert After(bus, |g|, true) == rest;
  }

  lemma BrokenHeard(slave: byte, ignoreNext: bool, g: seq<byte>)
    requires Frame(Rtu, Awaited(ignoreNext), g).Short?
    ensures Hears(slave, ignoreNext, g) == (if ignoreNext then Nothing else Damaged) && !Ignores(slave, ignoreNext, g)
  {
    hide Frame, Taken, CheckIntegrity;
  }

  /** The beginning of a message is given up at a silence: one that was to be ignored goes unnoticed. */
  lemma GivenUp(slave: byte, ignoreNext: bool, g: seq<byte>, rest: seq<Event>)
    requires Frame(Rtu, Awaited(ignoreNext), g).Short?
    ensures Results(slave, ignoreNext, Octets(g) + [Gap] + rest)
            == (if ignoreNext || g == [] then [] else [Damaged]) + Results(slave, false, rest)
  {
    hide Frame, Octets, SkipGaps, Results, ReceiveTurn;
    NothingMore(Results(slave, false, rest));
    if g == [] && !ignoreNext {
      GapSkipped(slave, rest);
    } else {
      BrokenTurn(slave, ignoreNext, g, rest);
      OneTurn(slave, ignoreNext, Octets(g) + [Gap] + rest);
    }
  }

  /** What bytes lead to when a silence follows them. */
  function Noticed(slave: byte, ignoreNext: bool, g: seq<byte>): seq<Heard> {
    var w := Worked(slave, ignoreNext, g);
    w.heard + if w.ignoreNext || w.left == [] then [] else [Damaged]
  }

  lemma NoticedThen(slave: byte, ignoreNext: bool, g: seq<byte>, rest: seq<Event>)
    ensures Results(slave, ignoreNext, Octets(g) + [Gap] + rest)
            == Noticed(slave, ignoreNext, g) + Results(slave, false, rest)
  {
    hide Frame, Octets, Results, Worked;
    var w := Worked(slave, ignoreNext, g);
    assert Octets(g) + [Gap] + rest == Octets(g) + ([Gap] + rest);
    WorksThrough(slave, ignoreNext, g, [Gap] + rest);
    assert Octets(w.left) + [Gap] + rest == Octets(w.left) + ([Gap] + rest);
    GivenUp(slave, w.ignoreNext, w.left, rest);
    Grouped(w.heard, if w.ignoreNext || w.left == [] then [] else [Damaged], Results(slave, false, rest));
  }

  /** A silence always brings the slave into step: whatever bytes came before it, and whether or not an answer was
      to be ignored, after it the slave waits for a request. What it hears before is what it noticed of the bytes. */
  lemma SilenceResynchronises(slave: byte, ignoreNext: bool, g: seq<byte>, rest: seq<Event>)
    ensures Results(slave, ignoreNext, Octets(g) + [Gap] + rest)
            == Results(slave, ignoreNext, Octets(g) + [Gap]) + Results(slave, false, rest)
    ensures Results(slave, ignoreNext, Octets(g) + [Gap]) == Noticed(slave, ignoreNext, g)
  {
    hide Results, Noticed, Octets;
    NoticedThen(slave, ignoreNext, g, rest);
    NoticedThen(slave, ignoreNext, g, []);
    NothingLeft(slave);
    assert Octets(g) + [Gap] + [] == Octets(g) + [Gap];
    assert Noticed(slave, ignoreNext, g) + [] == Noticed(slave, ignoreNext, g);
  }

  /** A late echo of another slave is taken for a request to it, and the silence behind it for its answer. */
  lemma LateEchoSwallowed(slave: byte, r: seq<byte>)
    requires IsFrame(Rtu, Indication, r) && r[0] != slave && r[0] != BROADCAST
    ensures Stray(slave, r) == []
  {
    hide Results, Octets, Frame, Silence;
    var t := Foreign(0, r, None);
    NoSilence(Octets(r));
    assert Octets(r) + [Gap] == Silence(0) + Octets(r) + ([Gap] + []);
    ForeignPasses(slave, t, [Gap] + []);
    TimeoutIgnored(slave, []);
    NothingLeft(slave);
  }

  // ----- whole runs -----

  /** A request to another slave passes by, and the next message will be ignored. */
  lemma ForeignPasses(slave: byte, t: Passage, rest: seq<Event>)
    requires WellFormed(slave, t) && (t.Foreign? || t.Late?)
    ensures Results(slave, false, Silence(t.quiet) + Octets(t.request) + rest) == Results(slave, true, rest)
  {
    hide ReceiveTurn, WellFormed, Octets, Silence, SkipGaps, Results;
    RequestTurn(slave, t, rest);
    Waiting(slave, t, rest);
    OneTurn(slave, false, Silence(t.quiet) + Octets(t.request) + rest);
    NothingMore(Results(slave, true, rest));
  }

  /** A request to this slave or to everyone is heard, or reported. */
  lemma OwnHeard(slave: byte, t: Passage, rest: seq<Event>)
    requires WellFormed(slave, t) && (t.Ours? || t.Garbled?)
    ensures Results(slave, false, Silence(t.quiet) + Octets(t.request) + rest)
            == Told(slave, t) + Results(slave, false, rest)
  {
    hide ReceiveTurn, WellFormed, Octets, Silence, SkipGaps, Results;
    RequestTurn(slave, t, rest);
    Waiting(slave, t, rest);
    OneTurn(slave, false, Silence(t.quiet) + Octets(t.request) + rest);
  }

  lemma AnswerIgnored(slave: byte, r: seq<byte>, rest: seq<Event>)
    requires IsFrame(Rtu, ConfirmationMsg, r)
    ensures Results(slave, true, Octets(r) + rest) == Results(slave, false, rest)
  {
    hide ReceiveTurn, Octets, Results, Frame;
    AnswerTurn(slave, r, rest);
    OneTurn(slave, true, Octets(r) + rest);
    NothingMore(Results(slave, false, rest));
  }

  lemma TimeoutIgnored(slave: byte, rest: seq<Event>)
    ensures Results(slave, true, [Gap] + rest) == Results(slave, false, rest)
  {
    hide ReceiveTurn, Results;
    TimeoutTurn(slave, rest);
    OneTurn(slave, true, [Gap] + rest);
    NothingMore(Results(slave, false, rest));
  }

  lemma PassageTold(slave: byte, t: Passage, later: seq<Event>)
    requires WellFormed(slave, t)
    ensures Results(slave, false, Rendered(t) + later) == Told(slave, t) + Results(slave, false, later)
  {
    hide Results, Octets, Silence, WellFormed, Rendered, Told;
    if t.Ours? || t.Garbled? {
      OwnTold(slave, t, later);
    } else if t.Late? {
      LateTold(slave, t, later);
    } else if t.answer.None? {
      UnansweredTold(slave, t, later);
    } else {
      AnsweredTold(slave, t, later);
    }
  }

  lemma OwnTold(slave: byte, t: Passage, later: seq<Event>)
    requires WellFormed(slave, t) && (t.Ours? || t.Garbled?)
    ensures Results(slave, false, Rendered(t) + later) == Told(slave, t) + Results(slave, false, later)
  {
    hide Results, Octets, Silence, WellFormed, Told;
    assert Rendered(t) + later == Silence(t.quiet) + Octets(t.request) + later;
    OwnHeard(slave, t, later);
  }

  lemma LateTold(slave: byte, t: Passage, later: seq<Event>)
    requires WellFormed(slave, t) && t.Late?
    ensures Results(slave, false, Rendered(t) + later) == Told(slave, t) + Results(slave, false, later)
  {
    hide Results, Octets, Silence, WellFormed;
    var stray := Octets(t.late) + [Gap] + later;
    assert Rendered(t) + later == Silence(t.quiet) + Octets(t.request) + ([Gap] + stray);
    ForeignPasses(slave, t, [Gap] + stray);
    TimeoutIgnored(slave, stray);
    SilenceResynchronises(slave, false, t.late, later);
  }

  lemma UnansweredTold(slave: byte, t: Passage, later: seq<Event>)
    requires WellFormed(slave, t) && t.Foreign? && t.answer.None?
    ensures Results(slave, false, Rendered(t) + later) == Told(slave, t) + Results(slave, false, later)
  {
    hide Results, Octets, Silence, WellFormed;
    NothingMore(Results(slave, false, later));
    assert Rendered(t) + later == Silence(t.quiet) + Octets(t.request) + ([Gap] + later);
    ForeignPasses(slave, t, [Gap] + later);
    TimeoutIgnored(slave, later);
  }

  lemma AnsweredTold(slave: byte, t: Passage, later: seq<Event>)
    requires WellFormed(slave, t) && t.Foreign? && t.answer.Some?
    ensures Results(slave, false, Rendered(t) + later) == Told(slave, t) + Results(slave, false, later)
  {
    hide Results, Octets, Silence, WellFormed;
    NothingMore(Results(slave, false, later));
    WellFormedAnswer(slave, t);
    var answer := Octets(t.answer.value) + later;
    assert Rendered(t) + later == Silence(t.quiet) + Octets(t.request) + answer;
    ForeignPasses(slave, t, answer);
    AnswerIgnored(slave, t.answer.value, later);
  }

  /** The slave never takes an answer for a request or a request for an answer: whatever passes on the bus, it
      hears exactly the requests meant for it, in order - and late answers confuse it until the next silence only. */
  lemma {:induction false} StaysInStep(slave: byte, trace: seq<Passage>)
    requires forall t <- trace :: WellFormed(slave, t)
    ensures Results(slave, false, Render(trace)) == Expected(slave, trace)
  {
    hide Results, WellFormed, Rendered, Told;
    if trace == [] {
      NothingLeft(slave);
    } else {
      PassageTold(slave, trace[0], Render(trace[1..]));
      StaysInStep(slave, trace[1..]);
    }
  }

  /** A late answer may be any bytes. A request of the slave's own behind it is heard if and only if a silence comes
      between the two, or the slave has worked through the answer to its end and waits for a request. */
  lemma RequestBehindLate(slave: byte, q: seq<byte>, r: seq<byte>, quiet: nat, ours: seq<byte>, rest: seq<Event>)
    requires WellFormed(slave, Foreign(0, q, None)) && WellFormed(slave, Ours(0, ours))
    ensures var w := Worked(slave, false, r);
            Results(slave, false, Octets(q) + [Gap] + Octets(r) + Silence(quiet) + Octets(ours) + rest)
            == if quiet > 0 then Stray(slave, r) + ([Request(ours)] + Results(slave, false, rest))
               else if w.left == [] && !w.ignoreNext then w.heard + ([Request(ours)] + Results(slave, false, rest))
               else w.heard + Results(slave, w.ignoreNext, Octets(w.left) + (Octets(ours) + rest))
  {
    hide Results, WellFormed, Octets, Silence, Worked, Frame;
    var own := Octets(ours) + rest;
    var third := Silence(quiet) + own;
    var second := Octets(r) + third;
    assert Octets(q) + [Gap] + Octets(r) + Silence(quiet) + Octets(ours) + rest
        == Octets(q) + ([Gap] + second);
    NoSilence(Octets(q) + ([Gap] + second));
    assert Silence(0) + (Octets(q) + ([Gap] + second)) == Silence(0) + Octets(q) + ([Gap] + second);
    ForeignPasses(slave, Foreign(0, q, None), [Gap] + second);
    TimeoutIgnored(slave, second);
    if quiet > 0 {
      HeardAfterSilence(slave, r, quiet, ours, rest);
    } else {
      NoSilence(own);
      WorksThrough(slave, false, r, own);
      HeardAtOnce(slave, ours, rest);
    }
  }

  lemma HeardAfterSilence(slave: byte, r: seq<byte>, quiet: nat, ours: seq<byte>, rest: seq<Event>)
    requires quiet > 0 && WellFormed(slave, Ours(0, ours))
    ensures Results(slave, false, Octets(r) + (Silence(quiet) + (Octets(ours) + rest)))
            == Stray(slave, r) + ([Request(ours)] + Results(slave, false, rest))
  {
    hide WellFormed, Octets, Silence, Results;
    OneSilenceLess(quiet);
    var later := Silence(quiet - 1) + Octets(ours) + rest;
    assert Octets(r) + (Silence(quiet) + (Octets(ours) + rest)) == Octets(r) + [Gap] + later;
    SilenceResynchronises(slave, false, r, later);
    Shifted(slave, ours, quiet - 1);
    OwnHeard(slave, Ours(quiet - 1, ours), rest);
  }

  lemma HeardAtOnce(slave: byte, ours: seq<byte>, rest: seq<Event>)
    requires WellFormed(slave, Ours(0, ours))
    ensures Results(slave, false, Octets([]) + (Octets(ours) + rest)) == [Request(ours)] + Results(slave, false, rest)
  {
    hide WellFormed, Results;
    assert Octets([]) + (Octets(ours) + rest) == Silence(0) + Octets(ours) + rest;
    OwnHeard(slave, Ours(0, ours), rest);
  }

  /** Otherwise it is torn: the reception under way takes bytes of it, and what is heard then, if anything, begins with
      what was left of the answer. */
  lemma TornRequest(slave: byte, ignoreNext: bool, left: seq<byte>, ours: seq<byte>, rest: seq<Event>)
    requires WellFormed(slave, Ours(0, ours)) && Frame(Rtu, Awaited(ignoreNext), left).Short?
    requires left != [] || ignoreNext
    ensures var own := Octets(ours) + rest;
            var t := ReceiveTurn(slave, ignoreNext, Octets(left) + own);
            && (exists k | 0 < k <= |own| :: t.bus == own[k..])
            && (t.heard.Request? ==> left != [] && left < t.heard.msg)
  {
    hide Frame, Octets, Lead, Taken, Hears, ReceiveTurn, SkipGaps, WellFormed;
    var kind, own := Awaited(ignoreNext), Octets(ours) + rest;
    var bus := Octets(left) + own;
    LeadOfOctets(left, own);
    LeadOfOctets(ours, rest);
    OwnBytes(slave, ours);
    NotSkipped(left, own);
    TakenBeyond(kind, left, Lead(own));
    var n := TurnTakes(slave, ignoreNext, bus);
    CutBeyond(left, own, n);
    HeardFrom(slave, ignoreNext, Lead(bus));
  }

  lemma TurnTakes(slave: byte, ignoreNext: bool, bus: seq<Event>) returns (n: nat)
    requires ignoreNext || SkipGaps(bus) == bus
    ensures var t, s := ReceiveTurn(slave, ignoreNext, bus), Lead(bus);
            && t.heard == Hears(slave, ignoreNext, s)
            && Taken(Awaited(ignoreNext), s) <= n <= |bus| && t.bus == bus[n..]
  {
    hide Frame, Lead, Taken, Hears, Ignores;
    var kind, s := Awaited(ignoreNext), Lead(bus);
    n := Taken(kind, s);
    if Frame(Rtu, kind, s).Short? && n < |bus| {
      n := n + 1;
    }
  }

  lemma CutBeyond(left: seq<byte>, own: seq<Event>, n: nat)
    requires |left| <= n <= |left| + |own|
    ensures (Octets(left) + own)[n..] == own[n - |left|..]
  {
  }

  lemma NotSkipped(left: seq<byte>, own: seq<Event>)
    ensures left != [] ==> SkipGaps(Octets(left) + own) == Octets(left) + own
  {
    if left != [] {
      assert (Octets(left) + own)[0] == Octet(left[0]);
    }
  }

  lemma HeardFrom(slave: byte, ignoreNext: bool, s: seq<byte>)
    ensures Hears(slave, ignoreNext, s).Request? ==>
              !ignoreNext && Hears(slave, ignoreNext, s).msg == s[..Taken(Indication, s)]
  {
    hide Frame, Taken, CheckIntegrity;
  }

  /** A message that is not complete yet takes what comes next with it. */
  lemma TakenBeyond(kind: Kind, left: seq<byte>, more: seq<byte>)
    requires Frame(Rtu, kind, left).Short? && more != []
    ensures |left| < Taken(kind, left + more) <= |left| + |more|
  {
    var s := left + more;
    if |left| >= 2 {
      assert s[1] == left[1];
      assert s[1..] == left[1..] + more;
    }
  }

  /** What is left of the bus when its head was taken for an answer. */
  function AfterAnswer(slave: byte, bus: seq<Event>): seq<Event> {
    ReceiveTurn(slave, true, bus).bus
  }

  /** A slave that echoes a write after the timeout makes the listener take the echo for a request. A request of its
      own that follows is then taken for the answer and lost - exactly when no silence comes between the two. */
  lemma LateEchoHidesRequest(slave: byte, q: seq<byte>, quiet: nat, ours: seq<byte>, rest: seq<Event>)
    requires WellFormed(slave, Foreign(0, q, None)) && WellFormed(slave, Ours(0, ours))
    ensures Results(slave, false, Octets(q) + [Gap] + Octets(q) + Silence(quiet) + Octets(ours) + rest)
            == if quiet == 0 then Results(slave, false, AfterAnswer(slave, Octets(ours) + rest))
               else [Request(ours)] + Results(slave, false, rest)
  {
    hide Results, WellFormed, Octets, Silence, AfterAnswer, Worked;
    EchoWorked(slave, q);
    RequestBehindLate(slave, q, q, quiet, ours, rest);
    if quiet == 0 {
      var own := Octets(ours) + rest;
      assert Octets([]) + own == own;
      TakenForAnswer(slave, own);
      NothingMore(Results(slave, false, AfterAnswer(slave, own)));
    } else {
      NothingMore([Request(ours)] + Results(slave, false, rest));
    }
  }

  /** The echo is taken for another request. */
  lemma EchoWorked(slave: byte, q: seq<byte>)
    requires WellFormed(slave, Foreign(0, q, None))
    ensures Worked(slave, false, q) == Progress([], true, []) && Stray(slave, q) == []
  {
    hide Frame, Sealed, Results, Octets;
    assert q[|q|..] == [];
    assert q[..|q|] == q;
    EmptyUnfinished();
    LateEchoSwallowed(slave, q);
  }

  lemma EmptyUnfinished()
    ensures Frame(Rtu, ConfirmationMsg, []).Short?
  {
  }

  lemma TakenForAnswer(slave: byte, bus: seq<Event>)
    ensures Results(slave, true, bus) == Results(slave, false, AfterAnswer(slave, bus))
  {
    hide ReceiveTurn, Results;
    OneTurn(slave, true, bus);
    IgnoredAnswer(slave, bus);
    var later := Results(slave, false, AfterAnswer(slave, bus));
    assert [] + later == later;
  }

  lemma IgnoredAnswer(slave: byte, bus: seq<Event>)
    ensures ReceiveTurn(slave, true, bus).heard.Nothing? && !ReceiveTurn(slave, true, bus).ignoreNext
  {
    hide Frame, Taken, Lead, Listen, CheckIntegrity;
  }

  /** Taken for an answer, a request is cut: the reception takes bytes of it and may take more than it has. If it could be
      an answer, it goes whole, and nothing else does. */
  lemma HiddenRequest(slave: byte, ours: seq<byte>, rest: seq<Event>)
    requires WellFormed(slave, Ours(0, ours))
    ensures var bus := Octets(ours) + rest;
            && (exists k | 0 < k <= |bus| :: AfterAnswer(slave, bus) == bus[k..])
            && (IsFrame(Rtu, ConfirmationMsg, ours) ==> AfterAnswer(slave, bus) == rest)
  {
    hide Frame, Octets, ReceiveTurn;
    var bus := Octets(ours) + rest;
    EmptyUnfinished();
    assert Octets([]) + bus == bus;
    TornRequest(slave, true, [], ours, rest);
    if IsFrame(Rtu, ConfirmationMsg, ours) {
      AnswerTurn(slave, ours, rest);
    }
  }

  lemma OwnBytes(slave: byte, ours: seq<byte>)
    requires WellFormed(slave, Ours(0, ours))
    ensures ours != []
  {
    assert IsFrame(Rtu, Indication, ours);
  }

  lemma OneSilenceLess(n: nat)
    requires n > 0
    ensures Silence(n) == [Gap] + Silence(n - 1)
  {
  }

  lemma Shifted(slave: byte, ours: seq<byte>, quiet: nat)
    requires WellFormed(slave, Ours(0, ours))
    ensures WellFormed(slave, Ours(quiet, ours))
  {
  }

  lemma NoSilence(bus: seq<Event>)
    ensures Silence(0) + bus == bus
  {
  }

  lemma WellFormedAnswer(slave: byte, t: Passage)
    requires WellFormed(slave, t) && t.Foreign? && t.answer.Some?
    ensures IsFrame(Rtu, ConfirmationMsg, t.answer.value)
  {
  }

  lemma RequestOnBus(unit: byte, call: Call)
    requires !TooMuch(call)
    ensures var req := Adu(Rtu, 0, unit, RequestPdu(call));
            |req| >= 4 && IsFrame(Rtu, Indication, req) && req[0] == unit && Sealed(req)
  {
    hide RequestPdu, Frame, IsPduFrame;
    var q := RequestPdu(call);
    RequestFramed(call);
    AduIsFrame(Rtu, Indication, 0, unit, q);
    SealedBySending([unit] + q);
    RequestFits(Rtu, 0, unit, call);
  }

  /** The library's own traffic is well formed: requests to this slave or to everyone, and another slave's
      exchange with a client. */
  lemma OwnTraffic(slave: byte, quiet: nat, unit: byte, call: Call)
    requires !TooMuch(call) && (unit == slave || unit == BROADCAST)
    ensures WellFormed(slave, Ours(quiet, Adu(Rtu, 0, unit, RequestPdu(call))))
  {
    hide Adu, RequestPdu, Frame, Sealed;
    RequestOnBus(unit, call);
  }

  lemma ForeignTraffic(slave: byte, quiet: nat, m: Mapping, unit: byte, call: Call, stale: seq<byte>)
    requires !TooMuch(call) && !WritesBelowStart(m, call) && |stale| >= 256
    requires unit != slave && unit != BROADCAST
    ensures var req := Adu(Rtu, 0, unit, RequestPdu(call));
            && |req| >= 4
            && ReplyTo(Rtu, m, req + stale, |req|).Send?
            && WellFormed(slave, Foreign(quiet, req, Some(ReplyTo(Rtu, m, req + stale, |req|).msg)))
  {
    hide Adu, ReplyTo, RequestPdu, Frame, Sealed, WritesBelowStart, Direct, ClientOutcome, CheckIntegrity, TooMuch;
    RequestOnBus(unit, call);
    ExchangeRefines(Rtu, m, 0, unit, call, stale);
  }

  /** A slave on the bus: `modbus_rtu_t` with its flag, and the bus in front of it. */
  class Slave {
    const slave: byte
    var confirmationToIgnore: bool
    var bus: seq<Event>

    constructor (slave: byte, bus: seq<Event>)
      ensures this.slave == slave && this.bus == bus && !confirmationToIgnore
    {
      this.slave, this.bus := slave, bus;
      confirmationToIgnore := false;
    }

    /** `_modbus_rtu_receive`. The bytes before the next silence come in pieces of any size. Without any byte
        on the bus a listener for requests would wait for ever. */
    method Receive(grants: seq<int>, msg: array<byte>) returns (rc: int)
      requires msg.Length >= 256
      requires confirmationToIgnore || SkipGaps(bus) != []
      requires Steady(grants, |bus|)
      modifies this`bus, this`confirmationToIgnore, msg
      ensures -1 <= rc <= msg.Length
      ensures Turn(if rc == 0 then Nothing else if rc < 0 then Damaged else Request(msg[..rc]), confirmationToIgnore, bus)
              == ReceiveTurn(slave, old(confirmationToIgnore), old(bus))
    {
      hide Frame, Steady, Sealed, SkipGaps, Lead;
      var kind := Awaited(confirmationToIgnore);
      var line := Listen(kind, bus);
      var s := Lead(line);
      var port := new Port(s, grants);
      SteadyEnough(grants, |bus|, |s|);
      var status, n := ReceiveMsg(Rtu, kind, port, msg);
      FrameStable(Rtu, kind, msg[..n], port.pending);
      assert s[..n] == msg[..n];
      if status.Broken? {
        assert s == msg[..n];
      }
      bus := After(line, n, status.Broken?);
      if confirmationToIgnore {
        confirmationToIgnore := false;
        rc := 0;
      } else {
        if status.Message? {
          rc := CheckIntegrity(Rtu, slave, msg[..n]);
        } else {
          rc := -1;
        }
        if rc == 0 {
          confirmationToIgnore := true;
        }
      }
    }
  }

  lemma SteadyEnough(grants: seq<int>, n: nat, k: nat)
    requires Steady(grants, n) && k <= n
    ensures Steady(grants, k)
  {
  }
}
