/** Moving everything a UART has received to the pseudo-terminal that stands for it. */
module ArmPty {
  import opened Bytes
  import opened Uart

  const BUFFER_SIZE := 256

  const TRIES := 3

  /** Where the reading loop ends: the queue, what is in the buffer, what was written, which reads succeeded and
      what is left of the script. */
  datatype End = End(q: Queue, buf: seq<byte>, written: seq<byte>, log: seq<bool>, script: seq<Exchange>)

  function Head(script: seq<Exchange>): Exchange {
    if script == [] then NoReply else script[0]
  }

  function Tail(script: seq<Exchange>): seq<Exchange> {
    if script == [] then [] else script[1..]
  }

  predicate PossibleAll(script: seq<Exchange>) {
    forall x <- script :: Possible(x)
  }

  function Before(written: seq<byte>, log: seq<bool>, e: End): End {
    e.(written := written + e.written, log := log + e.log)
  }

  /** The number of characters that the next read asks for. */
  function Asked(remain: int, buf: seq<byte>): (n: nat)
    requires remain > 0 && |buf| < BUFFER_SIZE
    ensures 0 < n <= BUFFER_SIZE - |buf|
  {
    if remain > BUFFER_SIZE - |buf| then BUFFER_SIZE - |buf| else remain
  }

  /** The loop of `armpty_readuart`. The device answers as the script says, and not at all after its end. */
  function Collect(q: Queue, buf: seq<byte>, tries: nat, script: seq<Exchange>): (e: End)
    requires q.Valid() && |buf| < BUFFER_SIZE && 0 < tries && PossibleAll(script)
    ensures e.q.Valid() && |e.buf| < BUFFER_SIZE && PossibleAll(e.script)
    decreases |script|, tries
  {
    if q.remain <= 0 then End(q, buf, [], [], script)
    else
      match ReadingString(q, Asked(q.remain, buf), Head(script))
      case Fails(q1) =>
        if tries == 1 then End(q1, buf, [], [false], Tail(script))
        else Before([], [false], Collect(q1, buf, tries - 1, Tail(script)))
      case Read(q1, got) =>
        if |buf + got| == BUFFER_SIZE then Before(buf + got, [true], Collect(q1, [], TRIES, Tail(script)))
        else Before([], [true], Collect(q1, buf + got, TRIES, Tail(script)))
  }

  /** One read is enough where the device hands over all that waits, and this and the queue are no more than was announced:
      everything is in the buffer then, and nothing left in the queue. */
  lemma OneReadBringsAll(q: Queue, data: seq<byte>, script: seq<Exchange>)
    requires q.Valid() && PossibleAll(script) && script != [] && script[0] == Reply(Idle, Str(data, 0))
    requires |q.chars| + |data| <= q.remain < 256 && 0 < q.remain
    ensures Collect(q, [], 3, script) == End(q.(chars := [], remain := 0), q.chars + data, [], [true], script[1..])
  {
    var r := ReadingString(q, q.remain, script[0]);
    assert q.chars[..|q.chars|] == q.chars && data[..|data|] == data;
    assert r == Read(q.(chars := [], remain := 0), q.chars + data);
    assert [] + (q.chars + data) == q.chars + data;
  }

  /** What came in during the loop and found room in the queue or the buffer. */
  function Arrived(q: Queue, buf: seq<byte>, tries: nat, script: seq<Exchange>): seq<byte>
    requires q.Valid() && |buf| < BUFFER_SIZE && 0 < tries && PossibleAll(script)
    decreases |script|, tries
  {
    if q.remain <= 0 then []
    else
      var n, x := Asked(q.remain, buf), Head(script);
      Kept(q, n, x) +
      match ReadingString(q, n, x)
      case Fails(q1) => if tries == 1 then [] else Arrived(q1, buf, tries - 1, Tail(script))
      case Read(q1, got) => Arrived(q1, if |buf + got| == BUFFER_SIZE then [] else buf + got, TRIES, Tail(script))
  }

  lemma ReadKeeps(buf: seq<byte>, q: Queue, n: nat, x: Exchange)
    requires q.Valid() && 0 < n && Possible(x)
    ensures match ReadingString(q, n, x)
            case Fails(q1) => buf + q1.chars == buf + q.chars + Kept(q, n, x)
            case Read(q1, got) => x.Reply? && buf + got + q1.chars == buf + q.chars + Kept(q, n, x)
  {
    StreamKept(q, n, x);
    var r := ReadingString(q, n, x);
    assert x.NoReply? ==> r.Fails?;
    hide ReadingString, Kept, HeaderTaken;
    AfterBuffer(buf, Got(r), r.q.chars, q.chars, Kept(q, n, x));
    if r.Fails? {
      assert buf + [] == buf;
    }
  }

  lemma AfterBuffer(buf: seq<byte>, got: seq<byte>, left: seq<byte>, chars: seq<byte>, kept: seq<byte>)
    requires got + left == chars + kept
    ensures buf + got + left == buf + chars + kept
  {
    Regroup(buf, got, left);
    Regroup(buf, chars, kept);
  }

  lemma FailureStep(q: Queue, buf: seq<byte>, tries: nat, script: seq<Exchange>)
    requires q.Valid() && |buf| < BUFFER_SIZE && 0 < tries && PossibleAll(script) && q.remain > 0
    requires ReadingString(q, Asked(q.remain, buf), Head(script)).Fails?
    ensures var q1 := ReadingString(q, Asked(q.remain, buf), Head(script)).q;
            Collect(q, buf, tries, script)
            == if tries == 1 then End(q1, buf, [], [false], Tail(script))
               else Before([], [false], Collect(q1, buf, tries - 1, Tail(script)))
  {
    hide ReadingString, Asked, Before;
  }

  lemma ReadStep(q: Queue, buf: seq<byte>, tries: nat, script: seq<Exchange>)
    requires q.Valid() && |buf| < BUFFER_SIZE && 0 < tries && PossibleAll(script) && q.remain > 0
    requires ReadingString(q, Asked(q.remain, buf), Head(script)).Read?
    ensures script != []
    ensures var r := ReadingString(q, Asked(q.remain, buf), Head(script));
            Collect(q, buf, tries, script)
            == if |buf + r.got| == BUFFER_SIZE then Before(buf + r.got, [true], Collect(r.q, [], TRIES, Tail(script)))
               else Before([], [true], Collect(r.q, buf + r.got, TRIES, Tail(script)))
  {
    ReadKeeps(buf, q, Asked(q.remain, buf), Head(script));
    hide ReadingString, Asked, Before, Kept;
  }

  lemma ArrivedStep(q: Queue, buf: seq<byte>, tries: nat, script: seq<Exchange>)
    requires q.Valid() && |buf| < BUFFER_SIZE && 0 < tries && PossibleAll(script) && q.remain > 0
    ensures var n := Asked(q.remain, buf);
            Arrived(q, buf, tries, script) == Kept(q, n, Head(script)) +
            match ReadingString(q, n, Head(script))
            case Fails(q1) => if tries == 1 then [] else Arrived(q1, buf, tries - 1, Tail(script))
            case Read(q1, got) => Arrived(q1, if |buf + got| == BUFFER_SIZE then [] else buf + got, TRIES, Tail(script))
  {
    hide ReadingString, Kept;
  }

  /** All bytes the loop leaves behind: written, buffered, queued. */
  function Total(e: End): seq<byte> {
    e.written + e.buf + e.q.chars
  }

  lemma TotalBefore(written: seq<byte>, log: seq<bool>, e: End)
    ensures Total(Before(written, log, e)) == written + Total(e)
  {
    assert (written + e.written) + e.buf + e.q.chars == written + (e.written + e.buf + e.q.chars);
  }

  lemma TotalEnd(q: Queue, buf: seq<byte>, log: seq<bool>, script: seq<Exchange>)
    ensures Total(End(q, buf, [], log, script)) == buf + q.chars
  {
    assert [] + buf == buf;
  }

  lemma NothingBefore(s: seq<byte>)
    ensures [] + s == s && s + [] == s
  {
  }

  /** Everything is somewhere, in order. */
  lemma {:induction false} CollectKeeps(q: Queue, buf: seq<byte>, tries: nat, script: seq<Exchange>)
    requires q.Valid() && |buf| < BUFFER_SIZE && 0 < tries && PossibleAll(script)
    ensures Total(Collect(q, buf, tries, script)) == buf + q.chars + Arrived(q, buf, tries, script)
    decreases |script|, tries
  {
    if q.remain <= 0 {
      TotalEnd(q, buf, [], script);
      NothingBefore(buf + q.chars);
    } else {
      hide ReadingString, Kept, Collect, Arrived, Asked, Total, Before;
      var n, x := Asked(q.remain, buf), Head(script);
      var r, kept := ReadingString(q, n, x), Kept(q, n, x);
      ReadKeeps(buf, q, n, x);
      ArrivedStep(q, buf, tries, script);
      if r.Fails? {
        FailureStep(q, buf, tries, script);
        if tries > 1 {
          var e, later := Collect(r.q, buf, tries - 1, Tail(script)), Arrived(r.q, buf, tries - 1, Tail(script));
          CollectKeeps(r.q, buf, tries - 1, Tail(script));
          TotalBefore([], [false], e);
          NothingBefore(Total(e));
          Regroup(buf + q.chars, kept, later);
        } else {
          TotalEnd(r.q, buf, [false], Tail(script));
          NothingBefore(kept);
        }
      } else {
        ReadStep(q, buf, tries, script);
        KeepsAfterRead(q, buf, tries, script, r.q, buf + r.got, kept);
      }
    }
  }

  lemma {:induction false} KeepsAfterRead(q: Queue, buf: seq<byte>, tries: nat, script: seq<Exchange>,
                                          q1: Queue, all: seq<byte>, kept: seq<byte>)
    requires q.Valid() && q1.Valid() && |buf| < BUFFER_SIZE && |all| <= BUFFER_SIZE && script != [] && PossibleAll(script)
    requires all + q1.chars == buf + q.chars + kept
    ensures var next := if |all| == BUFFER_SIZE then [] else all;
            && Total(Before(if |all| == BUFFER_SIZE then all else [], [true], Collect(q1, next, TRIES, Tail(script))))
               == buf + q.chars + (kept + Arrived(q1, next, TRIES, Tail(script)))
    decreases |script|, tries, 0
  {
    hide Collect, Arrived, Total, Before;
    var next := if |all| == BUFFER_SIZE then [] else all;
    var e, later := Collect(q1, next, TRIES, Tail(script)), Arrived(q1, next, TRIES, Tail(script));
    CollectKeeps(q1, next, TRIES, Tail(script));
    TotalBefore(if |all| == BUFFER_SIZE then all else [], [true], e);
    NothingBefore(Total(e));
    NothingBefore(q1.chars);
    Regroup(buf + q.chars, kept, later);
    Regroup(all, q1.chars, later);
  }

  /** How `armpty_readuart` ends, with an open terminal: what it wrote to it and what it took out of the queue without
      writing it. The last write has the wrong length, zero. */
  datatype Outcome = Outcome(written: seq<byte>, unwritten: seq<byte>, q: Queue)

  /** The two drains after the loop. */
  function Drain(e: End): Outcome
    requires e.q.Valid() && |e.buf| < BUFFER_SIZE
  {
    var room := BUFFER_SIZE - |e.buf|;
    var r := ReadingQueue(e.q, room);
    if |r.got| == room then
      var r2 := ReadingQueue(r.q, BUFFER_SIZE);
      Outcome(e.written + e.buf + r.got, r2.got, r2.q)
    else Outcome(e.written + e.buf + r.got, [], r.q)
  }

  /** `armpty_readuart`; `idle` is the header of the reply to the idle operation it may begin with. */
  function ReadUart(q: Queue, idle: Header, script: seq<Exchange>): Outcome
    requires q.Valid() && PossibleAll(script)
  {
    Drain(Collect(HeaderTaken(q, idle), [], TRIES, script))
  }

  lemma DrainEmpties(e: End)
    requires e.q.Valid() && |e.buf| < BUFFER_SIZE
    ensures var o := Drain(e);
            && o.q.chars == [] && o.written + o.unwritten == e.written + e.buf + e.q.chars
            && (o.unwritten == [] <==> |e.buf + e.q.chars| <= BUFFER_SIZE)
  {
    var room := BUFFER_SIZE - |e.buf|;
    var r := ReadingQueue(e.q, room);
    if |e.q.chars| < room {
      assert r.got == e.q.chars;
    } else {
      assert e.q.chars == e.q.chars[..room] + e.q.chars[room..];
      assert r.q.chars == e.q.chars[room..] && r.q.chars[..|r.q.chars|] == r.q.chars;
    }
  }

  // ----- what the loop leaves, by lengths alone -----

  /** The queue after a header: one longer if it brings a character and there is room. */
  function Longer(len: nat, h: Header): (n: nat)
    requires len <= MAX_LOCAL_QUEUE_LEN
    ensures n <= MAX_LOCAL_QUEUE_LEN
  {
    if h.Char? && len < MAX_LOCAL_QUEUE_LEN then len + 1 else len
  }

  function Announced(remain: int, h: Header): int {
    if h.Idle? then remain else if h.len == 0 then 255 else h.len - 1
  }

  /** How many characters the loop leaves in buffer and queue: `len` are queued, `remain` wait on the other side,
      `filled` are in the buffer. Of the replies only the lengths matter. */
  function Remnant(len: nat, remain: int, filled: nat, tries: nat, script: seq<Exchange>): nat
    requires len <= MAX_LOCAL_QUEUE_LEN && filled < BUFFER_SIZE && 0 < tries && PossibleAll(script)
    decreases |script|, tries
  {
    if remain <= 0 then filled + len
    else
      var n := if remain > BUFFER_SIZE - filled then BUFFER_SIZE - filled else remain;
      match Head(script)
      case NoReply => if tries == 1 then filled + len else Remnant(len, remain, filled, tries - 1, Tail(script))
      case Reply(h, Unusable) =>
        if tries == 1 then filled + Longer(len, h)
        else Remnant(Longer(len, h), Announced(remain, h), filled, tries - 1, Tail(script))
      case Reply(h, Str(data, left)) =>
        var all := Longer(len, h) + |data|;
        var got := Min(n, all);
        Remnant(Min(all - got, MAX_LOCAL_QUEUE_LEN), left, if filled + got == BUFFER_SIZE then 0 else filled + got, TRIES,
                Tail(script))
  }

  lemma ReadLengths(q: Queue, n: nat, x: Exchange)
    requires q.Valid() && 0 < n && Possible(x)
    ensures var r, len := ReadingString(q, n, x), |q.chars|;
            match x
            case NoReply => r == Fails(q)
            case Reply(h, Unusable) =>
              r.Fails? && |r.q.chars| == Longer(len, h) && r.q.remain == Announced(q.remain, h)
            case Reply(h, Str(data, left)) =>
              var all := Longer(len, h) + |data|;
              && r.Read? && |r.got| == Min(n, all) && r.q.remain == left
              && |r.q.chars| == Min(all - Min(n, all), MAX_LOCAL_QUEUE_LEN)
  {
  }

  lemma {:induction false} RemnantIs(q: Queue, buf: seq<byte>, tries: nat, script: seq<Exchange>)
    requires q.Valid() && |buf| < BUFFER_SIZE && 0 < tries && PossibleAll(script)
    ensures var e := Collect(q, buf, tries, script);
            |e.buf + e.q.chars| == Remnant(|q.chars|, q.remain, |buf|, tries, script)
    decreases |script|, tries
  {
    hide ReadingString, Collect;
    if q.remain <= 0 {
      CollectEnds(q, buf, tries, script);
    } else {
      var n, x := Asked(q.remain, buf), Head(script);
      var r := ReadingString(q, n, x);
      ReadLengths(q, n, x);
      hide Longer, Announced;
      if r.Fails? {
        FailureStep(q, buf, tries, script);
        if tries > 1 {
          RemnantIs(r.q, buf, tries - 1, Tail(script));
        }
      } else {
        ReadStep(q, buf, tries, script);
        RemnantIs(r.q, if |buf + r.got| == BUFFER_SIZE then [] else buf + r.got, TRIES, Tail(script));
      }
    }
  }

  lemma CollectEnds(q: Queue, buf: seq<byte>, tries: nat, script: seq<Exchange>)
    requires q.Valid() && |buf| < BUFFER_SIZE && 0 < tries && PossibleAll(script) && q.remain <= 0
    ensures Collect(q, buf, tries, script) == End(q, buf, [], [], script)
  {
  }

  /** The characters that all replies bring. */
  function Incoming(script: seq<Exchange>): nat {
    if script == [] then 0
    else
      Incoming(script[1..]) +
      match script[0]
      case NoReply => 0
      case Reply(h, Unusable) => |HeaderChars(h)|
      case Reply(h, Str(data, _)) => |HeaderChars(h)| + |data|
  }

  lemma {:induction false} RemnantBounded(len: nat, remain: int, filled: nat, tries: nat, script: seq<Exchange>)
    requires len <= MAX_LOCAL_QUEUE_LEN && filled < BUFFER_SIZE && 0 < tries && PossibleAll(script)
    ensures Remnant(len, remain, filled, tries, script) <= filled + len + Incoming(script)
    decreases |script|, tries
  {
    if remain > 0 {
      var n := if remain > BUFFER_SIZE - filled then BUFFER_SIZE - filled else remain;
      match Head(script)
      case NoReply =>
        if tries > 1 {
          RemnantBounded(len, remain, filled, tries - 1, Tail(script));
        }
      case Reply(h, Unusable) =>
        if tries > 1 {
          RemnantBounded(Longer(len, h), Announced(remain, h), filled, tries - 1, Tail(script));
        }
      case Reply(h, Str(data, left)) =>
        var all := Longer(len, h) + |data|;
        var got := Min(n, all);
        RemnantBounded(Min(all - got, MAX_LOCAL_QUEUE_LEN), left,
                       if filled + got == BUFFER_SIZE then 0 else filled + got, TRIES, Tail(script));
    }
  }

  /** The terminal gets all that was queued and all that came in, in order - exactly when queue and replies are such that
      the loop leaves no more than one buffer of it; nothing stays queued either way. 256 characters in all are
      never too many. */
  lemma TerminalGetsAll(q: Queue, idle: Header, script: seq<Exchange>)
    requires q.Valid() && PossibleAll(script)
    ensures var q0, o := HeaderTaken(q, idle), ReadUart(q, idle, script);
            var all := q0.chars + Arrived(q0, [], TRIES, script);
            && o.q.chars == [] && o.written + o.unwritten == all
            && (o.written == all <==> Remnant(|q0.chars|, q0.remain, 0, TRIES, script) <= BUFFER_SIZE)
            && (|q0.chars| + Incoming(script) <= BUFFER_SIZE ==> o.written == all)
  {
    hide Collect, Arrived, Drain, HeaderTaken, Remnant, Incoming;
    var q0 := HeaderTaken(q, idle);
    var all := q0.chars + Arrived(q0, [], TRIES, script);
    var e := Collect(q0, [], TRIES, script);
    CollectKeeps(q0, [], TRIES, script);
    assert [] + q0.chars == q0.chars;
    assert Total(e) == all;
    DrainEmpties(e);
    Whole(Drain(e).written, Drain(e).unwritten, all);
    RemnantIs(q0, [], TRIES, script);
    RemnantBounded(|q0.chars|, q0.remain, 0, TRIES, script);
  }

  lemma Whole(a: seq<byte>, b: seq<byte>, all: seq<byte>)
    requires a + b == all
    ensures a == all <==> b == []
  {
    assert |a + b| == |a| + |b|;
    assert a + [] == a;
  }

  /** A full queue, one more character announced and delivered: it never reaches the terminal. */
  lemma LastByteUnwritten(full: seq<byte>, b: byte)
    requires |full| == 256
    ensures var o := ReadUart(Queue(full, 1, 0), Idle, [Reply(Idle, Str([b], 0))]);
            o.written == full && o.unwritten == [b]
  {
    var q, script := Queue(full, 1, 0), [Reply(Idle, Str([b], 0))];
    var q1 := Queue(full[1..] + [b], 0, 0);
    assert [b][..1] == [b] && full[..1] == [full[0]];
    assert ReadingString(q, 1, script[0]) == Read(q1, [full[0]]);
    assert Tail(script) == [];
    assert Collect(q1, [] + [full[0]], TRIES, []) == End(q1, [full[0]], [], [], []);
    var e := Collect(q, [], TRIES, script);
    assert e == Before([], [true], End(q1, [full[0]], [], [], []));
    assert q1.chars[..255] == full[1..] && q1.chars[255..] == [b];
    assert full == [full[0]] + full[1..];
  }

  function Failures(n: nat): (log: seq<bool>)
    ensures |log| == n
  {
    seq(n, _ => false)
  }

  /** No three reads in a row failed, other than the last three. */
  predicate GoesOn(log: seq<bool>) {
    forall i: nat | i + 3 < |log| :: log[i] || log[i + 1] || log[i + 2]
  }

  predicate GivesUp(log: seq<bool>) {
    |log| >= 3 && !log[|log| - 1] && !log[|log| - 2] && !log[|log| - 3]
  }

  lemma GoesOnAfter(n: nat, log: seq<bool>)
    requires n < 3 && GoesOn(log)
    ensures GoesOn(Failures(n) + ([true] + log))
    ensures GivesUp(log) ==> GivesUp(Failures(n) + ([true] + log))
  {
    var all := Failures(n) + ([true] + log);
    assert all[n];
    forall i: nat | i + 3 < |all|
      ensures all[i] || all[i + 1] || all[i + 2]
    {
      if i > n {
        var k := i - n - 1;
        assert all[i] == log[k] && all[i + 1] == log[k + 1] && all[i + 2] == log[k + 2];
      }
    }
  }

  /** A loop that ends with characters still waiting on the other side ends through the third failed read in a
      row, and no loop goes on after that. */
  lemma {:induction false} ThreeFailures(q: Queue, buf: seq<byte>, tries: nat, script: seq<Exchange>)
    requires q.Valid() && |buf| < BUFFER_SIZE && 0 < tries <= TRIES && PossibleAll(script)
    ensures var e := Collect(q, buf, tries, script);
            var log := Failures(TRIES - tries) + e.log;
            GoesOn(log) && (e.q.remain > 0 ==> GivesUp(log))
    decreases |script|, tries
  {
    hide ReadingString, GoesOn, GivesUp, Failures, Collect, Asked;
    FewFailures();
    if q.remain <= 0 {
      AtEnd([], [], q, buf, tries, script);
      AtStart(Collect(q, buf, tries, script));
    } else {
      var r := ReadingString(q, Asked(q.remain, buf), Head(script));
      if r.Fails? {
        FailureStep(q, buf, tries, script);
        if tries > 1 {
          ThreeFailures(r.q, buf, tries - 1, Tail(script));
          OneMore(TRIES - tries, Collect(r.q, buf, tries - 1, Tail(script)).log);
        }
      } else {
        ReadStep(q, buf, tries, script);
        var next := if |buf + r.got| == BUFFER_SIZE then [] else buf + r.got;
        ThreeFailures(r.q, next, TRIES, Tail(script));
        GoesOnAfter(TRIES - tries, Collect(r.q, next, TRIES, Tail(script)).log);
      }
    }
  }

  lemma FewFailures()
    ensures GoesOn(Failures(0) + []) && GoesOn(Failures(1) + []) && GoesOn(Failures(2) + [])
    ensures GoesOn(Failures(2) + [false]) && GivesUp(Failures(2) + [false])
    ensures forall log :: Failures(0) + log == log
  {
    forall log
      ensures Failures(0) + log == log
    {
    }
  }

  lemma OneMore(n: nat, log: seq<bool>)
    ensures Failures(n + 1) + log == Failures(n) + ([false] + log)
  {
  }

  /** The terminal: all that was ever written to it. */
  class Pty {
    var out: seq<byte>

    constructor ()
      ensures out == []
    {
      out := [];
    }

    method Write(buffer: array<byte>, n: nat)
      requires n <= buffer.Length
      modifies this
      ensures out == old(out) + buffer[..n]
    {
      out := out + buffer[..n];
    }
  }

  lemma BeforeBefore(w1: seq<byte>, l1: seq<bool>, w2: seq<byte>, l2: seq<bool>, e: End)
    ensures Before(w1, l1, Before(w2, l2, e)) == Before(w1 + w2, l1 + l2, e)
  {
    assert w1 + (w2 + e.written) == w1 + w2 + e.written && l1 + (l2 + e.log) == l1 + l2 + e.log;
  }

  lemma AfterFailure(done: seq<byte>, log: seq<bool>, q: Queue, buf: seq<byte>, tries: nat, script: seq<Exchange>)
    requires q.Valid() && |buf| < BUFFER_SIZE && 0 < tries && PossibleAll(script) && q.remain > 0
    requires ReadingString(q, Asked(q.remain, buf), Head(script)).Fails?
    ensures var q1 := ReadingString(q, Asked(q.remain, buf), Head(script)).q;
            && Before(done, log, Collect(q, buf, tries, script))
               == (if tries == 1 then End(q1, buf, done, log + [false], Tail(script))
                   else Before(done, log + [false], Collect(q1, buf, tries - 1, Tail(script))))
  {
    FailureStep(q, buf, tries, script);
    hide ReadingString, Collect;
    var q1 := ReadingString(q, Asked(q.remain, buf), Head(script)).q;
    assert done + [] == done;
    if tries > 1 {
      BeforeBefore(done, log, [], [false], Collect(q1, buf, tries - 1, Tail(script)));
    }
  }

  lemma AfterRead(done: seq<byte>, log: seq<bool>, q: Queue, buf: seq<byte>, tries: nat, script: seq<Exchange>)
    requires q.Valid() && |buf| < BUFFER_SIZE && 0 < tries && PossibleAll(script) && q.remain > 0
    requires ReadingString(q, Asked(q.remain, buf), Head(script)).Read?
    ensures script != []
    ensures var r := ReadingString(q, Asked(q.remain, buf), Head(script));
            var all := buf + r.got;
            && Before(done, log, Collect(q, buf, tries, script))
               == (if |all| == BUFFER_SIZE then Before(done + all, log + [true], Collect(r.q, [], TRIES, Tail(script)))
                   else Before(done, log + [true], Collect(r.q, all, TRIES, Tail(script))))
  {
    ReadStep(q, buf, tries, script);
    hide ReadingString, Collect, Before;
    var r := ReadingString(q, Asked(q.remain, buf), Head(script));
    var all := buf + r.got;
    assert done + [] == done;
    if |all| == BUFFER_SIZE {
      BeforeBefore(done, log, all, [true], Collect(r.q, [], TRIES, Tail(script)));
    } else {
      BeforeBefore(done, log, [], [true], Collect(r.q, all, TRIES, Tail(script)));
    }
  }

  lemma AtEnd(done: seq<byte>, log: seq<bool>, q: Queue, buf: seq<byte>, tries: nat, script: seq<Exchange>)
    requires q.Valid() && |buf| < BUFFER_SIZE && 0 < tries && PossibleAll(script) && q.remain <= 0
    ensures Before(done, log, Collect(q, buf, tries, script)) == End(q, buf, done, log, script)
  {
    assert done + [] == done && log + [] == log;
  }

  lemma AtStart(e: End)
    ensures Before([], [], e) == e
  {
    assert [] + e.written == e.written && [] + e.log == e.log;
  }

  /** The loop. */
  method CollectInto(queue: UartQueue, pty: Pty, buffer: array<byte>, script: seq<Exchange>)
    returns (nr: nat, ghost e: End)
    requires queue.Valid() && PossibleAll(script) && buffer.Length == BUFFER_SIZE && buffer != queue.buffer
    modifies queue, queue.buffer, pty, buffer
    ensures queue.Valid() && nr < BUFFER_SIZE
    ensures e == Collect(old(queue.Value()), [], TRIES, script)
    ensures e.q == queue.Value() && e.buf == buffer[..nr] && pty.out == old(pty.out) + e.written
  {
    hide ReadingString, Asked, Collect, Before, Written;
    var wanted, tries := BUFFER_SIZE, TRIES;
    nr := 0;
    e := Collect(queue.Value(), [], TRIES, script);
    ghost var done: seq<byte>, log: seq<bool> := [], [];
    var rest := script;
    assert buffer[..nr] == [];
    AtStart(e);
    while queue.remain > 0
      invariant queue.Valid() && nr + wanted == BUFFER_SIZE && 0 < wanted && 0 < tries <= TRIES
      invariant PossibleAll(rest)
      invariant e == Before(done, log, Collect(queue.Value(), buffer[..nr], tries, rest))
      invariant pty.out == old(pty.out) + done
      decreases |rest|, tries
    {
      ghost var q, buf, before := queue.Value(), buffer[..nr], buffer[..];
      var n := if queue.remain > wanted then wanted else queue.remain;
      AskedIs(q.remain, buf);
      var rc := queue.ReadString(buffer, nr, n, Head(rest));
      if rc < 0 {
        assert buffer[..nr] == buf;
        AfterFailure(done, log, q, buf, tries, rest);
        log := log + [false];
        rest := Tail(rest);
        tries := tries - 1;
        if tries == 0 {
          break;
        }
      } else {
        AfterRead(done, log, q, buf, tries, rest);
        WrittenBehind(before, buffer[..], nr, ReadingString(q, n, Head(rest)).got);
        log := log + [true];
        rest := Tail(rest);
        tries := TRIES;
        wanted := wanted - rc;
        nr := nr + rc;
        if wanted == 0 {
          pty.Write(buffer, nr);
          done := done + buffer[..nr];
          nr := 0;
          wanted := BUFFER_SIZE;
        }
      }
    }
    if tries > 0 {
      AtEnd(done, log, queue.Value(), buffer[..nr], tries, rest);
    }
  }

  /** The two drains. What the second one takes is not written: by then `nr` is zero. */
  method DrainInto(queue: UartQueue, pty: Pty, buffer: array<byte>, filled: nat, ghost out: seq<byte>, ghost e: End)
    requires queue.Valid() && buffer.Length == BUFFER_SIZE && buffer != queue.buffer && filled < BUFFER_SIZE
    requires e.q == queue.Value() && e.buf == buffer[..filled] && pty.out == out + e.written
    modifies queue, queue.buffer, pty, buffer
    ensures queue.Valid() && queue.Value() == Drain(e).q
    ensures pty.out == out + Drain(e).written
  {
    hide Written;
    var nr, wanted := filled, BUFFER_SIZE - filled;
    ghost var before, got := buffer[..], ReadingQueue(e.q, BUFFER_SIZE - filled).got;
    var n := queue.ReadQueued(buffer, nr, wanted);
    WrittenBehind(before, buffer[..], nr, got);
    nr := nr + n;
    Regroup(out, e.written, e.buf + got);
    Regroup(e.written, e.buf, got);
    if nr > 0 {
      pty.Write(buffer, nr);
      nr := 0;
    }
    assert pty.out == out + (e.written + e.buf + got);
    if n == wanted {
      n := queue.ReadQueued(buffer, 0, BUFFER_SIZE);
      if n > 0 {
        pty.Write(buffer, nr);
        assert buffer[..nr] == [];
      }
    }
  }

  /** `armpty_readuart` with a terminal that takes all it is given. */
  method ReadUartInto(queue: UartQueue, pty: Pty, idle: Header, script: seq<Exchange>)
    requires queue.Valid() && PossibleAll(script)
    modifies queue, queue.buffer, pty
    ensures queue.Valid()
    ensures var o := ReadUart(old(queue.Value()), idle, script);
            queue.Value() == o.q && pty.out == old(pty.out) + o.written
  {
    hide ReadingString, Collect, Written, Drain;
    var buffer := new byte[BUFFER_SIZE];
    match idle {
      case Idle =>
      case Char(ch, len) => queue.QueueUart(ch, len);
    }
    var nr, e := CollectInto(queue, pty, buffer, script);
    DrainInto(queue, pty, buffer, nr, old(pty.out), e);
  }

  lemma AskedIs(remain: int, buf: seq<byte>)
    requires remain > 0 && |buf| < BUFFER_SIZE
    ensures Asked(remain, buf) == if remain > BUFFER_SIZE - |buf| then BUFFER_SIZE - |buf| else remain
  {
  }

  lemma WrittenBehind(before: seq<byte>, after: seq<byte>, at: nat, s: seq<byte>)
    requires Written(before, after, at, s)
    ensures after[..at + |s|] == before[..at] + s
  {
  }
}
