/** Cutting messages out of a byte stream that arrives in arbitrary pieces. */
module Receive {
  import opened Bytes
  import opened Pdu
  import opened Transport

  /** A request on its way to the server, or a confirmation on its way back. */
  datatype Kind = Indication | ConfirmationMsg

  /** `compute_meta_length_after_function` */
  function MetaLength(kind: Kind, fc: byte): nat {
    match kind
    case Indication =>
      if fc <= WRITE_SINGLE_REGISTER then 4
      else if fc == WRITE_MULTIPLE_COILS || fc == WRITE_MULTIPLE_REGISTERS then 5
      else if fc == MASK_WRITE_REGISTER then 6
      else if fc == WRITE_AND_READ_REGISTERS then 9
      else 0
    case ConfirmationMsg =>
      if fc == WRITE_SINGLE_COIL || fc == WRITE_SINGLE_REGISTER || fc == WRITE_MULTIPLE_COILS
         || fc == WRITE_MULTIPLE_REGISTERS then 4
      else if fc == MASK_WRITE_REGISTER then 6
      else 1
  }

  /** `compute_data_length_after_meta` without the checksum; `p` starts with the function code. */
  function DataLength(kind: Kind, p: seq<byte>): nat
    requires |p| >= 1 && |p| >= 1 + MetaLength(kind, p[0])
  {
    var fc := p[0];
    match kind
    case Indication =>
      if fc == WRITE_MULTIPLE_COILS || fc == WRITE_MULTIPLE_REGISTERS then p[5]
      else if fc == WRITE_AND_READ_REGISTERS then p[9]
      else 0
    case ConfirmationMsg =>
      if fc <= READ_INPUT_REGISTERS || fc == REPORT_SLAVE_ID || fc == WRITE_AND_READ_REGISTERS then p[1] else 0
  }

  /** How far a message has come: bytes up to the next decision, complete, or beyond the maximum. */
  datatype Framing = Short(need: nat) | Whole(length: nat) | TooLong

  function Frame(be: Backend, kind: Kind, s: seq<byte>): (f: Framing)
    ensures f.Short? ==> |s| < f.need <= be.MaxAdu()
    ensures f.Whole? ==> be.HeaderLength() + 1 <= f.length <= |s| && f.length <= be.MaxAdu()
  {
    var h := be.HeaderLength();
    if |s| < h + 1 then Short(h + 1)
    else
      var m := MetaLength(kind, s[h]);
      if |s| < h + 1 + m then Short(h + 1 + m)
      else
        var total := h + 1 + m + DataLength(kind, s[h..]) + be.ChecksumLength();
        if total > be.MaxAdu() then TooLong
        else if |s| < total then Short(total)
        else Whole(total)
  }

  predicate IsFrame(be: Backend, kind: Kind, msg: seq<byte>) {
    Frame(be, kind, msg) == Whole(|msg|)
  }

  /** Bytes that come later never change a decision. */
  lemma FrameStable(be: Backend, kind: Kind, s: seq<byte>, t: seq<byte>)
    ensures !Frame(be, kind, s).Short? ==> Frame(be, kind, s + t) == Frame(be, kind, s)
  {
    var h := be.HeaderLength();
    if |s| >= h + 1 {
      assert (s + t)[h] == s[h];
      if |s| >= h + 1 + MetaLength(kind, s[h]) {
        assert (s + t)[h..] == s[h..] + t;
      }
    }
  }

  /** The PDU alone decides whether its ADU is a frame. */
  predicate IsPduFrame(kind: Kind, p: seq<byte>) {
    && 1 <= |p| <= MAX_PDU
    && |p| >= 1 + MetaLength(kind, p[0])
    && |p| == 1 + MetaLength(kind, p[0]) + DataLength(kind, p)
  }

  lemma AduIsFrame(be: Backend, kind: Kind, tid: word, unit: byte, pdu: seq<byte>)
    requires IsPduFrame(kind, pdu)
    ensures IsFrame(be, kind, Adu(be, tid, unit, pdu))
  {
    var a, h := Adu(be, tid, unit, pdu), be.HeaderLength();
    AduParts(be, tid, unit, pdu);
    hide Adu;
    SliceThere(a, h, h + |pdu|);
    assert a[h..][..|pdu|] == pdu;
    assert a[h] == a[h..][0] == pdu[0];
    DataLengthOfPrefix(kind, pdu, a[h..]);
    hide DataLength, MetaLength;
  }

  lemma SliceThere(s: seq<byte>, from: nat, to: nat)
    requires from <= to <= |s|
    ensures s[from..][..to - from] == s[from..to]
  {
  }

  lemma DataLengthOfPrefix(kind: Kind, p: seq<byte>, q: seq<byte>)
    requires p <= q && |p| >= 1 && |p| >= 1 + MetaLength(kind, p[0])
    ensures DataLength(kind, q) == DataLength(kind, p)
  {
  }

  /** The line as the operating system shows it. Each `select` and `recv` consumes one grant: the number
      of bytes it would hand over, or none at all on a timeout, an error or the end of the stream. */
  class Port {
    var pending: seq<byte>
    var grants: seq<int>

    constructor (pending: seq<byte>, grants: seq<int>)
      ensures this.pending == pending && this.grants == grants
    {
      this.pending := pending;
      this.grants := grants;
    }

    method Recv(buf: array<byte>, at: nat, want: nat) returns (rc: int)
      requires 0 < want && at + want <= buf.Length
      modifies this, buf
      ensures rc == -1 || 1 <= rc <= want
      ensures rc == -1 <==> old(grants == [] || grants[0] <= 0 || pending == [])
      ensures rc == -1 ==> pending == old(pending) && buf[..] == old(buf[..])
      ensures rc > 0 ==> rc <= |old(pending)| && pending == old(pending)[rc..] && grants == old(grants)[1..]
      ensures rc > 0 ==> buf[..at + rc] == old(buf[..at]) + old(pending)[..rc] && buf[at + rc..] == old(buf[at + rc..])
    {
      if grants == [] {
        return -1;
      }
      var grant := grants[0];
      grants := grants[1..];
      if grant <= 0 || pending == [] {
        return -1;
      }
      rc := if grant < want then grant else want;
      rc := if rc < |pending| then rc else |pending|;
      forall k | 0 <= k < rc {
        buf[at + k] := pending[k];
      }
      pending := pending[rc..];
    }
  }

  /** At least `n` grants, and every one of them hands something over. */
  predicate Steady(grants: seq<int>, n: nat) {
    |grants| >= n && forall g | g in grants :: g > 0
  }

  lemma LineLetDown(used: seq<int>, grants: seq<int>, n: nat, pending: seq<byte>)
    requires |used| <= n
    requires grants == [] || grants[0] <= 0 || pending == []
    ensures Steady(used + grants, n + |pending|) ==> pending == []
  {
    if grants != [] {
      assert grants[0] == (used + grants)[|used|];
      assert grants[0] in used + grants;
    }
  }

  datatype Received = Message | Broken | Oversize

  datatype Step = StepFunction | StepMeta | StepData

  /** `_modbus_receive_msg` up to the integrity check. */
  method ReceiveMsg(be: Backend, kind: Kind, port: Port, msg: array<byte>) returns (status: Received, n: nat)
    requires msg.Length >= be.MaxAdu()
    modifies port, msg
    ensures n <= be.MaxAdu() && old(port.pending) == msg[..n] + port.pending
    ensures match status
            case Message => IsFrame(be, kind, msg[..n])
            case Oversize =>
              && Frame(be, kind, msg[..n]) == TooLong
              && be.HeaderLength() < n == be.HeaderLength() + 1 + MetaLength(kind, msg[be.HeaderLength()])
            case Broken => Frame(be, kind, msg[..n]).Short?
    // a line that keeps delivering lets the call down only when its bytes run out
    ensures status.Broken? && Steady(old(port.grants), |old(port.pending)|) ==> port.pending == []
  {
    hide Frame, IsFrame, AtStep, MetaLength, DataLength, Steady;
    var h := be.HeaderLength();
    var step := StepFunction;
    var toRead := h + 1;
    n := 0;
    ghost var used: seq<int> := [];
    assert msg[..0] == [];
    AtStart(be, kind);
    while toRead != 0
      invariant 0 <= toRead && n + toRead <= be.MaxAdu()
      invariant old(port.pending) == msg[..n] + port.pending
      invariant old(port.grants) == used + port.grants && |used| <= n
      invariant AtStep(be, kind, msg[..n], step, toRead)
      decreases if step == StepFunction then 2 else if step == StepMeta then 1 else 0, toRead
    {
      ghost var got, rest, grants := msg[..n], port.pending, port.grants;
      var rc := port.Recv(msg, n, toRead);
      if rc == -1 {
        assert msg[..n] == got;
        Unfinished(be, kind, got, step, toRead);
        LineLetDown(used, grants, n, rest);
        return Broken, n;
      }
      assert rest == rest[..rc] + port.pending;
      assert old(port.pending) == msg[..n + rc] + port.pending;
      StepAdvances(be, kind, got, rest[..rc], step, toRead);
      used := used + [grants[0]];
      n := n + rc;
      toRead := toRead - rc;
      if toRead == 0 {
        if step == StepFunction {
          toRead := MetaLength(kind, msg[h]);
          if toRead != 0 {
            MetaStarts(be, kind, msg[..n]);
            step := StepMeta;
          }
        }
        if toRead == 0 && step != StepData {
          toRead := DataLength(kind, msg[h..n]) + be.ChecksumLength();
          DataStarts(be, kind, msg[..n]);
          assert msg[..n][h..] == msg[h..n];
          if n + toRead > be.MaxAdu() {
            assert msg[..n][h] == msg[h];
            return Oversize, n;
          }
          step := StepData;
        }
      }
    }
    Finished(be, kind, msg[..n], step);
    status := Message;
  }

  lemma AtStart(be: Backend, kind: Kind)
    ensures AtStep(be, kind, [], StepFunction, be.HeaderLength() + 1)
  {
  }

  lemma MetaStarts(be: Backend, kind: Kind, s: seq<byte>)
    requires |s| == be.HeaderLength() + 1 && MetaLength(kind, s[be.HeaderLength()]) > 0
    ensures MetaLength(kind, s[be.HeaderLength()]) <= 9
    ensures AtStep(be, kind, s, StepMeta, MetaLength(kind, s[be.HeaderLength()]))
  {
  }

  lemma DataStarts(be: Backend, kind: Kind, s: seq<byte>)
    requires |s| >= be.HeaderLength() + 1
    requires |s| == be.HeaderLength() + 1 + MetaLength(kind, s[be.HeaderLength()])
    ensures var toRead := DataLength(kind, s[be.HeaderLength()..]) + be.ChecksumLength();
            && AtStep(be, kind, s, StepData, toRead)
            && (|s| + toRead > be.MaxAdu() ==> Frame(be, kind, s) == TooLong)
  {
  }

  lemma Unfinished(be: Backend, kind: Kind, s: seq<byte>, step: Step, toRead: nat)
    requires AtStep(be, kind, s, step, toRead) && 0 < toRead && |s| + toRead <= be.MaxAdu()
    ensures Frame(be, kind, s) == Short(|s| + toRead)
  {
  }

  lemma Finished(be: Backend, kind: Kind, s: seq<byte>, step: Step)
    requires AtStep(be, kind, s, step, 0) && |s| <= be.MaxAdu()
    ensures IsFrame(be, kind, s)
  {
  }

  /** What the receive loop knows between two reads: how much is to come in the present step. */
  predicate AtStep(be: Backend, kind: Kind, s: seq<byte>, step: Step, toRead: nat) {
    var h := be.HeaderLength();
    match step
    case StepFunction => 0 < toRead && |s| + toRead == h + 1
    case StepMeta => 0 < toRead && |s| >= h + 1 && |s| + toRead == h + 1 + MetaLength(kind, s[h])
    case StepData =>
      && |s| >= h + 1 && |s| >= h + 1 + MetaLength(kind, s[h])
      && |s| + toRead == h + 1 + MetaLength(kind, s[h]) + DataLength(kind, s[h..]) + be.ChecksumLength()
  }

  lemma StepAdvances(be: Backend, kind: Kind, s: seq<byte>, t: seq<byte>, step: Step, toRead: nat)
    requires AtStep(be, kind, s, step, toRead) && |t| <= toRead
    ensures |t| < toRead || step.StepData? ==> AtStep(be, kind, s + t, step, toRead - |t|)
    ensures |t| == toRead && step.StepFunction? ==> |s + t| == be.HeaderLength() + 1
    ensures |t| == toRead && step.StepMeta? ==>
              && |s + t| >= be.HeaderLength() + 1
              && |s + t| == be.HeaderLength() + 1 + MetaLength(kind, (s + t)[be.HeaderLength()])
  {
    var h := be.HeaderLength();
    if |s| >= h {
      assert (s + t)[h..] == s[h..] + t;
    }
  }
}
