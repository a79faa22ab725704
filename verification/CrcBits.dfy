/** The 16-bit shift register under both checksums of this system, one bit at a time. */
module CrcBits {
  import opened Bytes

  /** A 16-bit register; `b0` is its least significant bit. */
  datatype Reg = Reg(b0: bool, b1: bool, b2: bool, b3: bool, b4: bool, b5: bool, b6: bool, b7: bool,
                     b8: bool, b9: bool, b10: bool, b11: bool, b12: bool, b13: bool, b14: bool, b15: bool)

  /** The register whose low and high halves hold the given bytes. */
  function RegOf(lo: bv8, hi: bv8): Reg {
    var s, t := Unpack8(lo), Unpack8(hi);
    Reg(s[0], s[1], s[2], s[3], s[4], s[5], s[6], s[7], t[0], t[1], t[2], t[3], t[4], t[5], t[6], t[7])
  }

  lemma RegOfInjective(lo: bv8, hi: bv8, lo': bv8, hi': bv8)
    requires RegOf(lo, hi) == RegOf(lo', hi')
    ensures lo == lo' && hi == hi'
  {
  }

  function XorReg(r: Reg, s: Reg): Reg {
    Reg(r.b0 != s.b0, r.b1 != s.b1, r.b2 != s.b2, r.b3 != s.b3,
        r.b4 != s.b4, r.b5 != s.b5, r.b6 != s.b6, r.b7 != s.b7,
        r.b8 != s.b8, r.b9 != s.b9, r.b10 != s.b10, r.b11 != s.b11,
        r.b12 != s.b12, r.b13 != s.b13, r.b14 != s.b14, r.b15 != s.b15)
  }

  /** One shift to the right; a 1 that falls out feeds the polynomial 0xA001 (bits 15, 13 and 0) back. */
  function Shift(r: Reg): Reg {
    Reg(r.b1 != r.b0, r.b2, r.b3, r.b4, r.b5, r.b6, r.b7, r.b8, r.b9, r.b10, r.b11, r.b12, r.b13, r.b14 != r.b0, r.b15, r.b0)
  }

  function Shift8(r: Reg): Reg {
    Shift(Shift(Shift(Shift(Shift(Shift(Shift(Shift(r))))))))
  }

  /** One message bit enters at the low end and the register shifts. */
  function Step(r: Reg, bit: bool): Reg {
    Shift(r.(b0 := r.b0 != bit))
  }

  function Feed(r: Reg, bits: seq<bool>): Reg
    decreases |bits|
  {
    if |bits| == 0 then r else Feed(Step(r, bits[0]), bits[1..])
  }

  lemma {:induction false} FeedConcat(r: Reg, a: seq<bool>, b: seq<bool>)
    ensures Feed(r, a + b) == Feed(Feed(r, a), b)
    decreases |a|
  {
    if a == [] {
      assert a + b == b;
    } else {
      assert (a + b)[1..] == a[1..] + b;
      FeedConcat(Step(r, a[0]), a[1..], b);
    }
  }

  lemma {:induction false} FeedInjective(r: Reg, s: Reg, bits: seq<bool>)
    requires Feed(r, bits) == Feed(s, bits)
    ensures r == s
    decreases |bits|
  {
    if bits != [] {
      FeedInjective(Step(r, bits[0]), Step(s, bits[0]), bits[1..]);
    }
  }

  /** The two registers differ at most where the mask is set. */
  predicate AgreeOutside(m: Reg, r: Reg, s: Reg) {
    && (m.b0 || r.b0 == s.b0) && (m.b1 || r.b1 == s.b1) && (m.b2 || r.b2 == s.b2) && (m.b3 || r.b3 == s.b3)
    && (m.b4 || r.b4 == s.b4) && (m.b5 || r.b5 == s.b5) && (m.b6 || r.b6 == s.b6) && (m.b7 || r.b7 == s.b7)
    && (m.b8 || r.b8 == s.b8) && (m.b9 || r.b9 == s.b9) && (m.b10 || r.b10 == s.b10) && (m.b11 || r.b11 == s.b11)
    && (m.b12 || r.b12 == s.b12) && (m.b13 || r.b13 == s.b13) && (m.b14 || r.b14 == s.b14) && (m.b15 || r.b15 == s.b15)
  }

  function RegZero(): Reg {
    Reg(false, false, false, false, false, false, false, false, false, false, false, false, false, false, false, false)
  }

  /** The mask moved up by one, with a new 1 at the low end. */
  function Grow(m: Reg): Reg {
    Reg(true, m.b0, m.b1, m.b2, m.b3, m.b4, m.b5, m.b6, m.b7, m.b8, m.b9, m.b10, m.b11, m.b12, m.b13, m.b14)
  }

  /** The `n` lowest bits. */
  function LowMask(n: nat): Reg {
    if n == 0 then RegZero() else Grow(LowMask(n - 1))
  }

  lemma LowMaskTop(n: nat)
    requires n < 16
    ensures !LowMask(n).b15
  {
    assert !LowMask(4).b4;
    assert !LowMask(8).b8;
    assert !LowMask(12).b12;
    assert n in {0, 1, 2, 3, 4, 5, 6, 7, 8, 9, 10, 11, 12, 13, 14, 15};
  }

  /** Going back one bit moves the possible differences of two registers up by one. */
  lemma StepBack(m: Reg, r: Reg, s: Reg, x: bool, y: bool)
    requires !m.b15 && AgreeOutside(m, Step(r, x), Step(s, y))
    ensures AgreeOutside(Grow(m), r, s)
    ensures r == s ==> x == y
  {
    assert Step(r, x).b15 == Step(s, y).b15;
  }

  lemma AgreeSelf(m: Reg, r: Reg)
    ensures AgreeOutside(m, r, r)
  {
  }

  /** Two registers that meet after `n <= 16` bits each differed at first in their `n` lowest bits only. */
  lemma {:induction false} MeetingPoint(r: Reg, s: Reg, xs: seq<bool>, ys: seq<bool>)
    requires |xs| == |ys| <= 16
    requires Feed(r, xs) == Feed(s, ys)
    ensures AgreeOutside(LowMask(|xs|), r, s)
    decreases |xs|
  {
    hide AgreeOutside, Step, Grow;
    if xs == [] {
      AgreeSelf(LowMask(0), r);
    } else {
      MeetingPoint(Step(r, xs[0]), Step(s, ys[0]), xs[1..], ys[1..]);
      LowMaskTop(|xs| - 1);
      StepBack(LowMask(|xs| - 1), r, s, xs[0], ys[0]);
    }
  }

  /** From one register, up to 16 bits can be read off the register they lead to. */
  lemma {:induction false} BitsRecovered(r: Reg, xs: seq<bool>, ys: seq<bool>)
    requires |xs| == |ys| <= 16
    requires Feed(r, xs) == Feed(r, ys)
    ensures xs == ys
    decreases |xs|
  {
    hide AgreeOutside, Step, Grow;
    if xs != [] {
      MeetingPoint(Step(r, xs[0]), Step(r, ys[0]), xs[1..], ys[1..]);
      LowMaskTop(|xs| - 1);
      StepBack(LowMask(|xs| - 1), r, r, xs[0], ys[0]);
      BitsRecovered(Step(r, xs[0]), xs[1..], ys[1..]);
      assert xs == [xs[0]] + xs[1..] && ys == [ys[0]] + ys[1..];
    }
  }

  /** A change confined to at most 16 consecutive bits always changes the register. */
  lemma BurstChangesRegister(r: Reg, before: seq<bool>, e: seq<bool>, f: seq<bool>, after: seq<bool>)
    requires |e| == |f| <= 16 && e != f
    ensures Feed(r, before + e + after) != Feed(r, before + f + after)
  {
    FeedConcat(r, before + e, after);
    FeedConcat(r, before + f, after);
    FeedConcat(r, before, e);
    FeedConcat(r, before, f);
    var s := Feed(r, before);
    if Feed(r, before + e + after) == Feed(r, before + f + after) {
      FeedInjective(Feed(s, e), Feed(s, f), after);
      BitsRecovered(s, e, f);
    }
  }

  lemma ShiftLinear(r: Reg, s: Reg)
    ensures Shift(XorReg(r, s)) == XorReg(Shift(r), Shift(s))
  {
  }

  lemma Shift8Linear(r: Reg, s: Reg)
    ensures Shift8(XorReg(r, s)) == XorReg(Shift8(r), Shift8(s))
  {
    hide Shift, XorReg;
    var r1, s1 := Shift(r), Shift(s); ShiftLinear(r, s);
    var r2, s2 := Shift(r1), Shift(s1); ShiftLinear(r1, s1);
    var r3, s3 := Shift(r2), Shift(s2); ShiftLinear(r2, s2);
    var r4, s4 := Shift(r3), Shift(s3); ShiftLinear(r3, s3);
    var r5, s5 := Shift(r4), Shift(s4); ShiftLinear(r4, s4);
    var r6, s6 := Shift(r5), Shift(s5); ShiftLinear(r5, s5);
    var r7, s7 := Shift(r6), Shift(s6); ShiftLinear(r6, s6);
    ShiftLinear(r7, s7);
  }

  function LowHalf(r: Reg): Reg {
    Reg(r.b0, r.b1, r.b2, r.b3, r.b4, r.b5, r.b6, r.b7, false, false, false, false, false, false, false, false)
  }

  function HighHalf(r: Reg): Reg {
    Reg(false, false, false, false, false, false, false, false, r.b8, r.b9, r.b10, r.b11, r.b12, r.b13, r.b14, r.b15)
  }

  function Down8(r: Reg): Reg {
    Reg(r.b8, r.b9, r.b10, r.b11, r.b12, r.b13, r.b14, r.b15, false, false, false, false, false, false, false, false)
  }

  lemma HighHalfMovesDown(r: Reg)
    ensures Shift8(HighHalf(r)) == Down8(r)
  {
  }

  /** Eight shifts act on the low half; the high half just moves down. */
  lemma Shift8Halves(r: Reg)
    ensures Shift8(r) == XorReg(Shift8(LowHalf(r)), Down8(r))
  {
    hide Shift8;
    Shift8Linear(LowHalf(r), HighHalf(r));
    HighHalfMovesDown(r);
    assert XorReg(LowHalf(r), HighHalf(r)) == r;
  }

  /** Message bits that wait in the low half, the next one at the low end. */
  function Waiting(b0: bool, b1: bool, b2: bool, b3: bool, b4: bool, b5: bool, b6: bool, b7: bool): Reg {
    Reg(b0, b1, b2, b3, b4, b5, b6, b7, false, false, false, false, false, false, false, false)
  }

  lemma FirstBitEnters(r: Reg, b0: bool, b1: bool, b2: bool, b3: bool, b4: bool, b5: bool, b6: bool, b7: bool)
    ensures XorReg(r, Waiting(b0, b1, b2, b3, b4, b5, b6, b7))
            == XorReg(r.(b0 := r.b0 != b0), Waiting(false, b1, b2, b3, b4, b5, b6, b7))
  {
  }

  lemma WaitingMovesDown(b1: bool, b2: bool, b3: bool, b4: bool, b5: bool, b6: bool, b7: bool)
    ensures Shift(Waiting(false, b1, b2, b3, b4, b5, b6, b7)) == Waiting(b1, b2, b3, b4, b5, b6, b7, false)
  {
  }

  lemma ShiftWaiting(r: Reg, b0: bool, b1: bool, b2: bool, b3: bool, b4: bool, b5: bool, b6: bool, b7: bool)
    ensures Shift(XorReg(r, Waiting(b0, b1, b2, b3, b4, b5, b6, b7)))
            == XorReg(Step(r, b0), Waiting(b1, b2, b3, b4, b5, b6, b7, false))
  {
    hide Shift, XorReg, Waiting;
    FirstBitEnters(r, b0, b1, b2, b3, b4, b5, b6, b7);
    ShiftLinear(r.(b0 := r.b0 != b0), Waiting(false, b1, b2, b3, b4, b5, b6, b7));
    WaitingMovesDown(b1, b2, b3, b4, b5, b6, b7);
  }

  /** Adding a whole byte and shifting eight times is the same as feeding its bits one by one. */
  lemma FeedByte(r: Reg, s: seq<bool>)
    requires |s| == 8
    ensures Feed(r, s) == Shift8(XorReg(r, Waiting(s[0], s[1], s[2], s[3], s[4], s[5], s[6], s[7])))
  {
    hide Shift, Step, XorReg, Waiting;
    var r1 := Step(r, s[0]);
    var r2 := Step(r1, s[1]);
    var r3 := Step(r2, s[2]);
    var r4 := Step(r3, s[3]);
    var r5 := Step(r4, s[4]);
    var r6 := Step(r5, s[5]);
    var r7 := Step(r6, s[6]);
    var r8 := Step(r7, s[7]);
    ShiftWaiting(r, s[0], s[1], s[2], s[3], s[4], s[5], s[6], s[7]);
    ShiftWaiting(r1, s[1], s[2], s[3], s[4], s[5], s[6], s[7], false);
    ShiftWaiting(r2, s[2], s[3], s[4], s[5], s[6], s[7], false, false);
    ShiftWaiting(r3, s[3], s[4], s[5], s[6], s[7], false, false, false);
    ShiftWaiting(r4, s[4], s[5], s[6], s[7], false, false, false, false);
    ShiftWaiting(r5, s[5], s[6], s[7], false, false, false, false, false);
    ShiftWaiting(r6, s[6], s[7], false, false, false, false, false, false);
    ShiftWaiting(r7, s[7], false, false, false, false, false, false, false);
    NothingWaiting(r8);
    FeedEight(r, s);
  }

  lemma NothingWaiting(r: Reg)
    ensures XorReg(r, Waiting(false, false, false, false, false, false, false, false)) == r
  {
  }

  lemma FeedEight(r: Reg, s: seq<bool>)
    requires |s| == 8
    ensures Feed(r, s)
            == Step(Step(Step(Step(Step(Step(Step(Step(r, s[0]), s[1]), s[2]), s[3]), s[4]), s[5]), s[6]), s[7])
  {
    hide Step;
    var t1 := s[1..]; var t2 := t1[1..]; var t3 := t2[1..]; var t4 := t3[1..];
    var t5 := t4[1..]; var t6 := t5[1..]; var t7 := t6[1..];
    var r4 := Step(Step(Step(Step(r, s[0]), s[1]), s[2]), s[3]);
    assert Feed(r, s) == Feed(Step(r, s[0]), t1) == Feed(Step(Step(r, s[0]), s[1]), t2)
        == Feed(Step(Step(Step(r, s[0]), s[1]), s[2]), t3) == Feed(r4, t4);
    var r7 := Step(Step(Step(r4, s[4]), s[5]), s[6]);
    assert Feed(r4, t4) == Feed(Step(r4, s[4]), t5) == Feed(Step(Step(r4, s[4]), s[5]), t6) == Feed(r7, t7);
    assert Feed(r7, t7) == Feed(Step(r7, s[7]), t7[1..]);
  }

  function LowBitsOf(r: Reg): (s: seq<bool>)
    ensures |s| == 8
  {
    [r.b0, r.b1, r.b2, r.b3, r.b4, r.b5, r.b6, r.b7]
  }

  function HighBitsOf(r: Reg): (s: seq<bool>)
    ensures |s| == 8
  {
    [r.b8, r.b9, r.b10, r.b11, r.b12, r.b13, r.b14, r.b15]
  }

  /** Feeding a register its own bits, the next to shift out first, empties it. */
  lemma FeedOwnBits(r: Reg)
    ensures Feed(r, LowBitsOf(r) + HighBitsOf(r)) == RegZero()
  {
    hide Feed;
    FeedConcat(r, LowBitsOf(r), HighBitsOf(r));
    FeedOwnLowHalf(r);
    FeedOwnLowHalf(Down8(r));
  }

  lemma FeedOwnLowHalf(r: Reg)
    ensures Feed(r, LowBitsOf(r)) == Down8(r)
  {
    FeedBits(r, r.b0, r.b1, r.b2, r.b3, r.b4, r.b5, r.b6, r.b7);
    OwnBitsCancel(r);
    HighHalfMovesDown(r);
    hide Feed, Shift8, XorReg, Waiting, HighHalf, Down8;
  }

  lemma FeedBits(r: Reg, b0: bool, b1: bool, b2: bool, b3: bool, b4: bool, b5: bool, b6: bool, b7: bool)
    ensures Feed(r, [b0, b1, b2, b3, b4, b5, b6, b7]) == Shift8(XorReg(r, Waiting(b0, b1, b2, b3, b4, b5, b6, b7)))
  {
    hide Feed, Shift8, XorReg, Waiting;
    FeedByte(r, [b0, b1, b2, b3, b4, b5, b6, b7]);
  }

  lemma OwnBitsCancel(r: Reg)
    ensures XorReg(r, Waiting(r.b0, r.b1, r.b2, r.b3, r.b4, r.b5, r.b6, r.b7)) == HighHalf(r)
  {
  }

  /** In which order the bits of a byte enter the register. */
  datatype Order = LsbFirst | MsbFirst

  function OrderedBits(order: Order, b: byte): (s: seq<bool>)
    ensures |s| == 8
  {
    var s := ByteBits(b);
    match order
    case LsbFirst => s
    case MsbFirst => [s[7], s[6], s[5], s[4], s[3], s[2], s[1], s[0]]
  }

  lemma OrderedBitsInjective(order: Order, a: byte, b: byte)
    requires OrderedBits(order, a) == OrderedBits(order, b)
    ensures a == b
  {
    ghost var s, t := OrderedBits(order, a), OrderedBits(order, b);
    assert s[0] == t[0] && s[1] == t[1] && s[2] == t[2] && s[3] == t[3];
    assert s[4] == t[4] && s[5] == t[5] && s[6] == t[6] && s[7] == t[7];
    assert ByteBits(a) == ByteBits(b);
    ByteBitsInjective(a, b);
  }

  /** A message as the bit string that enters the register. */
  function MessageBits(order: Order, msg: seq<byte>): (s: seq<bool>)
    ensures |s| == 8 * |msg|
    decreases |msg|
  {
    if |msg| == 0 then [] else OrderedBits(order, msg[0]) + MessageBits(order, msg[1..])
  }

  lemma {:induction false} MessageBitsConcat(order: Order, a: seq<byte>, b: seq<byte>)
    ensures MessageBits(order, a + b) == MessageBits(order, a) + MessageBits(order, b)
    decreases |a|
  {
    if a == [] {
      assert a + b == b;
    } else {
      assert (a + b)[1..] == a[1..] + b;
      MessageBitsConcat(order, a[1..], b);
    }
  }

  lemma {:induction false} MessageBitsInjective(order: Order, a: seq<byte>, b: seq<byte>)
    requires |a| == |b| && MessageBits(order, a) == MessageBits(order, b)
    ensures a == b
    decreases |a|
  {
    if a != [] {
      ghost var s, t := MessageBits(order, a), MessageBits(order, b);
      assert OrderedBits(order, a[0]) == s[..8] == t[..8] == OrderedBits(order, b[0]);
      assert MessageBits(order, a[1..]) == s[8..] == t[8..] == MessageBits(order, b[1..]);
      OrderedBitsInjective(order, a[0], b[0]);
      MessageBitsInjective(order, a[1..], b[1..]);
      assert a == [a[0]] + a[1..] && b == [b[0]] + b[1..];
    }
  }

  /** The two messages are as long and their bits differ at most at the positions `p .. p + 16`. */
  predicate WithinBurst(order: Order, f: seq<byte>, g: seq<byte>, p: nat) {
    && |f| == |g|
    && forall i | 0 <= i < 8 * |f| && !(p <= i < p + 16) :: MessageBits(order, f)[i] == MessageBits(order, g)[i]
  }

  lemma BitBurstDetected(r: Reg, s: seq<bool>, t: seq<bool>, p: nat, q: nat)
    requires |s| == |t| && p <= q <= |s| && q - p <= 16 && s != t
    requires s[..p] == t[..p] && s[q..] == t[q..]
    ensures Feed(r, s) != Feed(r, t)
  {
    hide Feed;
    assert s == s[..p] + s[p..q] + s[q..];
    assert t == s[..p] + t[p..q] + s[q..];
    BurstChangesRegister(r, s[..p], s[p..q], t[p..q], s[q..]);
  }

  /** No two messages that differ within 16 consecutive bits lead to the same register. */
  lemma BurstDetected(order: Order, r: Reg, f: seq<byte>, g: seq<byte>, p: nat)
    requires WithinBurst(order, f, g, p) && f != g
    ensures Feed(r, MessageBits(order, f)) != Feed(r, MessageBits(order, g))
  {
    hide Feed;
    ghost var s, t := MessageBits(order, f), MessageBits(order, g);
    if s == t {
      MessageBitsInjective(order, f, g);
    }
    var from := if p <= |s| then p else |s|;
    var to := if p + 16 <= |s| then p + 16 else |s|;
    assert s[..from] == t[..from] && s[to..] == t[to..];
    BitBurstDetected(r, s, t, from, to);
  }

  /** Bytes that replace at most two consecutive ones stay within a burst. */
  lemma TwoBytesWithinBurst(order: Order, before: seq<byte>, v: seq<byte>, w: seq<byte>, after: seq<byte>)
    requires |v| == |w| <= 2
    ensures WithinBurst(order, before + v + after, before + w + after, 8 * |before|)
  {
    MessageBitsConcat(order, before + v, after);
    MessageBitsConcat(order, before + w, after);
    MessageBitsConcat(order, before, v);
    MessageBitsConcat(order, before, w);
  }
}
