/** The buffers of the TCP server: a stack of free ones, linked through the buffers themselves. */
module BufferPool {
  import opened Bytes
  import Transport

  const MAX_MB_BUFFER_LEN := Transport.MAX_TCP_ADU

  const MB_BUFFER_COUNT := 128

  /** `mb_buffer_t`; `data` is part of the buffer. */
  class Buffer {
    var next: Buffer?
    var index: nat
    var sendindex: nat
    var data: seq<byte>

    constructor (next: Buffer?)
      ensures this.next == next && index == 0 && sendindex == 0 && |data| == MAX_MB_BUFFER_LEN
    {
      this.next, index, sendindex := next, 0, 0;
      data := seq(MAX_MB_BUFFER_LEN, _ => 0);
    }
  }

  /** Following `next` from `head` visits exactly the buffers of `s`, in order, each once, and then comes to `end`. */
  ghost predicate Segment(head: Buffer?, s: seq<Buffer>, end: Buffer?)
    reads s`next
    decreases |s|
  {
    if s == [] then head == end
    else head == s[0] && s[0] !in s[1..] && Segment(s[0].next, s[1..], end)
  }

  /** A chain without cycles. */
  ghost predicate Linked(head: Buffer?, s: seq<Buffer>)
    reads s`next
  {
    Segment(head, s, null)
  }

  lemma {:induction false} SegmentsJoin(head: Buffer?, a: seq<Buffer>, mid: Buffer?, b: seq<Buffer>, end: Buffer?)
    requires Segment(head, a, mid) && Segment(mid, b, end) && Members(a) !! Members(b)
    ensures Segment(head, a + b, end)
    decreases |a|
  {
    if a == [] {
      assert a + b == b;
    } else {
      assert (a + b)[1..] == a[1..] + b;
      SegmentsJoin(a[0].next, a[1..], mid, b, end);
      assert a[0] in Members(a) && a[0] !in b;
    }
  }

  lemma {:induction false} NextInChain(head: Buffer?, s: seq<Buffer>, k: nat)
    requires Linked(head, s) && k < |s|
    ensures s[k].next == if k + 1 < |s| then s[k + 1] else null
    decreases |s|
  {
    if k == 0 {
      assert Segment(s[0].next, s[1..], null);
      assert if |s| > 1 then s[1..][0] == s[1] else s[1..] == [];
    } else {
      NextInChain(s[0].next, s[1..], k - 1);
    }
  }

  lemma {:induction false} SegmentSplits(head: Buffer?, a: seq<Buffer>, b: seq<Buffer>, end: Buffer?)
    requires Segment(head, a + b, end)
    ensures Members(a) !! Members(b)
    ensures b != [] ==> Segment(head, a, b[0]) && Segment(b[0], b, end)
    decreases |a|
  {
    if a == [] {
      assert a + b == b;
    } else {
      assert (a + b)[1..] == a[1..] + b;
      SegmentSplits(a[0].next, a[1..], b, end);
    }
  }

  ghost function Members(s: seq<Buffer>): set<Buffer> {
    set b | b in s
  }

  /** A chain has as many buffers as positions. */
  lemma {:induction false} ChainCounts(head: Buffer?, s: seq<Buffer>)
    requires Linked(head, s)
    ensures |Members(s)| == |s|
    decreases |s|
  {
    if s != [] {
      ChainCounts(s[0].next, s[1..]);
      assert Members(s) == {s[0]} + Members(s[1..]);
    }
  }

  /** The free buffers: `b_stack`. */
  class Pool {
    var stack: Buffer?
    ghost var free: seq<Buffer>

    ghost predicate Valid()
      reads this, free
    {
      Linked(stack, free)
    }

    /** `pool_allocate` */
    constructor ()
      ensures Valid() && fresh(free) && |free| == MB_BUFFER_COUNT + 1
      ensures forall b <- free :: |b.data| == MAX_MB_BUFFER_LEN
    {
      new;
      var b := new Buffer(null);
      stack, free := b, [b];
      var n := MB_BUFFER_COUNT;
      while n > 0
        invariant 0 <= n <= MB_BUFFER_COUNT && |free| == MB_BUFFER_COUNT + 1 - n
        invariant Valid() && fresh(free)
        invariant forall b <- free :: |b.data| == MAX_MB_BUFFER_LEN
      {
        n := n - 1;
        b := new Buffer(stack);
        stack, free := b, [b] + free;
      }
    }

    /** `get_from_pool` */
    method Get() returns (b: Buffer?)
      requires Valid()
      modifies this, stack
      ensures Valid()
      ensures old(free) == [] ==> b == null && free == []
      ensures old(free) != [] ==>
                && b == old(stack) == old(free[0]) && free == old(free[1..]) && b !in free
                && b.index == 0 && b.sendindex == 0 && b.next == null && b.data == old(stack.data)
    {
      b := stack;
      if b == null {
        return;
      }
      stack, free := b.next, free[1..];
      b.index, b.sendindex, b.next := 0, 0, null;
    }

    /** `repool_buffer`: the buffers of `chain` go back, in front of those that are free. */
    method Repool(buffer: Buffer, ghost chain: seq<Buffer>)
      requires Valid() && Linked(buffer, chain) && Members(chain) !! Members(free)
      modifies this, chain`next
      ensures Valid() && free == chain + old(free) && stack == buffer
    {
      var prev := stack;
      assert Linked(prev, free);
      stack := buffer;
      assert Linked(prev, free);
      var last := buffer;
      ghost var k := 0;
      while last.next != null
        invariant 0 <= k < |chain| && last == chain[k] && Linked(buffer, chain)
        modifies {}
        decreases |chain| - k
      {
        NextInChain(buffer, chain, k);
        last, k := last.next, k + 1;
      }
      NextInChain(buffer, chain, k);
      assert chain == chain[..k] + [last];
      SegmentSplits(buffer, chain[..k], [last], null);
      assert last in Members([last]) && last in Members(chain) && last !in Members(free);
      last.next := prev;
      assert Segment(last, [last], prev);
      SegmentsJoin(buffer, chain[..k], last, [last], prev);
      SegmentsJoin(buffer, chain, prev, free, null);
      free := chain + free;
    }
  }

  /** Adds a buffer at the end of a chain. */
  method Append(head: Buffer, buffer: Buffer, ghost chain: seq<Buffer>)
    requires Linked(head, chain) && buffer.next == null && buffer !in chain
    modifies chain`next
    ensures Linked(head, chain + [buffer])
  {
    var last := head;
    ghost var k := 0;
    while last.next != null
      invariant 0 <= k < |chain| && last == chain[k] && Linked(head, chain)
      modifies {}
      decreases |chain| - k
    {
      NextInChain(head, chain, k);
      last, k := last.next, k + 1;
    }
    NextInChain(head, chain, k);
    assert chain == chain[..k] + [last];
    SegmentSplits(head, chain[..k], [last], null);
    assert last in Members([last]);
    last.next := buffer;
    assert Segment(last, [last], buffer);
    SegmentsJoin(head, chain[..k], last, [last], buffer);
    assert Segment(buffer, [buffer], null);
    SegmentsJoin(head, chain, buffer, [buffer], null);
  }
}
