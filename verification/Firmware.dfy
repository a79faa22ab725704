/** Sending a firmware image page by page to a device that acknowledges late: the reply to a transfer tells
    whether the transfer before it was programmed. */
module Firmware {
  import opened Bytes

  const ARM_PAGE_SIZE := 1024

  /** Where the last confirmation is meant to go: a page that cannot be written. */
  const CONFIRMATION_PAGE := 0xF400

  /** What becomes of one attempt to program a page; a failed one leaves anything behind. */
  datatype Attempt = Programmed | Spoiled(left: seq<byte>)

  /** The other side of the SPI line: its flash and the status of its last operation. What happens to the next
      attempts is in the script, and all is well after its end. */
  class Device {
    var flash: nat -> byte
    var lastOk: bool
    var script: seq<Attempt>

    constructor (flash: nat -> byte, lastOk: bool, script: seq<Attempt>)
      ensures this.flash == flash && this.lastOk == lastOk && this.script == script
    {
      this.flash, this.lastOk, this.script := flash, lastOk, script;
    }

    /** One full-duplex transfer: a page in, the status of the last operation out. `key` means the reply held
        ARM_FIRMWARE_KEY. */
    method Transfer(address: nat, page: array<byte>) returns (key: bool)
      requires page.Length == ARM_PAGE_SIZE
      modifies this
      ensures key == old(lastOk)
      ensures script == Rest(old(script), 1)
      ensures lastOk <==> StatusAfter(old(script), 0)
      ensures lastOk ==> forall j: nat | j < ARM_PAGE_SIZE :: flash(address + j) == page[j]
      ensures Window(flash, address) == Landed(AttemptAt(old(script), 0), page[..], Window(old(flash), address))
      ensures forall i: nat | !(address <= i < address + ARM_PAGE_SIZE) :: flash(i) == old(flash)(i)
    {
      key := lastOk;
      var attempt := if script == [] then Programmed else script[0];
      script := if script == [] then [] else script[1..];
      lastOk := attempt.Programmed?;
      var left := if attempt.Programmed? then page[..] else attempt.left;
      var before := flash;
      flash := (i: nat) => if address <= i < address + ARM_PAGE_SIZE && i - address < |left| 
        then left[i - address] else before(i);
    }
  }

  /** What becomes of the attempt number `t`. */
  function AttemptAt(script: seq<Attempt>, t: nat): Attempt {
    if t < |script| then script[t] else Programmed
  }

  /** One page of the flash. */
  function Window(flash: nat -> byte, at: nat): (w: seq<byte>)
    ensures |w| == ARM_PAGE_SIZE
  {
    seq(ARM_PAGE_SIZE, j requires 0 <= j < ARM_PAGE_SIZE => flash(at + j))
  }

  /** What an attempt makes of a page of the flash. */
  function Landed(attempt: Attempt, page: seq<byte>, before: seq<byte>): (after: seq<byte>)
    requires |page| == |before| == ARM_PAGE_SIZE
    ensures |after| == ARM_PAGE_SIZE
  {
    match attempt
    case Programmed => page
    case Spoiled(left) =>
      seq(ARM_PAGE_SIZE, j requires 0 <= j < ARM_PAGE_SIZE => if j < |left| then left[j] else before[j])
  }

  /** The part of the script that is left after `n` attempts. */
  function Rest(script: seq<Attempt>, n: nat): seq<Attempt> {
    if n <= |script| then script[n..] else []
  }

  /** Whether the attempt number `t` succeeds. */
  predicate StatusAfter(script: seq<Attempt>, t: nat) {
    t >= |script| || script[t].Programmed?
  }

  function PageCount(n: nat): nat {
    (n + ARM_PAGE_SIZE - 1) / ARM_PAGE_SIZE
  }

  /** Page `k` of the image, the last one padded. */
  function Page(data: seq<byte>, k: nat): (p: seq<byte>)
    ensures |p| == ARM_PAGE_SIZE
  {
    seq(ARM_PAGE_SIZE, j requires 0 <= j => if ARM_PAGE_SIZE * k + j < |data| then data[ARM_PAGE_SIZE * k + j] else 0xFF)
  }

  ghost predicate PageRight(flash: nat -> byte, start: nat, data: seq<byte>, k: nat) {
    forall j: nat | j < ARM_PAGE_SIZE :: flash(start + ARM_PAGE_SIZE * k + j) == Page(data, k)[j]
  }

  /** The image stands in the flash, and its last page is filled up with 0xff. */
  ghost predicate Holds(flash: nat -> byte, start: nat, data: seq<byte>) {
    forall i: nat | i < ARM_PAGE_SIZE * PageCount(|data|) :: flash(start + i) == if i < |data| then data[i] else 0xFF
  }

  lemma PagesMakeImage(flash: nat -> byte, start: nat, data: seq<byte>)
    requires PagesRight(flash, start, data, PageCount(|data|))
    ensures Holds(flash, start, data)
  {
    forall i: nat | i < ARM_PAGE_SIZE * PageCount(|data|)
      ensures flash(start + i) == if i < |data| then data[i] else 0xFF
    {
      var k, j: nat := i / ARM_PAGE_SIZE, i % ARM_PAGE_SIZE;
      assert PageRight(flash, start, data, k);
      assert flash(start + ARM_PAGE_SIZE * k + j) == Page(data, k)[j];
    }
  }

  function BadReplies(log: seq<bool>): nat {
    if log == [] then 0 else BadReplies(log[..|log| - 1]) + if log[|log| - 1] then 0 else 1
  }

  lemma BadRepliesGrow(log: seq<bool>, key: bool)
    ensures BadReplies(log + [key]) == BadReplies(log) + if key then 0 else 1
  {
    assert (log + [key])[..|log|] == log;
  }

  /** The page before the confirmation transfer. */
  function LastPage(start: nat, n: nat): int {
    start + ARM_PAGE_SIZE * (PageCount(n) - 1)
  }

  /** Pages have 1024 bytes, and the confirmation is thought to go to 0xF400: where the image ends at 0xF800, that is its
      last page. */
  lemma PageNumbers(start: nat, n: nat)
    ensures PageCount(n) == (n + 1023) / 1024
    ensures LastPage(start, n) == CONFIRMATION_PAGE <==> start + 1024 * PageCount(n) == 0xF800
  {
  }

  function Remaining(n: nat, pos: nat): nat {
    if n > ARM_PAGE_SIZE * pos then n - ARM_PAGE_SIZE * pos else 0
  }

  lemma PageCountBounds(n: nat, pos: nat)
    ensures Remaining(n, pos) > 0 <==> pos < PageCount(n)
    ensures Remaining(n, pos) == 0 && pos <= PageCount(n) ==> pos == PageCount(n)
  {
  }

  ghost predicate PagesRight(flash: nat -> byte, start: nat, data: seq<byte>, count: int) {
    forall k: nat | k < count :: PageRight(flash, start, data, k)
  }

  /** Programming one page leaves the others as they are. */
  lemma PagesKept(before: nat -> byte, after: nat -> byte, start: nat, data: seq<byte>, pos: nat, count: int)
    requires count <= pos && PagesRight(before, start, data, count)
    requires forall i: nat | i < start + ARM_PAGE_SIZE * pos :: after(i) == before(i)
    ensures PagesRight(after, start, data, count)
  {
    forall k: nat | k < count
      ensures PageRight(after, start, data, k)
    {
      assert PageRight(before, start, data, k);
    }
  }

  /** Between two transfers, with page `pos` up next: every page before `prevAddr` is right, and either page
      `prevAddr` was sent last and its status is still to come, or it is about to be sent again. */
  ghost predicate Underway(flash: nat -> byte, lastOk: bool, start: nat, data: seq<byte>, log: seq<bool>,
                           prevAddr: int, pos: nat)
  {
    && pos <= PageCount(|data|)
    && |log| == pos + 2 * BadReplies(log)
    && if log == [] then prevAddr == -1 && pos == 0
       else if log[|log| - 1] then
         && pos > 0 && prevAddr == start + ARM_PAGE_SIZE * (pos - 1)
         && PagesRight(flash, start, data, pos - 1) && (lastOk ==> PageRight(flash, start, data, pos - 1))
       else
         && |log| > 1 && log[|log| - 2]
         && pos < PageCount(|data|) && prevAddr == start + ARM_PAGE_SIZE * pos && PagesRight(flash, start, data, pos)
  }

  /** The replies are the statuses of the device, one transfer late: first the one it started with, then those
      of the attempts. */
  predicate Reply(first: bool, script: seq<Attempt>, t: nat) {
    if t == 0 then first else StatusAfter(script, t - 1)
  }

  function Replies(first: bool, script: seq<Attempt>, n: nat): (log: seq<bool>)
    ensures |log| == n
  {
    seq(n, t requires 0 <= t < n => Reply(first, script, t))
  }

  predicate Faithful(script: seq<Attempt>, log: seq<bool>, first: bool, lastOk: bool) {
    lastOk == Reply(first, script, |log|) && log == Replies(first, script, |log|)
  }

  /** Transfer `t` is the confirmation: every page has been acknowledged or is still to be, and each bad reply has
      cost two transfers. `n` is the number of pages. */
  predicate Confirms(first: bool, script: seq<Attempt>, n: nat, t: nat) {
    t == n + 2 * BadReplies(Replies(first, script, t))
  }

  /** A reply that ends the run: a bad one at the very start, or right after another, or to the confirmation where the
      last page of the image is the page that confirmations are thought to go to. */
  predicate Fatal(first: bool, script: seq<Attempt>, n: nat, pinned: bool, t: nat) {
    !Reply(first, script, t) && (t == 0 || !Reply(first, script, t - 1) || (pinned && Confirms(first, script, n, t)))
  }

  predicate Finished(first: bool, script: seq<Attempt>, n: nat, t: nat) {
    Reply(first, script, t) && Confirms(first, script, n, t)
  }

  /** Whether an image of `n` pages arrives, told from the device alone. */
  ghost predicate Succeeds(first: bool, script: seq<Attempt>, n: nat, pinned: bool) {
    exists t: nat :: Finished(first, script, n, t) && forall u: nat | u < t :: !Fatal(first, script, n, pinned, u)
  }

  /** No reply before number `t` ends the run. */
  ghost predicate GoesOn(first: bool, script: seq<Attempt>, n: nat, pinned: bool, t: nat) {
    forall u: nat | u < t :: !Fatal(first, script, n, pinned, u) && !Finished(first, script, n, u)
  }

  lemma EndDecides(first: bool, script: seq<Attempt>, n: nat, pinned: bool, t: nat)
    requires GoesOn(first, script, n, pinned, t)
    requires Fatal(first, script, n, pinned, t) || Finished(first, script, n, t)
    ensures Succeeds(first, script, n, pinned) <==> Finished(first, script, n, t)
  {
    hide Confirms;
  }

  lemma Outset(flash: nat -> byte, lastOk: bool, start: nat, data: seq<byte>)
    ensures Underway(flash, lastOk, start, data, [], -1, 0)
    ensures UntouchedBeyond(flash, flash, start, PageCount(|data|) + 1)
    ensures forall script :: Faithful(script, [], lastOk, lastOk) && Rest(script, 0) == script
  {
  }

  lemma Placed(flash: nat -> byte, lastOk: bool, start: nat, data: seq<byte>, log: seq<bool>, prevAddr: int, pos: nat)
    requires Underway(flash, lastOk, start, data, log, prevAddr, pos)
    ensures pos <= PageCount(|data|)
    ensures if log == [] then prevAddr == -1 && pos == 0
            else prevAddr == start + ARM_PAGE_SIZE * (if log[|log| - 1] then pos - 1 else pos) >= start
                 && (if log[|log| - 1] then pos > 0 else pos < PageCount(|data|))
  {
  }

  lemma PageSent(flash: nat -> byte, start: nat, data: seq<byte>, pos: nat)
    requires forall j: nat | j < ARM_PAGE_SIZE :: flash(start + ARM_PAGE_SIZE * pos + j) == Page(data, pos)[j]
    ensures PageRight(flash, start, data, pos)
  {
  }

  /** What `send_firmware` compares tells the fatal replies from the others, and the finish from other keys. */
  lemma EndSeen(flash: nat -> byte, lastOk: bool, start: nat, data: seq<byte>, log: seq<bool>, prevAddr: int, pos: nat,
                first: bool, script: seq<Attempt>, address: int)
    requires Underway(flash, lastOk, start, data, log, prevAddr, pos) && Faithful(script, log, first, lastOk)
    requires address == if pos < PageCount(|data|) then start + ARM_PAGE_SIZE * pos else CONFIRMATION_PAGE
    ensures var pinned := LastPage(start, |data|) == CONFIRMATION_PAGE;
            Fatal(first, script, PageCount(|data|), pinned, |log|) <==> !lastOk && (address == prevAddr || prevAddr == -1)
    ensures Finished(first, script, PageCount(|data|), |log|) <==> lastOk && pos == PageCount(|data|)
  {
    hide PagesRight, PageRight, BadReplies, PageCount;
    assert log != [] ==> log[|log| - 1] == Reply(first, script, |log| - 1);
  }

  lemma OneFurther(first: bool, script: seq<Attempt>, n: nat, pinned: bool, t: nat)
    requires GoesOn(first, script, n, pinned, t)
    requires !Fatal(first, script, n, pinned, t) && !Finished(first, script, n, t)
    ensures GoesOn(first, script, n, pinned, t + 1)
  {
    hide Fatal, Finished;
  }

  /** The key: the page sent before is programmed, and the next one is on its way. */
  lemma KeyStep(before: nat -> byte, after: nat -> byte, lastOk: bool, start: nat, data: seq<byte>, log: seq<bool>,
                prevAddr: int, pos: nat)
    requires Underway(before, true, start, data, log, prevAddr, pos)
    requires forall i: nat | i < start + ARM_PAGE_SIZE * pos :: after(i) == before(i)
    requires pos < PageCount(|data|) && lastOk ==> PageRight(after, start, data, pos)
    ensures var log' := log + [true];
            && |log'| == pos + 1 + 2 * BadReplies(log')
            && PagesRight(after, start, data, pos)
            && (pos < PageCount(|data|) ==>
                  Underway(after, lastOk, start, data, log', start + ARM_PAGE_SIZE * pos, pos + 1))
  {
    hide PageRight, BadReplies, PageCount;
    BadRepliesGrow(log, true);
    PagesKept(before, after, start, data, pos, if log != [] && log[|log| - 1] then pos - 1 else pos);
    if log != [] && log[|log| - 1] {
      LastKept(before, after, start, data, pos);
    }
  }

  lemma LastKept(before: nat -> byte, after: nat -> byte, start: nat, data: seq<byte>, pos: nat)
    requires 0 < pos && PageRight(before, start, data, pos - 1)
    requires forall i: nat | i < start + ARM_PAGE_SIZE * pos :: after(i) == before(i)
    ensures PageRight(after, start, data, pos - 1)
  {
  }

  /** No key: what was sent before goes out again, unless this is the second time or the very start. */
  lemma BadStep(before: nat -> byte, after: nat -> byte, lastOk: bool, start: nat, data: seq<byte>, log: seq<bool>,
                prevAddr: int, pos: nat)
    requires Underway(before, false, start, data, log, prevAddr, pos)
    requires forall i: nat | i < start + ARM_PAGE_SIZE * pos :: after(i) == before(i)
    ensures var log' := log + [false];
            && PagesRight(after, start, data, |log'| - 2 * BadReplies(log'))
            && (log != [] && log[|log| - 1] ==>
                  pos > 0 && Underway(after, lastOk, start, data, log', prevAddr, pos - 1))
  {
    hide PageRight, BadReplies, PageCount;
    BadRepliesGrow(log, false);
    PagesKept(before, after, start, data, pos, if log == [] then -1 else pos - 1);
  }

  /** No attempt fails right after another one. */
  predicate SingleFailures(script: seq<Attempt>) {
    forall t: nat | t + 1 < |script| :: script[t].Programmed? || script[t + 1].Programmed?
  }

  /** Isolated failures are never fatal, away from the page that confirmations are thought to go to. */
  lemma SingleFailuresSurvived(script: seq<Attempt>, n: nat, t: nat)
    requires SingleFailures(script)
    ensures !Fatal(true, script, n, false, t)
  {
    if t >= 2 && t - 1 < |script| {
      assert script[t - 2].Programmed? || script[t - 2 + 1].Programmed?;
    }
  }

  /** One page and one failed attempt: the page is sent again - but not if it is the last page there is, which the
      source takes for the confirmation. */
  lemma LastPagePinned(left: seq<byte>)
    ensures Succeeds(true, [Spoiled(left)], 1, false) && !Succeeds(true, [Spoiled(left)], 1, true)
  {
    var script := [Spoiled(left)];
    assert Replies(true, script, 1) == [true] && Replies(true, script, 2) == [true, false];
    assert Replies(true, script, 3) == [true, false, true];
    CountsOfThree();
    assert Finished(true, script, 1, 3);
    assert Fatal(true, script, 1, true, 1);
    forall t: nat | Finished(true, script, 1, t)
      ensures 1 < t
    {
      assert Replies(true, script, 0) == [];
    }
  }

  lemma CountsOfThree()
    ensures BadReplies([]) == BadReplies([true]) == 0 && BadReplies([true, false]) == BadReplies([true, false, true]) == 1
  {
    assert [true][..0] == [] && [true, false][..1] == [true] && [true, false, true][..2] == [true, false];
  }

  lemma FaithfulStep(script: seq<Attempt>, log: seq<bool>, first: bool, lastOk: bool, lastOk': bool)
    requires Faithful(script, log, first, lastOk)
    requires lastOk' == StatusAfter(Rest(script, |log|), 0)
    ensures Faithful(script, log + [lastOk], first, lastOk')
  {
  }

  /** Outside of `count` pages from `start` the flash is as before. */
  ghost predicate UntouchedBeyond(before: nat -> byte, after: nat -> byte, start: nat, count: nat) {
    forall i: nat | !(start <= i < start + ARM_PAGE_SIZE * count) :: after(i) == before(i)
  }

  lemma StillUntouched(first: nat -> byte, before: nat -> byte, after: nat -> byte, start: nat, pos: nat, count: nat)
    requires UntouchedBeyond(first, before, start, count) && pos < count
    requires forall i: nat | !(start + ARM_PAGE_SIZE * pos <= i < start + ARM_PAGE_SIZE * (pos + 1)) :: after(i) == before(i)
    ensures UntouchedBeyond(first, after, start, count)
  {
  }

  /** The page that goes out when `len` bytes are left: the next of the image, filled up if it is short. */
  method FillPage(tx: array<byte>, data: seq<byte>, offset: nat, len: nat)
    requires tx.Length == ARM_PAGE_SIZE && 0 < len && offset + len == |data|
    requires offset % ARM_PAGE_SIZE == 0
    modifies tx
    ensures tx[..] == Page(data, offset / ARM_PAGE_SIZE)
  {
    forall j | 0 <= j < ARM_PAGE_SIZE {
      tx[j] := if j < len then data[offset + j] else 0xFF;
    }
  }

  /** What stands in the page behind the image after `t` transfers: every confirmation is an attempt to program `page`
      there, and nothing else touches it. */
  function Behind(first: bool, script: seq<Attempt>, n: nat, page: seq<byte>, before: seq<byte>, t: nat): (w: seq<byte>)
    requires |page| == |before| == ARM_PAGE_SIZE
    ensures |w| == ARM_PAGE_SIZE
  {
    if t == 0 then before
    else
      var w := Behind(first, script, n, page, before, t - 1);
      if Confirms(first, script, n, t - 1) then Landed(AttemptAt(script, t - 1), page, w) else w
  }

  /** Without a confirmation the page behind the image is as before; after one that the device takes it is the last
      page of the image once more. */
  lemma {:induction false} BehindTheImage(first: bool, script: seq<Attempt>, n: nat, page: seq<byte>, before: seq<byte>,
                                          t: nat)
    requires |page| == |before| == ARM_PAGE_SIZE
    ensures (forall u: nat | u < t :: !Confirms(first, script, n, u)) ==> Behind(first, script, n, page, before, t) == before
    ensures t > 0 && Confirms(first, script, n, t - 1) && AttemptAt(script, t - 1).Programmed? ==>
              Behind(first, script, n, page, before, t) == page
    decreases t
  {
    hide Confirms;
    if t > 0 {
      BehindTheImage(first, script, n, page, before, t - 1);
    }
  }

  lemma BehindUnfolds(first: bool, script: seq<Attempt>, n: nat, page: seq<byte>, before: seq<byte>, t: nat)
    requires |page| == |before| == ARM_PAGE_SIZE
    ensures var w := Behind(first, script, n, page, before, t);
            Behind(first, script, n, page, before, t + 1)
            == if Confirms(first, script, n, t) then Landed(AttemptAt(script, t), page, w) else w
  {
    hide Confirms, Landed, AttemptAt;
  }

  /** One transfer, seen from the page behind the image; `n` is the number of pages. */
  lemma BehindStep(before: nat -> byte, after: nat -> byte, start: nat, n: nat, pos: nat, t: nat,
                   first: bool, script: seq<Attempt>, sent: seq<byte>, page: seq<byte>, initial: seq<byte>)
    requires |sent| == |page| == |initial| == ARM_PAGE_SIZE && pos <= n
    requires Confirms(first, script, n, t) <==> pos == n
    requires pos == n ==> sent == page
    requires var at := start + ARM_PAGE_SIZE * pos;
             Window(after, at) == Landed(AttemptAt(Rest(script, t), 0), sent, Window(before, at))
    requires forall i: nat | !(start + ARM_PAGE_SIZE * pos <= i < start + ARM_PAGE_SIZE * (pos + 1)) :: after(i) == before(i)
    requires Window(before, start + ARM_PAGE_SIZE * n) == Behind(first, script, n, page, initial, t)
    ensures Window(after, start + ARM_PAGE_SIZE * n) == Behind(first, script, n, page, initial, t + 1)
  {
    hide Landed, Window, Confirms, Behind, Rest, AttemptAt;
    SameAttempt(script, t);
    BehindUnfolds(first, script, n, page, initial, t);
    if pos < n {
      WindowKept(before, after, start, pos, n);
    }
  }

  lemma ConfirmsWhenLast(flash: nat -> byte, lastOk: bool, start: nat, data: seq<byte>, log: seq<bool>, prevAddr: int,
                         pos: nat, first: bool, script: seq<Attempt>)
    requires Underway(flash, lastOk, start, data, log, prevAddr, pos) && Faithful(script, log, first, lastOk)
    ensures pos <= PageCount(|data|)
    ensures Confirms(first, script, PageCount(|data|), |log|) <==> pos == PageCount(|data|)
  {
    hide PagesRight, PageRight, BadReplies, PageCount, Replies;
  }

  lemma WindowKept(before: nat -> byte, after: nat -> byte, start: nat, pos: nat, n: nat)
    requires pos < n
    requires forall i: nat | !(start + ARM_PAGE_SIZE * pos <= i < start + ARM_PAGE_SIZE * (pos + 1)) :: after(i) == before(i)
    ensures Window(after, start + ARM_PAGE_SIZE * n) == Window(before, start + ARM_PAGE_SIZE * n)
  {
  }

  lemma SameAttempt(script: seq<Attempt>, t: nat)
    ensures AttemptAt(Rest(script, t), 0) == AttemptAt(script, t)
  {
  }

  /** The beginning of a turn: the next page goes into the buffer, or the confirmation is due. */
  method LoadPage(tx: array<byte>, data: seq<byte>, address: int, start: nat, len: int, ghost pos: nat)
    returns (address': int, len': int)
    requires tx.Length == ARM_PAGE_SIZE && pos <= PageCount(|data|)
    requires address == start + ARM_PAGE_SIZE * pos && len == Remaining(|data|, pos)
    modifies tx
    ensures tx[..] == if pos < PageCount(|data|) then Page(data, pos) else old(tx[..])
    ensures address' == if pos < PageCount(|data|) then address else CONFIRMATION_PAGE
    ensures if pos < PageCount(|data|) then len' == Remaining(|data|, pos + 1) else len' == -1
  {
    hide PageCount, Page;
    address', len' := address, len;
    PageCountBounds(|data|, pos);
    if len >= ARM_PAGE_SIZE {
      FillPage(tx, data, address - start, len);
      len' := len - ARM_PAGE_SIZE;
    } else if len != 0 {
      FillPage(tx, data, address - start, len);
      len' := 0;
    } else {
      address' := CONFIRMATION_PAGE;
      len' := -1;
    }
  }

  /** The device after the transfers of `log`: what is left of its script, its last status, and the flash outside of
      the image. */
  ghost predicate Accounted(flash: nat -> byte, lastOk: bool, left: seq<Attempt>, flash0: nat -> byte, first: bool,
                            script: seq<Attempt>, log: seq<bool>, start: nat, n: nat, page: seq<byte>)
  {
    var at := start + ARM_PAGE_SIZE * n;
    && |page| == ARM_PAGE_SIZE && left == Rest(script, |log|) && Faithful(script, log, first, lastOk)
    && UntouchedBeyond(flash0, flash, start, n + 1)
    && Window(flash, at) == Behind(first, script, n, page, Window(flash0, at), |log|)
  }

  /** One transfer of page `pos`, or of the confirmation. */
  method Exchange(device: Device, tx: array<byte>, address: nat, ghost flash0: nat -> byte, ghost first: bool,
                  ghost script: seq<Attempt>, ghost log: seq<bool>, ghost start: nat, ghost n: nat,
                  ghost page: seq<byte>, ghost pos: nat)
    returns (key: bool)
    requires tx.Length == ARM_PAGE_SIZE && pos <= n && address == start + ARM_PAGE_SIZE * pos
    requires Accounted(device.flash, device.lastOk, device.script, flash0, first, script, log, start, n, page)
    requires (Confirms(first, script, n, |log|) <==> pos == n) && (pos == n ==> tx[..] == page)
    modifies device
    ensures key == old(device.lastOk)
    ensures Accounted(device.flash, device.lastOk, device.script, flash0, first, script, log + [key], start, n, page)
    ensures forall i: nat | i < address :: device.flash(i) == old(device.flash)(i)
    ensures device.lastOk ==> forall j: nat | j < ARM_PAGE_SIZE :: device.flash(address + j) == tx[j]
    ensures if old(device.script) == [] then device.script == [] && device.lastOk
            else |device.script| < |old(device.script)|
  {
    hide Faithful, Rest, Behind, Window, Confirms, UntouchedBeyond, Landed, AttemptAt;
    ghost var before, lastOk, left := device.flash, device.lastOk, device.script;
    key := device.Transfer(address, tx);
    RestLeft(script, |log|);
    RestLeft(left, 0);
    FaithfulStep(script, log, first, lastOk, device.lastOk);
    StillUntouched(flash0, before, device.flash, start, pos, n + 1);
    BehindStep(before, device.flash, start, n, pos, |log|, first, script, tx[..], page,
               Window(flash0, start + ARM_PAGE_SIZE * n));
  }

  lemma RestLeft(script: seq<Attempt>, t: nat)
    ensures Rest(Rest(script, t), 1) == Rest(script, t + 1)
    ensures Rest(script, 0) == script
    ensures if script == [] then Rest(script, 1) == [] && StatusAfter(script, 0) else |Rest(script, 1)| < |script|
  {
  }

  /** `send_firmware`. `log` holds the replies, in order: whether each was the key. A run that ends through
      `break` did not complete. */
  method SendFirmware(device: Device, tx: array<byte>, data: seq<byte>, start: nat)
    returns (completed: bool, ghost log: seq<bool>)
    requires tx.Length == ARM_PAGE_SIZE
    requires start + |data| + 2 * ARM_PAGE_SIZE < 0x8000_0000
    modifies device, tx
    // when the run completes, told from the device as it was; the replies are those of the device
    ensures completed <==> Succeeds(old(device.lastOk), old(device.script), PageCount(|data|),
                                    LastPage(start, |data|) == CONFIRMATION_PAGE)
    ensures log != [] && Faithful(old(device.script), log, old(device.lastOk), device.lastOk)
    // how many transfers it takes
    ensures completed ==> |log| == PageCount(|data|) + 1 + 2 * BadReplies(log)
    // single failures never stop it
    ensures old(device.lastOk) && SingleFailures(old(device.script)) && LastPage(start, |data|) != CONFIRMATION_PAGE ==>
              completed
    // the image arrives, and nothing beyond the page after it is touched
    ensures completed ==> Holds(device.flash, start, data)
    ensures !completed ==> PagesRight(device.flash, start, data, |log| - 2 * BadReplies(log))
    ensures UntouchedBeyond(old(device.flash), device.flash, start, PageCount(|data|) + 1)
    // the confirmations carry the last page once more, and program it behind the image if the device takes them
    ensures Window(device.flash, start + ARM_PAGE_SIZE * PageCount(|data|))
            == Behind(old(device.lastOk), old(device.script), PageCount(|data|), LastSent(data, old(tx[..])),
                      Window(old(device.flash), start + ARM_PAGE_SIZE * PageCount(|data|)), |log|)
    ensures completed ==> tx[..] == LastSent(data, old(tx[..]))
    ensures completed && device.lastOk ==> AlsoAt(device.flash, start + ARM_PAGE_SIZE * PageCount(|data|), tx[..])
  {
    hide PageRight, PagesRight, Underway, Page, UntouchedBeyond, Faithful, SingleFailures, Rest, PageCount, BadReplies,
      Fatal, Finished, Succeeds, GoesOn, LastPage, LastSent, Carried, AlsoAt, Window, Behind, Confirms;
    var prevAddr: int := -1;
    var len: int := |data|;
    var address := start;
    ghost var script, first := device.script, device.lastOk;
    ghost var n, pinned := PageCount(|data|), LastPage(start, |data|) == CONFIRMATION_PAGE;
    ghost var pos: nat := 0;
    log := [];
    Outset(device.flash, first, start, data);
    FirstCarried(tx[..], data);
    NothingYet(first, script, n, pinned);
    LastSentLength(data, tx[..]);
    ghost var page := LastSent(data, tx[..]);
    NothingBehind(first, script, n, page, Window(device.flash, start + ARM_PAGE_SIZE * n));
    while len >= 0
      invariant len >= -1
      invariant len >= 0 ==> address == start + ARM_PAGE_SIZE * pos && len == Remaining(|data|, pos)
      invariant len >= 0 ==> Underway(device.flash, device.lastOk, start, data, log, prevAddr, pos)
      invariant len >= 0 ==> GoesOn(first, script, n, pinned, |log|)
      invariant len >= 0 ==> Carried(tx[..], old(tx[..]), data, log, pos)
      invariant len < 0 ==> log != [] && |log| == n + 1 + 2 * BadReplies(log) && PagesRight(device.flash, start, data, n)
      invariant len < 0 ==> GoesOn(first, script, n, pinned, |log| - 1) && Finished(first, script, n, |log| - 1)
      invariant len < 0 ==> tx[..] == LastSent(data, old(tx[..]))
      invariant Accounted(device.flash, device.lastOk, device.script, old(device.flash), first, script, log, start, n, page)
      decreases |device.script|, if device.lastOk then 0 else 1, len
    {
      ghost var before, replies, lastOk := device.flash, log, device.lastOk;
      var txAddress := address;
      Placed(before, lastOk, start, data, log, prevAddr, pos);
      PageCountBounds(|data|, pos);
      address, len := LoadPage(tx, data, address, start, len, pos);
      if pos == n {
        AllCarried(tx[..], old(tx[..]), data, log, pos);
      }
      ghost var sent := tx[..];
      EndSeen(before, lastOk, start, data, replies, prevAddr, pos, first, script, address);
      ConfirmsWhenLast(before, lastOk, start, data, replies, prevAddr, pos, first, script);
      var key := Exchange(device, tx, txAddress, old(device.flash), first, script, log, start, n, page, pos);
      log := log + [key];
      KeyCarried(sent, old(tx[..]), data, replies, key, pos);
      if pos < n && device.lastOk {
        PageSent(device.flash, start, data, pos);
      }
      if !key {
        BadStep(before, device.flash, device.lastOk, start, data, replies, prevAddr, pos);
        if address == prevAddr || prevAddr == -1 {
          EndDecides(first, script, n, pinned, |replies|);
          NeverFatal(first, script, n, pinned, |replies|);
          return false, log;
        }
        OneFurther(first, script, n, pinned, |replies|);
        pos := pos - 1;
        PageCountBounds(|data|, pos);
        address := prevAddr;
        len := |data| - (address - start);
      } else {
        KeyStep(before, device.flash, device.lastOk, start, data, replies, prevAddr, pos);
        if pos < n {
          OneFurther(first, script, n, pinned, |replies|);
        }
        pos := pos + 1;
        prevAddr := address;
        address := address + ARM_PAGE_SIZE;
      }
    }
    completed := true;
    EndDecides(first, script, n, pinned, |log| - 1);
    PagesMakeImage(device.flash, start, data);
    ConfirmationLands(device.flash, start + ARM_PAGE_SIZE * n, first, script, n, page,
                      Window(old(device.flash), start + ARM_PAGE_SIZE * n), log, device.lastOk);
  }

  lemma NothingYet(first: bool, script: seq<Attempt>, n: nat, pinned: bool)
    ensures GoesOn(first, script, n, pinned, 0)
  {
  }

  lemma NeverFatal(first: bool, script: seq<Attempt>, n: nat, pinned: bool, t: nat)
    requires Fatal(first, script, n, pinned, t)
    ensures !(first && SingleFailures(script) && !pinned)
  {
    if first && SingleFailures(script) && !pinned {
      SingleFailuresSurvived(script, n, t);
      assert false;
    }
  }

  lemma NothingBehind(first: bool, script: seq<Attempt>, n: nat, page: seq<byte>, before: seq<byte>)
    requires |page| == |before| == ARM_PAGE_SIZE
    ensures Behind(first, script, n, page, before, 0) == before
  {
  }

  lemma LastSentLength(data: seq<byte>, before: seq<byte>)
    requires |before| == ARM_PAGE_SIZE
    ensures |LastSent(data, before)| == ARM_PAGE_SIZE
  {
    hide Page, PageCount;
  }

  /** What the confirmation carries: the page sent last, or what was in the buffer before. */
  function LastSent(data: seq<byte>, before: seq<byte>): seq<byte> {
    if PageCount(|data|) == 0 then before else Page(data, PageCount(|data|) - 1)
  }

  lemma FirstCarried(tx: seq<byte>, data: seq<byte>)
    ensures Carried(tx, tx, data, [], 0)
  {
  }

  lemma AllCarried(tx: seq<byte>, before: seq<byte>, data: seq<byte>, log: seq<bool>, pos: nat)
    requires Carried(tx, before, data, log, pos) && pos == PageCount(|data|)
    requires if log == [] then pos == 0 else log[|log| - 1] && pos > 0
    ensures tx == LastSent(data, before)
  {
    hide PageCount, Page;
  }

  lemma KeyCarried(tx: seq<byte>, before: seq<byte>, data: seq<byte>, log: seq<bool>, key: bool, pos: nat)
    ensures tx == Page(data, pos) || !key ==> Carried(tx, before, data, log + [key], if key then pos + 1 else pos)
    ensures !key && pos > 0 ==> Carried(tx, before, data, log + [key], pos - 1)
  {
    hide Page;
  }

  lemma ConfirmationLands(flash: nat -> byte, at: nat, first: bool, script: seq<Attempt>, n: nat, page: seq<byte>,
                          before: seq<byte>, log: seq<bool>, lastOk: bool)
    requires |page| == |before| == ARM_PAGE_SIZE && log != [] && Faithful(script, log, first, lastOk)
    requires Finished(first, script, n, |log| - 1)
    requires Window(flash, at) == Behind(first, script, n, page, before, |log|)
    ensures lastOk ==> AlsoAt(flash, at, page)
  {
    hide Confirms, Behind, Replies;
    BehindTheImage(first, script, n, page, before, |log|);
    if lastOk {
      assert AttemptAt(script, |log| - 1).Programmed?;
      forall j: nat | j < |page|
        ensures flash(at + j) == page[j]
      {
        assert Window(flash, at)[j] == flash(at + j);
      }
    }
  }

  /** The send buffer after a key: the page that was sent with it. */
  predicate Carried(tx: seq<byte>, before: seq<byte>, data: seq<byte>, log: seq<bool>, pos: nat) {
    if log == [] then tx == before else log[|log| - 1] && pos > 0 ==> tx == Page(data, pos - 1)
  }

  ghost predicate AlsoAt(flash: nat -> byte, at: nat, page: seq<byte>) {
    forall j: nat | j < |page| :: flash(at + j) == page[j]
  }

  /** An image of a single byte, 7, for a device that fails nothing: the byte stands at address 1024, too. */
  method NextPageLost(device: Device, tx: array<byte>)
    requires tx.Length == ARM_PAGE_SIZE && device.lastOk && device.script == []
    modifies device, tx
    ensures device.flash(0) == 7 && device.flash(1024) == 7
  {
    hide Succeeds, Faithful, PagesRight, UntouchedBeyond, BadReplies;
    var completed;
    ghost var log;
    ghost var script := device.script;
    completed, log := SendFirmware(device, tx, [7], 0);
    AllWell(script, log, true, device.lastOk);
    assert PageCount(1) == 1;
    assert tx[..][0] == Page([7], 0)[0] == 7;
    assert device.flash(0 + 0) == 7 && device.flash(1024 + 0) == tx[..][0];
  }

  lemma AllWell(script: seq<Attempt>, log: seq<bool>, first: bool, lastOk: bool)
    requires script == [] && log != [] && Faithful(script, log, first, lastOk)
    ensures lastOk && SingleFailures(script)
  {
  }
}
