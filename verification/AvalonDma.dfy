/** The Avalon DMA driver in memory-to-memory mode: a transmit and a receive queue of four slots
    each, paired by one device.  The completion interrupt pops a pair, starts the next one and then
    runs the callbacks, which may call back into the driver.

    `Send` and `Prepare` run either in a thread (`enabled`: the completion interrupt may come between
    any two of their steps) or inside a callback, where interrupts are off. */
module AvalonDma {
  import opened Errno
  import opened Arithmetic

  const NSLOTS: nat := 4

  type Slot = i: nat | i < NSLOTS

  datatype TxSlot = TxSlot(from: nat, len: nat, done: bool, handle: nat)
  datatype RxSlot = RxSlot(data: nat, len: nat, done: bool, handle: nat)

  /** What the device is told to do by a write of its length register. */
  datatype Transfer = Transfer(from: nat, to: nat, len: nat)

  datatype Callback = TxDone(handle: nat) | RxDone(handle: nat, data: nat)

  function Next(i: Slot): Slot { (i + 1) % 4 }

  function Prev(i: Slot): Slot { (i + 3) % 4 }

  /** The slot that the n-th request of a channel goes to. */
  function Wrap(n: nat): Slot { n % 4 }

  lemma WrapNext(n: nat)
    ensures Next(Wrap(n)) == Wrap(n + 1)
  {
  }

  /** The slot k places after i. */
  function Cell(i: Slot, k: nat): nat
    requires k < NSLOTS
  {
    if i + k < NSLOTS then i + k else i + k - NSLOTS
  }

  /** The number of requests queued between the two indices. */
  function Queued(start: Slot, end: Slot): nat
  {
    if start <= end then end - start else end + NSLOTS - start
  }

  /** The queue in buf from start up to end is what is left of all after the first `popped`. */
  predicate Holds<T(==)>(buf: seq<T>, start: Slot, end: Slot, all: seq<T>, popped: nat)
  {
    && |buf| == NSLOTS && popped <= |all| && |all| - popped == Queued(start, end)
    && forall k | 0 <= k < |all| - popped :: buf[Cell(start, k)] == all[popped + k]
  }

  lemma Pop<T>(buf: seq<T>, start: Slot, end: Slot, all: seq<T>, popped: nat)
    requires Holds(buf, start, end, all, popped) && start != end
    ensures popped < |all| && buf[start] == all[popped]
    ensures Holds(buf, Next(start), end, all, popped + 1)
  {
    assert buf[Cell(start, 0)] == all[popped + 0];
    forall k | 0 <= k < |all| - popped - 1 ensures buf[Cell(Next(start), k)] == all[popped + 1 + k] {
      assert buf[Cell(start, k + 1)] == all[popped + (k + 1)];
    }
  }

  /** Filling the free slot at the end leaves the queue, and the slot before its start, alone. */
  lemma Fill<T>(buf: seq<T>, start: Slot, end: Slot, all: seq<T>, popped: nat, x: T)
    requires Holds(buf, start, end, all, popped) && Next(end) != start
    ensures Holds(buf[end := x], start, end, all, popped)
    ensures end != Prev(start)
  {
    forall k | 0 <= k < |all| - popped ensures buf[end := x][Cell(start, k)] == all[popped + k] {
      assert buf[Cell(start, k)] == all[popped + k];
    }
  }

  lemma Push<T>(buf: seq<T>, start: Slot, end: Slot, all: seq<T>, popped: nat, x: T)
    requires Holds(buf, start, end, all, popped) && Next(end) != start && buf[end] == x
    ensures Holds(buf, start, Next(end), all + [x], popped)
  {
    forall k | 0 <= k < |all| + 1 - popped ensures buf[Cell(start, k)] == (all + [x])[popped + k] {
      if k < |all| - popped {
        assert buf[Cell(start, k)] == all[popped + k];
      }
    }
  }

  /** A queue refuses exactly when three requests are waiting. */
  lemma FullTest<T>(buf: seq<T>, start: Slot, end: Slot, all: seq<T>, popped: nat)
    requires Holds(buf, start, end, all, popped)
    ensures 0 <= |all| - popped <= 3
    ensures Next(end) == start <==> |all| - popped == 3
    ensures start == end <==> |all| == popped
  {
  }

  /** The transfer for a pair of requests: the shorter of the two lengths. */
  function TransferOf(s: TxSlot, p: RxSlot): Transfer
  {
    Transfer(s.from, p.data, if s.len > p.len then p.len else s.len)
  }

  function TxCall(s: TxSlot): seq<Callback> { if s.done then [TxDone(s.handle)] else [] }

  function RxCall(p: RxSlot): seq<Callback> { if p.done then [RxDone(p.handle, p.data)] else [] }

  /** The callbacks of the first n pairs. */
  function CallsOf(sends: seq<TxSlot>, prepares: seq<RxSlot>, n: nat): seq<Callback>
    requires n <= |sends| && n <= |prepares|
  {
    if n == 0 then []
    else CallsOf(sends, prepares, n - 1) + TxCall(sends[n - 1]) + RxCall(prepares[n - 1])
  }

  /** Later requests do not change the callbacks of earlier pairs. */
  lemma {:induction false} CallsOfPrefix(sends: seq<TxSlot>, prepares: seq<RxSlot>,
                                         sends': seq<TxSlot>, prepares': seq<RxSlot>, n: nat)
    requires n <= |sends| && n <= |prepares| && sends <= sends' && prepares <= prepares'
    ensures CallsOf(sends', prepares', n) == CallsOf(sends, prepares, n)
  {
    if n > 0 {
      CallsOfPrefix(sends, prepares, sends', prepares', n - 1);
    }
  }

  function TxHandles(calls: seq<Callback>): seq<nat>
  {
    if calls == [] then []
    else TxHandles(calls[..|calls| - 1]) + if calls[|calls| - 1].TxDone? then [calls[|calls| - 1].handle] else []
  }

  /** What the callbacks of the receive channel are told: the handle, and where the data is. */
  function RxAnswers(calls: seq<Callback>): seq<(nat, nat)>
  {
    if calls == [] then []
    else
      var last := calls[|calls| - 1];
      RxAnswers(calls[..|calls| - 1]) + if last.RxDone? then [(last.handle, last.data)] else []
  }

  function Awaited<T, U>(all: seq<T>, done: T -> bool, handle: T -> U): seq<U>
  {
    if all == [] then []
    else Awaited(all[..|all| - 1], done, handle)
         + if done(all[|all| - 1]) then [handle(all[|all| - 1])] else []
  }

  function TxHandlesOf(sends: seq<TxSlot>): seq<nat>
  {
    Awaited(sends, (s: TxSlot) => s.done, (s: TxSlot) => s.handle)
  }

  function RxAnswersOf(prepares: seq<RxSlot>): seq<(nat, nat)>
  {
    Awaited(prepares, (p: RxSlot) => p.done, (p: RxSlot) => (p.handle, p.data))
  }

  lemma HandlesSplit(calls: seq<Callback>, tx: seq<Callback>, rx: seq<Callback>)
    requires |tx| <= 1 && |rx| <= 1 && (tx == [] || tx[0].TxDone?) && (rx == [] || rx[0].RxDone?)
    ensures TxHandles(calls + tx + rx) == TxHandles(calls) + if tx == [] then [] else [tx[0].handle]
    ensures RxAnswers(calls + tx + rx) == RxAnswers(calls) + if rx == [] then [] else [(rx[0].handle, rx[0].data)]
  {
    assert tx != [] ==> (calls + tx)[..|calls + tx| - 1] == calls;
    assert tx == [] ==> calls + tx == calls;
    assert rx != [] ==> (calls + tx + rx)[..|calls + tx + rx| - 1] == calls + tx;
    assert rx == [] ==> calls + tx + rx == calls + tx;
  }

  /** Exactly the completed requests that asked for it are called back, each once and in the order
      in which its channel accepted them, and told their handles and where the data is. */
  lemma {:induction false} CallbacksAreTheRequests(sends: seq<TxSlot>, prepares: seq<RxSlot>, n: nat)
    requires n <= |sends| && n <= |prepares|
    ensures TxHandles(CallsOf(sends, prepares, n)) == TxHandlesOf(sends[..n])
    ensures RxAnswers(CallsOf(sends, prepares, n)) == RxAnswersOf(prepares[..n])
  {
    if n > 0 {
      CallbacksAreTheRequests(sends, prepares, n - 1);
      HandlesSplit(CallsOf(sends, prepares, n - 1), TxCall(sends[n - 1]), RxCall(prepares[n - 1]));
      assert sends[..n][..n - 1] == sends[..n - 1] && prepares[..n][..n - 1] == prepares[..n - 1];
    }
  }

  /** Of a pair the send is called back first, and the next pair after both. */
  lemma SendFirst(sends: seq<TxSlot>, prepares: seq<RxSlot>, i: nat)
    requires i < |sends| && i < |prepares| && sends[i].done && prepares[i].done
    ensures (CallsOf(sends, prepares, i + 1)
             == CallsOf(sends, prepares, i) + [TxDone(sends[i].handle), RxDone(prepares[i].handle, prepares[i].data)])
  {
  }

  /** The queue after the callbacks of an interrupted send have posted `posted` to the same channel. */
  function PostAll<T>(buf: seq<T>, end: Slot, posted: seq<T>): (r: (seq<T>, Slot))
    requires |buf| == NSLOTS
    ensures |r.0| == NSLOTS
    decreases |posted|
  {
    if posted == [] then (buf, end) else PostAll(buf[end := posted[0]], Next(end), posted[1..])
  }

  lemma {:induction false} PostAllHolds<T>(buf: seq<T>, start: Slot, end: Slot, all: seq<T>,
                                           popped: nat, posted: seq<T>)
    requires Holds(buf, start, end, all, popped) && |all| - popped + |posted| <= 3
    ensures Holds(PostAll(buf, end, posted).0, start, PostAll(buf, end, posted).1, all + posted, popped)
    decreases |posted|
  {
    FullTest(buf, start, end, all, popped);
    if posted == [] {
      assert all + posted == all;
    } else {
      Fill(buf, start, end, all, popped, posted[0]);
      Push(buf[end := posted[0]], start, end, all, popped, posted[0]);
      PostAllHolds(buf[end := posted[0]], start, Next(end), all + [posted[0]], popped, posted[1..]);
      assert all + [posted[0]] + posted[1..] == all + posted;
    }
  }

  /** A send reads the end of its queue, fills that slot and only then moves the end.  If callbacks
      post to the same channel in between, all of them told 0, the send goes on with the end it has
      read: the queue then holds every accepted request exactly when nothing was posted. */
  lemma InterruptedSendKeepsAll<T(0)>(buf: seq<T>, start: Slot, end: Slot, all: seq<T>, popped: nat,
                                      posted: seq<T>, x: T)
    requires Holds(buf, start, end, all, popped)
    requires |all| - popped < 3 && |all| - popped + |posted| <= 3
    ensures (Holds(PostAll(buf, end, posted).0[end := x], start, Next(end), all + posted + [x], popped)
             <==> posted == [])
  {
    FullTest(buf, start, end, all, popped);
    if posted == [] {
      Fill(buf, start, end, all, popped, x);
      Push(buf[end := x], start, end, all, popped, x);
      assert all + posted == all;
    }
  }

  /** A send reads the start of its queue before the end.  If so many pairs were completed in between,
      and callbacks kept the queue filled, its test finds the queue full by this rule; it is right
      whenever the completed and the waiting requests are at most three, as they are unless a callback
      posted to the channel. */
  lemma StaleStart(start: Slot, now: Slot, end: Slot, completed: nat)
    requires now == (start + completed) % 4
    ensures Next(end) == start <==> (Queued(now, end) + completed) % 4 == 3
    ensures completed + Queued(now, end) <= 3 && Queued(now, end) == 3 ==> Next(end) == start
  {
  }

  /** What alt_avalon_dma_space computes from the two indices. */
  function Room(start: Slot, end: Slot): int
  {
    if start > end then start - end - 1 else NSLOTS + start - end - 1
  }

  /** Space reads the start of the queue before the end.  With completions in between, what it computes
      is no more than the room there is if and only if the completed requests, modulo four, and the
      waiting ones are at most three. */
  lemma StaleSpace(start: nat, completed: nat, end: Slot)
    ensures var now := Wrap(start + completed); var c := Wrap(completed);
            && Room(Wrap(start), end) == 3 - Wrap(Queued(now, end) + c)
            && (Room(Wrap(start), end) <= Room(now, end) <==> c + Queued(now, end) <= 3)
            && (Room(Wrap(start), end) == Room(now, end) <==> c == 0)
  {
    hide Wrap;
    WrapSum(start, completed);
    SmallWrap(Queued(Wrap(start + completed), end) + Wrap(completed));
  }

  lemma WrapSum(a: nat, b: nat)
    ensures Wrap(a + b) == if Wrap(a) + Wrap(b) < NSLOTS then Wrap(a) + Wrap(b) else Wrap(a) + Wrap(b) - NSLOTS
  {
    var q, r := a / 4 + b / 4, Wrap(a) + Wrap(b);
    assert a + b == 4 * q + r;
    WrapLap(q, r);
    SmallWrap(r);
  }

  lemma {:induction false} WrapLap(q: nat, r: nat)
    ensures Wrap(4 * q + r) == Wrap(r)
  {
    if q > 0 {
      WrapLap(q - 1, r);
    }
  }

  /** It can be more: one request is completed and its callback posts three, so that the queue is full,
      and the answer is 3. */
  lemma StaleSpaceExample()
    ensures var now := Wrap(0 + 1); Room(Wrap(0), Wrap(4)) == 3 && Room(now, Wrap(4)) == 0 && Queued(now, Wrap(4)) == 3
  {
  }

  lemma SmallWrap(n: nat)
    requires n < 8
    ensures Wrap(n) == if n < NSLOTS then n else n - NSLOTS
  {
  }

  datatype Request =
    | TxStreamOn(address: nat) | TxStreamOff | RxStreamOn(address: nat) | RxStreamOff | SetMode(mask: nat) | Unknown

  datatype Launcher = Bidirectional | TxOnly | RxOnly

  /** What the control register says of a transfer besides the fixed bits: the width of an access in
      bytes, and which of the two addresses stays where it is. */
  datatype ControlWord = ControlWord(width: nat, readConstant: bool, writeConstant: bool)

  /** The part of the driver's state that an ioctl changes. */
  datatype Mode = Mode(txStream: bool, rxStream: bool, alignMask: nat, launch: Launcher)
  {
    /** The launch function is the one for the streams that are on. */
    predicate Agrees()
    {
      launch == (if txStream then RxOnly else if rxStream then TxOnly else Bidirectional)
    }

    /** The control word that the ioctl writes for this mode. */
    function Control(): ControlWord
    {
      var width := match alignMask case 0 => 1 case 1 => 2 case 3 => 4 case 7 => 8 case _ => 16;
      ControlWord(width, txStream, !txStream && rxStream)
    }
  }

  /** Each address stays where it is exactly when its channel streams, and an access is as wide as the
      alignment that requests must have. */
  lemma ControlMatches(m: Mode)
    requires !(m.txStream && m.rxStream) && m.alignMask in {0, 1, 3, 7, 15}
    ensures m.Control() == ControlWord(m.alignMask + 1, m.txStream, m.rxStream)
  {
  }

  /** What alt_avalon_dma_ioctl answers, and the mode it leaves. */
  function Ioctl(m: Mode, idle: bool, req: Request): (r: (int, Mode))
  {
    if !idle then (-EIO, m) else
    match req
    case TxStreamOn(_) =>
      if m.rxStream then (-EIO, m) else (0, m.(txStream := true, launch := RxOnly))
    case TxStreamOff => (0, m.(txStream := false, launch := Bidirectional))
    case RxStreamOn(_) =>
      if m.txStream then (-EIO, m) else (0, m.(rxStream := true, launch := TxOnly))
    case RxStreamOff => (0, m.(rxStream := false, launch := Bidirectional))
    case SetMode(mask) => (0, m.(alignMask := mask))
    case Unknown => (-ENOTTY, m)
  }

  /** A run of ioctls, each with whether it finds the device idle. */
  function Ioctls(m: Mode, reqs: seq<(bool, Request)>): Mode
    decreases |reqs|
  {
    if reqs == [] then m else Ioctls(Ioctl(m, reqs[0].0, reqs[0].1).1, reqs[1..])
  }

  /** The stream that a request turns off while it is the other one that is on. */
  predicate Mismatched(m: Mode, idle: bool, req: Request)
  {
    idle && ((req.TxStreamOff? && m.rxStream) || (req.RxStreamOff? && m.txStream))
  }

  /** Over any run of ioctls the streams are never both on. */
  lemma {:induction false} StreamsExclude(m: Mode, reqs: seq<(bool, Request)>)
    requires !(m.txStream && m.rxStream)
    ensures !(Ioctls(m, reqs).txStream && Ioctls(m, reqs).rxStream)
    decreases |reqs|
  {
    if reqs != [] {
      StreamsExclude(Ioctl(m, reqs[0].0, reqs[0].1).1, reqs[1..]);
    }
  }

  predicate EveryMatched(m: Mode, reqs: seq<(bool, Request)>)
    decreases |reqs|
  {
    reqs == [] || (!Mismatched(m, reqs[0].0, reqs[0].1)
                   && EveryMatched(Ioctl(m, reqs[0].0, reqs[0].1).1, reqs[1..]))
  }

  /** One ioctl keeps the launch function in agreement with the streams exactly when it is not a
      stream-off for the channel that is not streaming while the other is. */
  lemma LaunchAgrees(m: Mode, idle: bool, req: Request)
    requires m.Agrees() && !(m.txStream && m.rxStream)
    ensures Ioctl(m, idle, req).1.Agrees() <==> !Mismatched(m, idle, req)
  {
  }

  /** So it agrees throughout a run without such a request. */
  lemma {:induction false} LaunchAgreesInRun(m: Mode, reqs: seq<(bool, Request)>)
    requires m.Agrees() && !(m.txStream && m.rxStream) && EveryMatched(m, reqs)
    ensures Ioctls(m, reqs).Agrees()
    decreases |reqs|
  {
    if reqs != [] {
      LaunchAgreesInRun(Ioctl(m, reqs[0].0, reqs[0].1).1, reqs[1..]);
    }
  }

  ghost predicate MultipleOf(x: nat, w: nat)
  {
    exists k: nat :: Times(k, w) == x
  }

  lemma MultipleIs(x: nat, w: nat)
    requires 0 < w
    ensures x % w == 0 <==> MultipleOf(x, w)
  {
    if x % w == 0 {
      assert Times(x / w, w) == x;
    }
    forall k: nat | Times(k, w) == x ensures x % w == 0 {
      Quotient(x, k, w, 0);
    }
  }

  class Dma {
    // Driver state.
    const txBuf: array<TxSlot>
    const rxBuf: array<RxSlot>
    var txStart: Slot
    var txEnd: Slot
    var rxStart: Slot
    var rxEnd: Slot
    var active: bool
    const alignMask: nat
    const maxLength: nat

    // Device state: its registers, and whether a transfer is under way or its interrupt pending.
    var readAddress: nat
    var writeAddress: nat
    var busy: bool

    // History.
    ghost var sends: seq<TxSlot>        // accepted transmit requests
    ghost var prepares: seq<RxSlot>     // accepted receive requests
    ghost var launched: seq<Transfer>   // transfers given to the device
    ghost var popped: nat               // pairs completed
    ghost var called: seq<Callback>     // callbacks made
    ghost var ownSends: set<nat>        // the places in sends of the thread's requests
    ghost var ownPrepares: set<nat>     // and in prepares

    // The thread has read an index of the queue it posts to, and has not yet moved the end.
    var inSend: bool
    var inPrepare: bool

    ghost predicate Queues()
      reads this, txBuf, rxBuf
    {
      && txBuf.Length == rxBuf.Length == NSLOTS && (txBuf as object) != rxBuf
      && txStart == rxStart == Wrap(popped)
      && Holds(txBuf[..], txStart, txEnd, sends, popped)
      && Holds(rxBuf[..], rxStart, rxEnd, prepares, popped)
    }

    /** The device has been given exactly the completed pairs and, if one is active, the next.  It is at
        work on that one, unless there is nothing to transfer. */
    ghost predicate Core()
      reads this, txBuf, rxBuf
    {
      && Queues()
      && |launched| == popped + (if active then 1 else 0)
      && (busy <==> active && 0 < launched[popped].len)
      && (active ==> popped < |sends| && popped < |prepares|)
      && (forall i | 0 <= i < |launched| :: launched[i] == TransferOf(sends[i], prepares[i]))
    }

    /** A pair is with the device exactly when there is one. */
    ghost predicate Settled()
      reads this
    {
      active <==> popped < |sends| && popped < |prepares|
    }

    /** Each callback of a completed pair was made once, in order. */
    ghost predicate Called()
      reads this
    {
      popped <= |sends| && popped <= |prepares| && called == CallsOf(sends, prepares, popped)
    }

    /** The state between calls into the driver. */
    ghost predicate Valid()
      reads this, txBuf, rxBuf
    {
      Core() && Settled() && Called() && !inSend && !inPrepare
    }

    constructor (alignMask: nat, maxLength: nat)
      ensures Valid() && sends == [] && prepares == [] && launched == [] && called == []
      ensures fresh(txBuf) && fresh(rxBuf) && this.alignMask == alignMask && this.maxLength == maxLength
    {
      txBuf := new TxSlot[NSLOTS](_ => TxSlot(0, 0, false, 0));
      rxBuf := new RxSlot[NSLOTS](_ => RxSlot(0, 0, false, 0));
      txStart, txEnd, rxStart, rxEnd := 0, 0, 0, 0;
      active, busy, readAddress, writeAddress := false, false, 0, 0;
      this.alignMask, this.maxLength := alignMask, maxLength;
      sends, prepares, launched, popped, called := [], [], [], 0, [];
      inSend, inPrepare, ownSends, ownPrepares := false, false, {}, {};
    }

    predicate Acceptable(address: nat, len: nat)
    {
      address % (alignMask + 1) == 0 && len % (alignMask + 1) == 0 && len <= maxLength
    }

    /** Address and length are whole accesses of the device's width, and it can count the length. */
    lemma AcceptableIs(address: nat, len: nat)
      ensures (Acceptable(address, len)
               <==> MultipleOf(address, alignMask + 1) && MultipleOf(len, alignMask + 1) && len <= maxLength)
    {
      MultipleIs(address, alignMask + 1);
      MultipleIs(len, alignMask + 1);
    }

    /** alt_avalon_dma_space. */
    function Space(): (r: int)
      requires Queues()
      reads this, txBuf, rxBuf
      ensures r == 3 - (|sends| - popped)
    {
      Room(txStart, txEnd)
    }

    /** The same from a thread, with completions between the two reads: the answer counts the requests
        that were waiting at the first read or have been posted since, modulo four.  It is the room at the
        first read unless a callback posted to the channel, and never more than the room there is now,
        unless the requests completed meanwhile, modulo four, and those waiting are more than three. */
    method ReadSpace() returns (r: int)
      requires Core() && Called()
      modifies this, txBuf, rxBuf
      ensures EnvStep() && r == 3 - Wrap(|sends| - popped + Wrap(popped - old(popped)))
      ensures sends == old(sends) ==> r == old(Space()) <= Space()
      ensures r <= Space() <==> Wrap(popped - old(popped)) + |sends| - popped <= 3
    {
      hide Holds, Wrap;
      SpaceIs();
      var start := txStart;
      Interfere();
      StaleSpace(old(popped), popped - old(popped), txEnd);
      SpaceIs();
      if sends == old(sends) {
        SmallWrap(popped - old(popped));
        SmallWrap(|sends| - old(popped));
      }
      r := Room(start, txEnd);
    }

    lemma SpaceIs()
      requires Queues()
      ensures 0 <= |sends| - popped == Queued(txStart, txEnd) <= 3 && txStart == Wrap(popped)
    {
      hide Wrap;
    }

    /** A queue is empty exactly when its indices meet, and then nothing is moving. */
    lemma EmptyIs()
      requires Core()
      ensures txStart == txEnd <==> |sends| == popped
      ensures rxStart == rxEnd <==> |prepares| == popped
      ensures busy ==> |sends| != popped
    {
      FullTest(txBuf[..], txStart, txEnd, sends, popped);
      FullTest(rxBuf[..], rxStart, rxEnd, prepares, popped);
    }

    /** alt_avalon_dma_launch_bidir. */
    method Launch()
      requires Queues() && !busy && |launched| == popped
      requires forall i | 0 <= i < |launched| :: launched[i] == TransferOf(sends[i], prepares[i])
      modifies this`active, this`readAddress, this`writeAddress, this`busy, this`launched
      ensures Core() && Settled()
      // The device reads the oldest send and writes to the oldest prepare, no more than either has.
      ensures (active ==>
                 && readAddress == sends[popped].from && writeAddress == prepares[popped].data
                 && launched == old(launched) + [launched[popped]]
                 && launched[popped].from == readAddress && launched[popped].to == writeAddress
                 && launched[popped].len <= sends[popped].len && launched[popped].len <= prepares[popped].len
                 && launched[popped].len in {sends[popped].len, prepares[popped].len})
      ensures !active ==> launched == old(launched)
    {
      FullTest(txBuf[..], txStart, txEnd, sends, popped);
      FullTest(rxBuf[..], rxStart, rxEnd, prepares, popped);
      hide Holds;
      if txStart != txEnd && rxStart != rxEnd {
        active := true;
        var tx, rx := txBuf[txStart], rxBuf[rxStart];
        Pop(txBuf[..], txStart, txEnd, sends, popped);
        Pop(rxBuf[..], rxStart, rxEnd, prepares, popped);
        readAddress := tx.from;
        writeAddress := rx.data;
        StartTransfer(if tx.len > rx.len then rx.len else tx.len);
      } else {
        active := false;
      }
    }

    /** A write of the length register starts the device, unless the length is 0. */
    method StartTransfer(len: nat)
      modifies this`busy, this`launched
      ensures busy == (0 < len) && launched == old(launched) + [Transfer(readAddress, writeAddress, len)]
    {
      busy := 0 < len;
      launched := launched + [Transfer(readAddress, writeAddress, len)];
    }

    /** Every transfer so far has read from where its send said and written to where its prepare said,
        as many bytes as both have: the data of the i-th send goes to the i-th prepare. */
    lemma Paired(i: nat)
      requires Core() && i < |launched|
      ensures i < |sends| && i < |prepares|
      ensures launched[i].from == sends[i].from && launched[i].to == prepares[i].data
      ensures launched[i].len <= sends[i].len && launched[i].len <= prepares[i].len
      ensures launched[i].len == sends[i].len || launched[i].len == prepares[i].len
    {
    }

    /** The driver waits for a completion that does not come if and only if a request of the oldest pair
        is empty; every other pair is at work.  What then happens is said by `StillStalled`, which every
        call and every step between calls keeps: the pair stays where it is. */
    lemma EmptyPairStalls()
      requires Core() && Settled()
      ensures (active && !busy
               <==> (popped < |sends| && popped < |prepares|
                     && (sends[popped].len == 0 || prepares[popped].len == 0)))
    {
      if active {
        assert launched[popped] == TransferOf(sends[popped], prepares[popped]);
      }
    }

    /** Send, interrupted between the read of the end and its move: the oldest pair completes, and one of
        its callbacks posts to the channel.  The callback is told that all its requests are accepted, and
        the queue holds them all only if there were none. */
    method OvertakenSend(x: TxSlot, posted: seq<TxSlot>)
      requires Core() && Settled() && !inSend && busy && |sends| - popped < 3
      requires sends[popped].done || prepares[popped].done
      requires |sends| - (popped + 1) + |posted| <= 3
      requires forall p | p in posted :: Acceptable(p.from, p.len)
      modifies this, txBuf, rxBuf
      ensures txBuf.Length == NSLOTS && popped == old(popped) + 1 && sends == old(sends) + posted
      ensures called == old(called) + TxCall(old(sends[popped])) + RxCall(old(prepares[popped]))
      ensures Holds(txBuf[..], txStart, txEnd, sends + [x], popped) <==> posted == []
    {
      hide Holds;
      var end := txEnd;
      SpaceIs();
      CompleteAndPost(posted);
      PutAt(end, x, posted);
    }

    /** The completion interrupt, with a callback that posts all of `posted`. */
    method CompleteAndPost(posted: seq<TxSlot>)
      requires Core() && Settled() && !inSend && busy && (sends[popped].done || prepares[popped].done)
      requires |sends| - (popped + 1) + |posted| <= 3
      requires forall p | p in posted :: Acceptable(p.from, p.len)
      modifies this, txBuf, rxBuf
      ensures Core() && popped == old(popped) + 1 && sends == old(sends) + posted
      ensures called == old(called) + TxCall(old(sends[popped])) + RxCall(old(prepares[popped]))
      ensures posted == [] ==> txEnd == old(txEnd)
    {
      hide Holds;
      var tx, rx := PopAndLaunch();
      var txDone, rxDone := txBuf[tx].done, rxBuf[rx].done;
      if txDone {
        called := called + [TxDone(txBuf[tx].handle)];
        PostEach(posted);
      }
      if rxDone {
        called := called + [RxDone(rxBuf[rx].handle, rxBuf[rx].data)];
        if !txDone {
          PostEach(posted);
        }
      }
    }

    /** The rest of the send goes by the end that it has read. */
    method PutAt(end: Slot, x: TxSlot, ghost posted: seq<TxSlot>)
      requires Core() && |posted| <= |sends| - popped && (posted == [] ==> end == txEnd && |sends| - popped < 3)
      requires end == Cell(txStart, |sends| - |posted| - popped)
      modifies this`txEnd, txBuf
      ensures txBuf.Length == NSLOTS
      ensures Holds(txBuf[..], txStart, txEnd, sends + [x], popped) <==> posted == []
    {
      FullTest(txBuf[..], txStart, txEnd, sends, popped);
      if posted == [] {
        Fill(txBuf[..], txStart, txEnd, sends, popped, x);
        Push(txBuf[..][end := x], txStart, txEnd, sends, popped, x);
      }
      ghost var was := txBuf[..];
      txBuf[end] := x;
      assert txBuf[..] == was[end := x];
      txEnd := Next(end);
    }

    /** A callback posts requests that there is room for: all of them are accepted. */
    method PostEach(posted: seq<TxSlot>)
      requires Core() && Settled() && !inSend && |sends| - popped + |posted| <= 3
      requires forall p | p in posted :: Acceptable(p.from, p.len)
      modifies this, txBuf, rxBuf
      ensures Core() && !inSend && popped == old(popped) && txStart == old(txStart)
      ensures sends == old(sends) + posted && prepares == old(prepares) && called == old(called)
      ensures rxStart == old(rxStart) && rxBuf[..] == old(rxBuf[..])
      ensures posted == [] ==> txEnd == old(txEnd) && txBuf[..] == old(txBuf[..])
    {
      hide Holds;
      for k := 0 to |posted|
        invariant Core() && Settled() && !inSend && popped == old(popped) && txStart == old(txStart)
        invariant prepares == old(prepares) && called == old(called)
        invariant rxStart == old(rxStart) && rxBuf[..] == old(rxBuf[..])
        invariant sends == old(sends) + posted[..k]
        invariant k == 0 ==> txEnd == old(txEnd) && txBuf[..] == old(txBuf[..])
      {
        var rc;
        ghost var at;
        assert posted[k] in posted;
        rc, at := Send(posted[k].from, posted[k].len, posted[k].done, posted[k].handle, false);
        assert posted[..k + 1] == posted[..k] + [posted[k]];
      }
      assert posted[..|posted|] == posted;
    }

    /** What the completion interrupt may do to a thread's view of the driver. */
    twostate predicate EnvStep()
      reads this, txBuf, rxBuf
    {
      && Core() && Called()
      && inSend == old(inSend) && inPrepare == old(inPrepare) && old(popped) <= popped
      && old(sends) <= sends && old(prepares) <= prepares
      && (inSend ==> sends == old(sends) && txEnd == old(txEnd) && txBuf[..] == old(txBuf[..]))
      && (inPrepare ==> prepares == old(prepares) && rxEnd == old(rxEnd) && rxBuf[..] == old(rxBuf[..]))
      && ownSends == old(ownSends) && ownPrepares == old(ownPrepares)
      && (old(active) ==> Settled())
      && (!old(busy) ==>
            active == old(active) && !busy && Quiet())
    }

    /** A stalled device stays stalled. */
    twostate predicate StillStalled()
      reads this
    {
      old(active && !busy) ==> active && !busy && popped == old(popped)
    }

    /** Nothing has changed but what a launch changes. */
    twostate predicate Quiet()
      reads this, txBuf, rxBuf
    {
      && popped == old(popped) && txStart == old(txStart) && rxStart == old(rxStart)
      && txEnd == old(txEnd) && rxEnd == old(rxEnd) && called == old(called)
      && sends == old(sends) && prepares == old(prepares)
      && txBuf[..] == old(txBuf[..]) && rxBuf[..] == old(rxBuf[..])
    }

    /** What a step of the thread that posts nothing does, with completions around it. */
    twostate predicate IdleStep(enabled: bool)
      reads this, txBuf, rxBuf
    {
      && Core() && inSend == old(inSend) && inPrepare == old(inPrepare) && old(popped) <= popped
      && ownSends == old(ownSends) && ownPrepares == old(ownPrepares) && StillStalled()
      && old(sends) <= sends && old(prepares) <= prepares
      && (if enabled then Called() else Quiet())
    }

    /** What a callback may do: the slots of the pair just popped stay as they are. */
    twostate predicate CallbackStep()
      reads this, txBuf, rxBuf
      requires txBuf.Length == rxBuf.Length == NSLOTS
    {
      && inSend == old(inSend) && inPrepare == old(inPrepare) && popped == old(popped)
      && ownSends == old(ownSends) && ownPrepares == old(ownPrepares)
      && txStart == old(txStart) && rxStart == old(rxStart)
      && txBuf[Prev(txStart)] == old(txBuf[Prev(txStart)])
      && rxBuf[Prev(rxStart)] == old(rxBuf[Prev(rxStart)])
      && old(sends) <= sends && old(prepares) <= prepares
      && (inSend ==> sends == old(sends) && txEnd == old(txEnd) && txBuf[..] == old(txBuf[..]))
      && (inPrepare ==> prepares == old(prepares) && rxEnd == old(rxEnd) && rxBuf[..] == old(rxBuf[..]))
    }

    /** A callback: it may call Send and Prepare any number of times, except on a channel where it
        interrupted the thread between the first read of an index and the move of the end. */
    method CallBack(call: Callback)
      requires Core() && Settled()
      modifies this, txBuf, rxBuf
      ensures Core() && Settled() && CallbackStep() && called == old(called) + [call]
      decreases true, 0
    {
      hide Holds;
      called := called + [call];
      var n: nat := *;
      while n > 0
        invariant Core() && Settled() && CallbackStep() && called == old(called) + [call]
      {
        var transmit: bool, address: nat, len: nat, done: bool, handle: nat := *, *, *, *, *;
        if transmit && !inSend {
          ghost var at;
          var rc;
          rc, at := Send(address, len, done, handle, false);
        } else if !transmit && !inPrepare {
          ghost var at;
          var rc;
          rc, at := Prepare(address, len, done, handle, false);
        }
        n := n - 1;
      }
    }

    /** The first half of the interrupt: pop the finished pair and start the next. */
    method PopAndLaunch() returns (tx: Slot, rx: Slot)
      requires Core() && busy
      modifies this`txStart, this`rxStart, this`popped
      modifies this`active, this`readAddress, this`writeAddress, this`busy, this`launched
      ensures Core() && Settled() && popped == old(popped) + 1
      ensures tx == Prev(txStart) && txBuf[tx] == sends[popped - 1]
      ensures rx == Prev(rxStart) && rxBuf[rx] == prepares[popped - 1]
    {
      tx, rx := txStart, rxStart;
      FullTest(txBuf[..], txStart, txEnd, sends, popped);
      FullTest(rxBuf[..], rxStart, rxEnd, prepares, popped);
      hide Holds, Wrap;
      WrapNext(popped);
      Pop(txBuf[..], txStart, txEnd, sends, popped);
      Pop(rxBuf[..], rxStart, rxEnd, prepares, popped);
      txStart := Next(tx);
      rxStart := Next(rx);
      busy := false;
      popped := popped + 1;
      Launch();
    }

    /** The second half: the callbacks read the popped slots, which are still as they were. */
    method MakeCallbacks(tx: Slot, rx: Slot)
      requires Core() && Settled() && 0 < popped
      requires tx == Prev(txStart) && txBuf[tx] == sends[popped - 1]
      requires rx == Prev(rxStart) && rxBuf[rx] == prepares[popped - 1]
      modifies this, txBuf, rxBuf
      ensures Core() && Settled() && CallbackStep()
      ensures called == old(called) + TxCall(old(sends[popped - 1])) + RxCall(old(prepares[popped - 1]))
      decreases true, 1
    {
      hide Holds;
      if txBuf[tx].done {
        CallBack(TxDone(txBuf[tx].handle));
      }
      if rxBuf[rx].done {
        CallBack(RxDone(rxBuf[rx].handle, rxBuf[rx].data));
      }
    }

    /** alt_avalon_dma_irq, which runs when a transfer completes. */
    method Isr()
      requires Core() && Called() && busy
      modifies this, txBuf, rxBuf
      ensures EnvStep() && Settled() && popped == old(popped) + 1
      decreases true, 2
    {
      hide Holds, Queues;
      var tx, rx := PopAndLaunch();
      MakeCallbacks(tx, rx);
      CallsOfPrefix(old(sends), old(prepares), sends, prepares, old(popped));
    }

    /** Between two steps of the thread: any number of completions. */
    method Interfere()
      requires Core() && Called()
      modifies this, txBuf, rxBuf
      ensures EnvStep()
      decreases true, 3
    {
      hide Holds;
      var n: nat := *;
      while n > 0
        invariant EnvStep()
      {
        if busy {
          Isr();
        }
        n := n - 1;
      }
    }

    /** Completions that come between two steps of the thread, when interrupts are on. */
    method Pause(enabled: bool)
      requires Core() && (enabled ==> Called())
      modifies this, txBuf, rxBuf
      ensures IdleStep(enabled) && (enabled ==> EnvStep()) && (!enabled ==> unchanged(this))
      ensures !enabled && old(Settled()) ==> Settled()
      ensures old(active) && old(Settled()) ==> Settled()
      ensures !old(active) ==> !active && Quiet()
      decreases enabled, 4
    {
      hide Holds, Queues;
      if enabled {
        Interfere();
      }
    }

    /** Launch, unless a pair is with the device, whose interrupt will do so. */
    method StartIfIdle(enabled: bool)
      requires Core() && (active ==> Settled()) && (enabled ==> Called())
      modifies this, txBuf, rxBuf
      ensures IdleStep(enabled) && Settled()
      decreases enabled, 5
    {
      hide Holds;
      Pause(enabled);
      if !active {
        Pause(enabled);
        Launch();
      }
    }

    /** What a Send with interrupts off leaves alone. */
    twostate predicate QuietSend()
      reads this, txBuf, rxBuf
      requires txBuf.Length == rxBuf.Length == NSLOTS
    {
      && popped == old(popped) && txStart == old(txStart) && rxStart == old(rxStart)
      && inPrepare == old(inPrepare) && prepares == old(prepares) && rxEnd == old(rxEnd)
      && rxBuf[..] == old(rxBuf[..]) && called == old(called)
      && txBuf[Prev(txStart)] == old(txBuf[Prev(txStart)])
    }

    /** What a thread's step of Send, with completions around it, leaves alone. */
    twostate predicate SendStep(enabled: bool)
      reads this, txBuf, rxBuf
      requires txBuf.Length == rxBuf.Length == NSLOTS
    {
      && Core() && inSend && txEnd == old(txEnd) && old(popped) <= popped && StillStalled()
      && inPrepare == old(inPrepare) && sends == old(sends) && old(prepares) <= prepares
      && ownSends == old(ownSends) && ownPrepares == old(ownPrepares)
      && (active || old(Settled()) ==> Settled())
      && (if enabled then Called() else QuietSend())
    }

    /** Completions that come between two steps of Send, when interrupts are on. */
    method PauseSend(enabled: bool)
      requires Core() && inSend && (enabled ==> Called() && !inPrepare)
      modifies this, txBuf, rxBuf
      ensures SendStep(enabled) && txBuf[..] == old(txBuf[..])
      decreases enabled, 4
    {
      hide Holds;
      if enabled {
        Interfere();
      }
    }

    /** One write to the free slot. */
    method StoreTx(end: Slot, x: TxSlot, enabled: bool)
      requires Core() && inSend && end == txEnd && |sends| - popped < 3
      requires enabled ==> Called() && !inPrepare
      modifies this, txBuf, rxBuf
      ensures SendStep(enabled) && txBuf[end] == x
      decreases enabled, 5
    {
      FullTest(txBuf[..], txStart, txEnd, sends, popped);
      hide Holds;
      Fill(txBuf[..], txStart, txEnd, sends, popped, x);
      ghost var was := txBuf[..];
      txBuf[end] := x;
      assert txBuf[..] == was[end := x];
      PauseSend(enabled);
    }

    /** Fill in the descriptor, one field at a time. */
    method FillTx(end: Slot, x: TxSlot, enabled: bool)
      requires Core() && inSend && end == txEnd && |sends| - popped < 3
      requires enabled ==> Called() && !inPrepare
      modifies this, txBuf, rxBuf
      ensures SendStep(enabled) && txBuf[end] == x
      decreases enabled, 6
    {
      hide Holds;
      StoreTx(end, txBuf[end].(from := x.from), enabled);
      StoreTx(end, txBuf[end].(len := x.len), enabled);
      StoreTx(end, txBuf[end].(done := x.done), enabled);
      StoreTx(end, txBuf[end].(handle := x.handle), enabled);
    }

    /** The write of tx_end adds the request to the queue. */
    method PublishSend(end: Slot, ghost own: bool)
      requires Core() && inSend && end == txEnd && |sends| - popped < 3
      modifies this`txEnd, this`sends, this`inSend, this`ownSends
      ensures Core() && !inSend && sends == old(sends) + [txBuf[end]]
      ensures ownSends == old(ownSends) + if own then {|old(sends)|} else {}
      ensures active ==> Settled()
      ensures old(Called()) ==> Called()
    {
      FullTest(txBuf[..], txStart, txEnd, sends, popped);
      hide Holds;
      Push(txBuf[..], txStart, txEnd, sends, popped, txBuf[end]);
      txEnd := Next(end);
      sends := sends + [txBuf[end]];
      inSend := false;
      ownSends := ownSends + if own then {|old(sends)|} else {};
      FullTest(rxBuf[..], rxStart, rxEnd, prepares, popped);
      CallsOfPrefix(old(sends), prepares, sends, prepares, popped);
    }

    /** Read the two indices and compare them; completions may come in between. */
    method FindTxFull(enabled: bool) returns (full: bool)
      requires Core() && inSend && (enabled ==> Called() && !inPrepare)
      modifies this, txBuf, rxBuf
      ensures SendStep(enabled) && txBuf[..] == old(txBuf[..])
      ensures if full then |sends| - old(popped) == 3 else |sends| - popped < 3
      decreases enabled, 6
    {
      FullTest(txBuf[..], txStart, txEnd, sends, popped);
      hide Holds;
      var start := txStart;
      PauseSend(enabled);
      FullTest(txBuf[..], txStart, txEnd, sends, popped);
      var end := txEnd;
      full := Next(end) == start;
    }

    /** Send from the first read of an index up to the move of the end; the launch, when it is needed, is
        still to come. */
    method PlaceSend(x: TxSlot, enabled: bool) returns (rc: int)
      requires Core() && Settled() && !inSend && (enabled ==> Called() && !inPrepare)
      modifies this, txBuf, rxBuf
      ensures Core() && !inSend && (active || rc != 0 ==> Settled()) && StillStalled()
      ensures rc == 0 || rc == -ENOSPC
      ensures sends == old(sends) + if rc == 0 then [x] else []
      ensures rc == -ENOSPC ==> |sends| - old(popped) == 3
      ensures inPrepare == old(inPrepare) && ownPrepares == old(ownPrepares)
      ensures ownSends == old(ownSends) + if enabled && rc == 0 then {|old(sends)|} else {}
      ensures enabled ==> Called() && old(prepares) <= prepares && old(popped) <= popped
      ensures !enabled ==> (rc == 0 <==> |old(sends)| - popped < 3) && QuietSend()
      decreases enabled, 7
    {
      hide Holds;
      inSend := true;
      var full := FindTxFull(enabled);
      if full {
        inSend := false;
        return -ENOSPC;
      }
      FillTx(txEnd, x, enabled);
      PublishSend(txEnd, enabled);
      return 0;
    }

    /** All of send but the check of its arguments. */
    method SendNow(x: TxSlot, enabled: bool) returns (rc: int, ghost at: nat)
      requires Core() && Settled() && !inSend
      requires enabled ==> Called() && !inPrepare
      modifies this, txBuf, rxBuf
      ensures Core() && Settled() && !inSend && inPrepare == old(inPrepare) && StillStalled()
      ensures rc == 0 || rc == -ENOSPC
      ensures old(sends) <= sends && old(prepares) <= prepares && old(popped) <= popped
      ensures rc == 0 ==> |old(sends)| == at < |sends| && sends[at] == x
      ensures ownSends == old(ownSends) + if enabled && rc == 0 then {at} else {}
      ensures ownPrepares == old(ownPrepares)
      ensures rc == -ENOSPC ==> old(popped) == |sends| - 3 <= popped
      ensures enabled ==> Called()
      ensures (!enabled ==>
                 && QuietSend() && (rc == 0 <==> |old(sends)| - popped < 3)
                 && sends == old(sends) + if rc == 0 then [x] else [])
      decreases enabled, 8
    {
      hide Holds;
      at := |sends|;
      rc := PlaceSend(x, enabled);
      if rc == 0 {
        StartIfIdle(enabled);
      }
    }

    /** alt_avalon_dma_send.  A thread's request is entered once, at `at`; callbacks may have entered
        others before and after it.  A refusal for want of space means that three requests were waiting
        at some time during the call. */
    method Send(from: nat, len: nat, done: bool, handle: nat, enabled: bool)
      returns (rc: int, ghost at: nat)
      requires Core() && Settled() && !inSend
      requires enabled ==> Called() && !inPrepare
      modifies this, txBuf, rxBuf
      ensures Core() && Settled() && !inSend && inPrepare == old(inPrepare) && StillStalled()
      ensures rc == 0 || rc == -EINVAL || rc == -ENOSPC
      ensures rc == -EINVAL <==> !Acceptable(from, len)
      ensures old(sends) <= sends && old(prepares) <= prepares && old(popped) <= popped
      ensures rc == 0 ==> |old(sends)| <= at < |sends| && sends[at] == TxSlot(from, len, done, handle)
      ensures ownSends == old(ownSends) + if enabled && rc == 0 then {at} else {}
      ensures ownPrepares == old(ownPrepares)
      ensures rc == -ENOSPC ==> old(popped) <= |sends| - 3 <= popped
      ensures enabled ==> Called()
      ensures (!enabled ==>
                 && QuietSend() && (rc == 0 <==> Acceptable(from, len) && |old(sends)| - popped < 3)
                 && sends == old(sends) + if rc == 0 then [TxSlot(from, len, done, handle)] else [])
      decreases enabled, 9
    {
      hide Holds;
      if !Acceptable(from, len) {
        return -EINVAL, 0;
      }
      Pause(enabled);
      rc, at := SendNow(TxSlot(from, len, done, handle), enabled);
    }

    /** What a Prepare with interrupts off leaves alone. */
    twostate predicate QuietPrepare()
      reads this, rxBuf, txBuf
      requires rxBuf.Length == txBuf.Length == NSLOTS
    {
      && popped == old(popped) && rxStart == old(rxStart) && txStart == old(txStart)
      && inSend == old(inSend) && sends == old(sends) && txEnd == old(txEnd)
      && txBuf[..] == old(txBuf[..]) && called == old(called)
      && rxBuf[Prev(rxStart)] == old(rxBuf[Prev(rxStart)])
    }

    /** What a thread's step of Prepare, with completions around it, leaves alone. */
    twostate predicate PrepareStep(enabled: bool)
      reads this, rxBuf, txBuf
      requires rxBuf.Length == txBuf.Length == NSLOTS
    {
      && Core() && inPrepare && rxEnd == old(rxEnd) && old(popped) <= popped && StillStalled()
      && inSend == old(inSend) && prepares == old(prepares) && old(sends) <= sends
      && ownPrepares == old(ownPrepares) && ownSends == old(ownSends)
      && (active || old(Settled()) ==> Settled())
      && (if enabled then Called() else QuietPrepare())
    }

    /** Completions that come between two steps of Prepare, when interrupts are on. */
    method PausePrepare(enabled: bool)
      requires Core() && inPrepare && (enabled ==> Called() && !inSend)
      modifies this, rxBuf, txBuf
      ensures PrepareStep(enabled) && rxBuf[..] == old(rxBuf[..])
      decreases enabled, 4
    {
      hide Holds;
      if enabled {
        Interfere();
      }
    }

    /** One write to the free slot. */
    method StoreRx(end: Slot, x: RxSlot, enabled: bool)
      requires Core() && inPrepare && end == rxEnd && |prepares| - popped < 3
      requires enabled ==> Called() && !inSend
      modifies this, rxBuf, txBuf
      ensures PrepareStep(enabled) && rxBuf[end] == x
      decreases enabled, 5
    {
      FullTest(rxBuf[..], rxStart, rxEnd, prepares, popped);
      hide Holds;
      Fill(rxBuf[..], rxStart, rxEnd, prepares, popped, x);
      ghost var was := rxBuf[..];
      rxBuf[end] := x;
      assert rxBuf[..] == was[end := x];
      PausePrepare(enabled);
    }

    /** Fill in the descriptor, one field at a time. */
    method FillRx(end: Slot, x: RxSlot, enabled: bool)
      requires Core() && inPrepare && end == rxEnd && |prepares| - popped < 3
      requires enabled ==> Called() && !inSend
      modifies this, rxBuf, txBuf
      ensures PrepareStep(enabled) && rxBuf[end] == x
      decreases enabled, 6
    {
      hide Holds;
      StoreRx(end, rxBuf[end].(data := x.data), enabled);
      StoreRx(end, rxBuf[end].(len := x.len), enabled);
      StoreRx(end, rxBuf[end].(done := x.done), enabled);
      StoreRx(end, rxBuf[end].(handle := x.handle), enabled);
    }

    /** The write of rx_end adds the request to the queue. */
    method PublishPrepare(end: Slot, ghost own: bool)
      requires Core() && inPrepare && end == rxEnd && |prepares| - popped < 3
      modifies this`rxEnd, this`prepares, this`inPrepare, this`ownPrepares
      ensures Core() && !inPrepare && prepares == old(prepares) + [rxBuf[end]]
      ensures ownPrepares == old(ownPrepares) + if own then {|old(prepares)|} else {}
      ensures active ==> Settled()
      ensures old(Called()) ==> Called()
    {
      FullTest(rxBuf[..], rxStart, rxEnd, prepares, popped);
      hide Holds;
      Push(rxBuf[..], rxStart, rxEnd, prepares, popped, rxBuf[end]);
      rxEnd := Next(end);
      prepares := prepares + [rxBuf[end]];
      inPrepare := false;
      ownPrepares := ownPrepares + if own then {|old(prepares)|} else {};
      FullTest(txBuf[..], txStart, txEnd, sends, popped);
      CallsOfPrefix(sends, old(prepares), sends, prepares, popped);
    }

    /** Read the two indices and compare them; completions may come in between. */
    method FindRxFull(enabled: bool) returns (full: bool)
      requires Core() && inPrepare && (enabled ==> Called() && !inSend)
      modifies this, rxBuf, txBuf
      ensures PrepareStep(enabled) && rxBuf[..] == old(rxBuf[..])
      ensures if full then |prepares| - old(popped) == 3 else |prepares| - popped < 3
      decreases enabled, 6
    {
      FullTest(rxBuf[..], rxStart, rxEnd, prepares, popped);
      hide Holds;
      var start := rxStart;
      PausePrepare(enabled);
      FullTest(rxBuf[..], rxStart, rxEnd, prepares, popped);
      var end := rxEnd;
      full := Next(end) == start;
    }

    /** Prepare from the first read of an index up to the move of the end; the launch, when it is needed, is
        still to come. */
    method PlacePrepare(x: RxSlot, enabled: bool) returns (rc: int)
      requires Core() && Settled() && !inPrepare && (enabled ==> Called() && !inSend)
      modifies this, rxBuf, txBuf
      ensures Core() && !inPrepare && (active || rc != 0 ==> Settled()) && StillStalled()
      ensures rc == 0 || rc == -ENOSPC
      ensures prepares == old(prepares) + if rc == 0 then [x] else []
      ensures rc == -ENOSPC ==> |prepares| - old(popped) == 3
      ensures inSend == old(inSend) && ownSends == old(ownSends)
      ensures ownPrepares == old(ownPrepares) + if enabled && rc == 0 then {|old(prepares)|} else {}
      ensures enabled ==> Called() && old(sends) <= sends && old(popped) <= popped
      ensures !enabled ==> (rc == 0 <==> |old(prepares)| - popped < 3) && QuietPrepare()
      decreases enabled, 7
    {
      hide Holds;
      inPrepare := true;
      var full := FindRxFull(enabled);
      if full {
        inPrepare := false;
        return -ENOSPC;
      }
      FillRx(rxEnd, x, enabled);
      PublishPrepare(rxEnd, enabled);
      return 0;
    }

    /** All of prepare but the check of its arguments. */
    method PrepareNow(x: RxSlot, enabled: bool) returns (rc: int, ghost at: nat)
      requires Core() && Settled() && !inPrepare
      requires enabled ==> Called() && !inSend
      modifies this, rxBuf, txBuf
      ensures Core() && Settled() && !inPrepare && inSend == old(inSend) && StillStalled()
      ensures rc == 0 || rc == -ENOSPC
      ensures old(prepares) <= prepares && old(sends) <= sends && old(popped) <= popped
      ensures rc == 0 ==> |old(prepares)| == at < |prepares| && prepares[at] == x
      ensures ownPrepares == old(ownPrepares) + if enabled && rc == 0 then {at} else {}
      ensures ownSends == old(ownSends)
      ensures rc == -ENOSPC ==> old(popped) == |prepares| - 3 <= popped
      ensures enabled ==> Called()
      ensures (!enabled ==>
                 && QuietPrepare() && (rc == 0 <==> |old(prepares)| - popped < 3)
                 && prepares == old(prepares) + if rc == 0 then [x] else [])
      decreases enabled, 8
    {
      hide Holds;
      at := |prepares|;
      rc := PlacePrepare(x, enabled);
      if rc == 0 {
        StartIfIdle(enabled);
      }
    }

    /** alt_avalon_dma_prepare.  A thread's request is entered once, at `at`; callbacks may have entered
        others before and after it.  A refusal for want of space means that three requests were waiting
        at some time during the call. */
    method Prepare(data: nat, len: nat, done: bool, handle: nat, enabled: bool)
      returns (rc: int, ghost at: nat)
      requires Core() && Settled() && !inPrepare
      requires enabled ==> Called() && !inSend
      modifies this, rxBuf, txBuf
      ensures Core() && Settled() && !inPrepare && inSend == old(inSend) && StillStalled()
      ensures rc == 0 || rc == -EINVAL || rc == -ENOSPC
      ensures rc == -EINVAL <==> !Acceptable(data, len)
      ensures old(prepares) <= prepares && old(sends) <= sends && old(popped) <= popped
      ensures rc == 0 ==> |old(prepares)| <= at < |prepares| && prepares[at] == RxSlot(data, len, done, handle)
      ensures ownPrepares == old(ownPrepares) + if enabled && rc == 0 then {at} else {}
      ensures ownSends == old(ownSends)
      ensures rc == -ENOSPC ==> old(popped) <= |prepares| - 3 <= popped
      ensures enabled ==> Called()
      ensures (!enabled ==>
                 && QuietPrepare() && (rc == 0 <==> Acceptable(data, len) && |old(prepares)| - popped < 3)
                 && prepares == old(prepares) + if rc == 0 then [RxSlot(data, len, done, handle)] else [])
      decreases enabled, 9
    {
      hide Holds;
      if !Acceptable(data, len) {
        return -EINVAL, 0;
      }
      Pause(enabled);
      rc, at := PrepareNow(RxSlot(data, len, done, handle), enabled);
    }
  }

  class Control {
    const dma: Dma
    var mode: Mode
    var control: ControlWord

    constructor (dma: Dma)
      ensures mode == Mode(false, false, 3, Bidirectional) && control == mode.Control() && this.dma == dma
    {
      this.dma, mode, control := dma, Mode(false, false, 3, Bidirectional), ControlWord(4, false, false);
    }

    /** Nothing is queued on either channel; then nothing is moving either. */
    ghost predicate Idle()
      reads dma
    {
      |dma.sends| == dma.popped == |dma.prepares|
    }

    /** alt_avalon_dma_ioctl. */
    method Request(req: Request) returns (rc: int)
      requires dma.Core()
      modifies `mode, `control, dma`readAddress, dma`writeAddress
      ensures dma.Core() && (rc, mode) == Ioctl(old(mode), Idle(), req)
      // Stated outright: when it is refused, and what an accepted request turns on and off.
      ensures (rc == -EIO <==> (!Idle() || (req.TxStreamOn? && old(mode.rxStream))
                                || (req.RxStreamOn? && old(mode.txStream))))
      ensures rc == -ENOTTY <==> Idle() && req.Unknown?
      ensures rc in {0, -EIO, -ENOTTY} && (rc != 0 ==> mode == old(mode))
      ensures rc == 0 ==> mode.txStream == if req.TxStreamOn? then true else !req.TxStreamOff? && old(mode.txStream)
      ensures rc == 0 ==> mode.rxStream == if req.RxStreamOn? then true else !req.RxStreamOff? && old(mode.rxStream)
      ensures rc == 0 ==> mode.alignMask == if req.SetMode? then req.mask else old(mode.alignMask)
      ensures dma.readAddress == if rc == 0 && req.TxStreamOn? then req.address else old(dma.readAddress)
      ensures dma.writeAddress == if rc == 0 && req.RxStreamOn? then req.address else old(dma.writeAddress)
      ensures control == if rc == 0 then mode.Control() else old(control)
    {
      dma.EmptyIs();
      hide Holds;
      if dma.txStart != dma.txEnd || dma.rxStart != dma.rxEnd || dma.busy { return -EIO; }
      rc := 0;
      match req {
        case TxStreamOn(address) =>
          if !mode.rxStream {
            dma.readAddress := address;
            mode := mode.(txStream := true);
            mode := mode.(launch := RxOnly);
          } else {
            rc := -EIO;
          }
        case TxStreamOff =>
          mode := mode.(txStream := false);
          mode := mode.(launch := Bidirectional);
        case RxStreamOn(address) =>
          if !mode.txStream {
            dma.writeAddress := address;
            mode := mode.(rxStream := true);
            mode := mode.(launch := TxOnly);
          } else {
            rc := -EIO;
          }
        case RxStreamOff =>
          mode := mode.(rxStream := false);
          mode := mode.(launch := Bidirectional);
        case SetMode(mask) => mode := mode.(alignMask := mask);
        case Unknown => rc := -ENOTTY;
      }
      if rc == 0 {
        var width := match mode.alignMask case 0 => 1 case 1 => 2 case 3 => 4 case 7 => 8 case _ => 16;
        if mode.txStream {
          control := ControlWord(width, true, false);
        } else if mode.rxStream {
          control := ControlWord(width, false, true);
        } else {
          control := ControlWord(width, false, false);
        }
      }
    }
  }
}
