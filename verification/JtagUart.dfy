/** The interrupt-driven JTAG UART driver: one thread that reads and writes, an interrupt routine,
    and a device with two eight-byte FIFOs whose other end is a host computer.

    Every thread routine calls `Interfere` between two of its steps; `Interfere` lets the host,
    the timeout alarm and the interrupt routine run any number of times.  `HostMay` does the same
    for the host alone between two steps of the interrupt routine. */
module JtagUart {
  import opened Errno
  import opened Ring
  import opened Arithmetic

  type Byte = b: int | 0 <= b < 256

  const FIFO_LEN: nat := 8
  const INT_MAX: nat := 0x7FFF_FFFF

  /** What the far end of the cable can do: put a byte in the receive FIFO, pause (which raises
      the receive interrupt when the FIFO holds data), or take a byte from the transmit FIFO. */
  datatype HostEvent = Arrive(b: Byte) | Pause | Drain

  /** How a wait ends: the caller tries again, gives up, or is still waiting when the run is no
      longer followed. */
  datatype Wait = Retry | GiveUp | Unfinished

  class Uart {
    // Driver state.
    var timeout: nat
    var hostInactive: nat
    var irqRe: bool
    var irqWe: bool
    var rxIn: Index
    var rxOut: Index
    var txIn: Index
    var txOut: Index
    const rxBuf: array<Byte>
    const txBuf: array<Byte>

    // Device state: the two enable bits of the control register, the FIFOs, the pause flag.
    var devRe: bool
    var devWe: bool
    var rxFifo: seq<Byte>
    var txFifo: seq<Byte>
    var pause: bool
    var host: seq<HostEvent>  // what the host is going to do

    // The bytes queued in the two buffers, oldest first.
    ghost var rxQueue: seq<Byte>
    ghost var txQueue: seq<Byte>

    // History.
    ghost var arrived: seq<Byte>    // accepted by the receive FIFO
    ghost var delivered: seq<Byte>  // copied out to readers
    ghost var accepted: seq<Byte>   // copied in from writers
    ghost var drained: seq<Byte>    // taken by the host
    ghost var rxOwed: bool          // a reader has consumed data and not yet enabled RE
    ghost var txOwed: bool          // a writer has published data and not yet enabled WE
    ghost var waited: nat           // turns of the waiting loops of the thread
    ghost var inactivity: seq<nat>  // the values that hostInactive has had, the present one last

    ghost predicate Valid()
      reads this, rxBuf, txBuf
    {
      && rxBuf.Length == txBuf.Length == BUF_LEN && rxBuf != txBuf
      && Holds(rxBuf, rxOut, rxIn, rxQueue)
      && Holds(txBuf, txOut, txIn, txQueue)
      && |rxFifo| <= FIFO_LEN && |txFifo| <= FIFO_LEN
      && irqRe == devRe && irqWe == devWe
      && inactivity != [] && inactivity[|inactivity| - 1] == hostInactive
      // No byte is lost, duplicated or reordered in either direction.
      && arrived == delivered + rxQueue + rxFifo
      && accepted == drained + txFifo + txQueue
      // Neither direction stalls.
      && (!devRe ==> |rxQueue| == BUF_LEN - 1 || rxOwed)
      && (txQueue != [] && !txOwed ==> devWe)
    }

    /** What a wait of the thread does. */
    twostate predicate WaitStep()
      reads this, rxBuf, txBuf
    {
      && Valid()
      && txIn == old(txIn) && rxOut == old(rxOut) && timeout == old(timeout)
      && accepted == old(accepted) && delivered == old(delivered)
      && txOwed == old(txOwed) && rxOwed == old(rxOwed)
      && |txQueue| <= |old(txQueue)|
      && old(rxQueue) <= rxQueue
      && HistoryGrows()
    }

    /** What the thread can rely on while others run. */
    twostate predicate EnvStep()
      reads this, rxBuf, txBuf
    {
      WaitStep() && waited == old(waited)
    }

    /** What has happened stays so. */
    twostate predicate HistoryGrows()
      reads this
    {
      && old(arrived) <= arrived && old(drained) <= drained && old(inactivity) <= inactivity
    }

    /** The host has been found inactive for the whole of the timeout, at some time since the inactivity
        had the value at that place of its history. */
    ghost predicate TimedOutSince(place: nat)
      reads this
    {
      exists k :: place <= k < |inactivity| && timeout <= inactivity[k]
    }

    /** The device raises its receive interrupt: it is enabled and a full FIFO or a pause asks for it. */
    predicate ReceivePending()
      reads this
    {
      devRe && (pause || |rxFifo| == FIFO_LEN)
    }

    /** The device raises its transmit interrupt: it is enabled and has nothing left to send. */
    predicate TransmitPending()
      reads this
    {
      devWe && txFifo == []
    }

    /** The length of the work the interrupt routine can still find; see `Isr`. */
    ghost function Work(): nat
      reads this
    {
      3 * |host| + |rxFifo| + |txQueue| +
      (if pause then 1 else 0) + (if devRe then 1 else 0) + (if devWe then 1 else 0)
    }

    constructor (timeout: nat, rxFifo: seq<Byte>, alarmStarted: bool)
      requires |rxFifo| <= FIFO_LEN
      ensures Valid() && fresh(rxBuf) && fresh(txBuf)
      ensures rxQueue == [] && txQueue == [] && devRe && !devWe
      ensures this.timeout == if alarmStarted then timeout else INT_MAX
      ensures arrived == rxFifo && delivered == [] && accepted == [] && !rxOwed && !txOwed
    {
      rxBuf := new Byte[BUF_LEN];
      txBuf := new Byte[BUF_LEN];
      rxIn, rxOut, txIn, txOut := 0, 0, 0, 0;
      irqRe, irqWe, devRe, devWe := true, false, true, false;
      hostInactive := 0;
      this.timeout := if alarmStarted then timeout else INT_MAX;
      this.rxFifo, txFifo, pause, host := rxFifo, [], false, [];
      arrived, delivered, accepted, drained := rxFifo, [], [], [];
      rxOwed, txOwed, inactivity, waited := false, false, [0], 0;
      rxQueue, txQueue := [], [];
    }

    /** The host performs any number of its coming events. */
    method HostMay()
      requires Valid()
      modifies this`host, this`rxFifo, this`txFifo, this`pause, this`arrived, this`drained
      ensures Valid() && Work() <= old(Work()) && |txFifo| <= |old(txFifo)|
      ensures old(arrived) <= arrived && old(drained) <= drained
      ensures (old(pause) ==> pause) && |old(rxFifo)| <= |rxFifo|
      ensures 3 * |host| + |rxFifo| + (if pause then 1 else 0)
           <= old(3 * |host| + |rxFifo| + (if pause then 1 else 0))
    {
      hide Holds;
      var n: nat := *;
      while n > 0 && host != []
        invariant Valid() && |txFifo| <= |old(txFifo)|
        invariant old(arrived) <= arrived && old(drained) <= drained
        invariant (old(pause) ==> pause) && |old(rxFifo)| <= |rxFifo|
        invariant 3 * |host| + |rxFifo| + (if pause then 1 else 0)
               <= old(3 * |host| + |rxFifo| + (if pause then 1 else 0))
      {
        HostEventHappens();
        n := n - 1;
      }
    }

    method HostEventHappens()
      requires Valid() && host != []
      modifies this`host, this`rxFifo, this`txFifo, this`pause, this`arrived, this`drained
      ensures Valid() && host == old(host)[1..] && |txFifo| <= |old(txFifo)|
      ensures old(arrived) <= arrived && old(drained) <= drained
      ensures (old(pause) ==> pause) && |old(rxFifo)| <= |rxFifo|
      ensures |rxFifo| + (if pause then 1 else 0) <= old(|rxFifo| + (if pause then 1 else 0)) + 1
    {
      hide Holds, Valid;
      var event := NextEvent();
      match event {
        case Arrive(b) => HostSends(b);
        case Pause => HostPauses();
        case Drain => HostTakes();
      }
    }

    method NextEvent() returns (event: HostEvent)
      requires Valid() && host != []
      modifies this`host
      ensures Valid() && event == old(host)[0] && host == old(host)[1..]
    {
      hide Holds;
      event, host := host[0], host[1..];
    }

    /** A pause raises the receive interrupt if there is data. */
    method HostPauses()
      requires Valid()
      modifies this`pause
      ensures Valid() && pause == (old(pause) || rxFifo != [])
    {
      hide Holds;
      pause := pause || rxFifo != [];
    }

    /** A byte from the host enters the stream if the FIFO has room, and is lost if it has none. */
    method HostSends(b: Byte)
      requires Valid()
      modifies this`rxFifo, this`arrived
      ensures Valid() && arrived == old(arrived) + if |old(rxFifo)| < FIFO_LEN then [b] else []
      ensures rxFifo == old(rxFifo) + if |old(rxFifo)| < FIFO_LEN then [b] else []
    {
      if |rxFifo| < FIFO_LEN {
        Enter(arrived, delivered, rxQueue, rxFifo, [b]);
        rxFifo, arrived := rxFifo + [b], arrived + [b];
      }
    }

    /** The host takes the oldest byte, if there is one. */
    method HostTakes()
      requires Valid()
      modifies this`txFifo, this`drained
      ensures Valid() && drained + txFifo == old(drained + txFifo)
      ensures drained == old(drained) + if old(txFifo) == [] then [] else [old(txFifo)[0]]
    {
      if txFifo != [] {
        MoveToFirst(accepted, drained, txFifo, txQueue, 1);
        drained, txFifo := drained + [txFifo[0]], txFifo[1..];
      }
    }

    /** Moves the oldest byte of the receive FIFO into the buffer. */
    method StoreReceived()
      requires Valid() && Advance(rxIn, 1) != rxOut && rxFifo != []
      modifies this`rxFifo, this`rxIn, this`rxQueue, rxBuf
      ensures Valid() && rxFifo == old(rxFifo)[1..]
      ensures rxQueue == old(rxQueue) + [old(rxFifo)[0]]
    {
      MoveToMiddle(arrived, delivered, rxQueue, rxFifo);
      FullTest(rxOut, rxIn);
      AdvanceIsCell(rxIn, 1);
      rxBuf[rxIn] := rxFifo[0];
      rxQueue, rxFifo := rxQueue + [rxFifo[0]], rxFifo[1..];
      rxIn := Advance(rxIn, 1);
    }

    /** One read of the data register; a valid byte goes into the receive buffer.  RAVAIL counts
        the bytes left after the read and is zero along with RVALID. */
    method ReceiveByte() returns (rvalid: bool, ravail: bool)
      requires Valid() && Advance(rxIn, 1) != rxOut
      modifies this`rxFifo, this`pause, this`rxIn, this`rxQueue, rxBuf
      ensures Valid() && !pause
      ensures rvalid == (old(rxFifo) != []) && ravail == (rxFifo != [])
      ensures rxFifo == if rvalid then old(rxFifo)[1..] else []
      ensures rxQueue == if rvalid then old(rxQueue) + [old(rxFifo)[0]] else old(rxQueue)
    {
      pause := false;
      rvalid := rxFifo != [];
      if rvalid {
        StoreReceived();
      }
      ravail := rxFifo != [];
    }

    /** One pass of the receive loop.  `more` says whether to go round again, `ravail` whether the
        device was last seen to hold data; it stays as it was when there is no room to read. */
    method ReceivePass(ravail0: bool) returns (more: bool, ravail: bool)
      requires Valid()
      modifies this`host, this`rxFifo, this`txFifo, this`pause, this`arrived, this`drained,
               this`rxIn, this`rxQueue, rxBuf
      ensures Valid() && |txFifo| <= |old(txFifo)| && old(rxQueue) <= rxQueue
      ensures old(arrived) <= arrived && old(drained) <= drained
      ensures Work() <= old(Work())
      ensures more ==> Work() < old(Work())
      ensures |rxQueue| < BUF_LEN - 1 && (old(pause) || |old(rxFifo)| == FIFO_LEN) ==> Work() < old(Work())
      ensures !more ==> if |rxQueue| == BUF_LEN - 1 then ravail == ravail0 else !ravail && rxFifo == []
      ensures if more then |rxQueue| == |old(rxQueue)| + 1 else rxQueue == old(rxQueue)
      ensures old(rxFifo) != [] && |old(rxQueue)| < BUF_LEN - 1 ==> more
    {
      hide Holds, Valid;
      QueuesFit();
      more, ravail := false, ravail0;
      HostMay();
      var next := Advance(rxIn, 1);
      QueuesFit();
      if next != rxOut {
        HostMay();
        more, ravail := ReceiveByte();
      }
    }

    /** The loop of the read half of the interrupt routine: moves bytes until the device or the
        room runs out, and reports whether the device was last seen to hold more. */
    method ReceiveLoop() returns (ravail: bool)
      requires Valid() && (pause || |rxFifo| == FIFO_LEN)
      modifies this`host, this`rxFifo, this`txFifo, this`pause, this`arrived, this`drained,
               this`rxIn, this`rxQueue, rxBuf
      ensures Valid() && |txFifo| <= |old(txFifo)| && old(rxQueue) <= rxQueue
      ensures old(arrived) <= arrived && old(drained) <= drained
      ensures ravail ==> |rxQueue| == BUF_LEN - 1
      ensures |rxQueue| == BUF_LEN - 1 || rxFifo == []
      ensures old(rxFifo) != [] && |old(rxQueue)| < BUF_LEN - 1 ==> |old(rxQueue)| < |rxQueue|
      ensures if ravail then Work() <= old(Work()) else Work() < old(Work())
    {
      hide Holds, Valid;
      QueuesFit();
      ravail := true;  // start by assuming that there is data
      var more;
      more, ravail := ReceivePass(ravail);
      QueuesFit();
      while more
        invariant Valid() && |txFifo| <= |old(txFifo)| && old(rxQueue) <= rxQueue
        invariant old(arrived) <= arrived && old(drained) <= drained
        invariant ravail && !more ==> |rxQueue| == BUF_LEN - 1
        invariant !more ==> |rxQueue| == BUF_LEN - 1 || rxFifo == []
        invariant old(rxFifo) != [] && |old(rxQueue)| < BUF_LEN - 1 ==> |old(rxQueue)| < |rxQueue|
        invariant if ravail && !more then Work() <= old(Work()) else Work() < old(Work())
        decreases more, Work()
      {
        more, ravail := ReceivePass(ravail);
        QueuesFit();
      }
    }

    /** The read half of the interrupt routine. */
    method ReceiveInterrupt()
      requires Valid() && ReceivePending()
      modifies this`host, this`rxFifo, this`txFifo, this`pause, this`arrived, this`drained,
               this`rxIn, this`rxQueue, this`irqRe, this`devRe, rxBuf
      ensures Valid() && |txFifo| <= |old(txFifo)| && old(rxQueue) <= rxQueue
      ensures old(arrived) <= arrived && old(drained) <= drained
      // Everything is taken that there is room for, and receive interrupts are turned off only when
      // there is no room left.
      ensures |rxQueue| == BUF_LEN - 1 || rxFifo == []
      ensures old(rxFifo) != [] && |old(rxQueue)| < BUF_LEN - 1 ==> |old(rxQueue)| < |rxQueue|
      ensures devRe || |rxQueue| == BUF_LEN - 1
      ensures Work() < old(Work())
    {
      hide Holds;
      var ravail := ReceiveLoop();
      if ravail {
        // The buffer is full: turn off receive interrupts until some space becomes available.
        irqRe := false;
        devRe := irqRe;
      }
    }

    /** The write half of the interrupt routine; `space` is the WSPACE field read with the
        interrupt bits.  The device never drops a byte, because it still has that much room. */
    method TransmitInterrupt(space0: nat)
      requires Valid() && devWe && 0 < space0 <= FIFO_LEN - |txFifo|
      modifies this`host, this`rxFifo, this`txFifo, this`pause, this`arrived, this`drained,
               this`txOut, this`txQueue, this`irqWe, this`devWe
      ensures Valid() && old(arrived) <= arrived && old(drained) <= drained
      // As many bytes are sent as there are and the device has room for, the oldest ones ...
      ensures txQueue == old(txQueue)[Min(space0, |old(txQueue)|)..]
      // ... and transmit interrupts are turned off exactly when room is left.
      ensures devWe <==> space0 <= |old(txQueue)|
      ensures Work() < old(Work())
    {
      hide Holds, Valid;
      QueuesFit();
      var space := space0;
      while space > 0 && txOut != txIn
        invariant Valid() && devWe && old(arrived) <= arrived && old(drained) <= drained
        invariant space0 - space <= |old(txQueue)| && txQueue == old(txQueue)[space0 - space..]
        invariant space <= space0 && space <= FIFO_LEN - |txFifo|
        invariant if space < space0 then Work() < old(Work()) else Work() <= old(Work())
        decreases space
      {
        QueuesFit();
        HostMay();
        SendByte();
        space := space - 1;
      }
      QueuesFit();
      if space > 0 {
        StopTransmit();
      }
    }

    /** With nothing to send, transmit interrupts are turned off. */
    method StopTransmit()
      requires Valid() && txQueue == []
      modifies this`irqWe, this`devWe
      ensures Valid() && !devWe
    {
      hide Holds;
      irqWe := false;
      devWe := irqWe;
    }

    /** Moves the oldest queued byte into the device. */
    method SendByte()
      requires Valid() && txOut != txIn && |txFifo| < FIFO_LEN
      modifies this`txFifo, this`txOut, this`txQueue
      ensures Valid() && |txFifo| == |old(txFifo)| + 1 && txQueue == old(txQueue)[1..]
      ensures Work() < old(Work())
    {
      AdvanceIsCell(txOut, 1);
      MoveToMiddle(accepted, drained, txFifo, txQueue);
      txFifo := txFifo + [txBuf[txOut]];
      txOut, txQueue := Advance(txOut, 1), txQueue[1..];
    }

    /** An interrupt that was pending has been served: bytes have moved between the device and the
        queue, as far as there were any and there was room for them. */
    twostate predicate Served()
      reads this
    {
      && (old(TransmitPending()) && old(txQueue) != [] ==> |txQueue| < |old(txQueue)|)
      && (old(ReceivePending()) && old(rxFifo) != [] && |old(rxQueue)| < BUF_LEN - 1 ==>
            |old(rxQueue)| < |rxQueue|)
    }

    /** One pass of the interrupt routine's loop; false when there was nothing to do. */
    method IsrPass() returns (busy: bool)
      requires Valid()
      modifies this, rxBuf
      ensures EnvStep() && (busy ==> Work() < old(Work()))
      ensures !busy ==> !ReceivePending() && !TransmitPending()
      ensures Served()
    {
      hide Holds, Valid;
      HostMay();
      QueuesFit();
      // Read the control register.
      var ri := ReceivePending();
      var wi := TransmitPending();
      var wspace := FIFO_LEN - |txFifo|;
      busy := ri || wi;
      Serve(ri, wi, wspace);
    }

    /** The two halves, for the interrupt bits and the WSPACE field that were read. */
    method Serve(ri: bool, wi: bool, wspace: nat)
      requires Valid() && (ri ==> ReceivePending())
      requires wi ==> devWe && 0 < wspace <= FIFO_LEN - |txFifo|
      modifies this, rxBuf
      ensures EnvStep() && Work() <= old(Work()) && (ri || wi ==> Work() < old(Work()))
      ensures !ri && !wi ==> unchanged(this)
      ensures ri && old(rxFifo) != [] && |old(rxQueue)| < BUF_LEN - 1 ==> |old(rxQueue)| < |rxQueue|
      ensures wi ==> txQueue == old(txQueue)[Min(wspace, |old(txQueue)|)..]
    {
      hide Holds, Valid;
      if ri {
        ReceiveInterrupt();
      }
      if wi {
        TransmitInterrupt(wspace);
      }
    }

    /** The interrupt routine.  With finitely many host events to come it terminates; it returns only
        when no interrupt is pending, and has served those that were. */
    method Isr()
      requires Valid()
      modifies this, rxBuf
      ensures EnvStep() && Served()
      ensures !(devRe && (pause || |rxFifo| == FIFO_LEN)) && (devWe ==> txFifo != [])
    {
      hide Holds, Valid;
      var busy := IsrPass();
      while busy
        invariant EnvStep() && Served()
        invariant !busy ==> !ReceivePending() && !TransmitPending()
        decreases busy, Work()
      {
        busy := IsrPass();
      }
    }

    /** The once-a-second alarm that looks for signs of a host. */
    method Timeout(activity: bool)
      requires Valid()
      modifies this`devRe, this`devWe, this`hostInactive, this`inactivity
      ensures EnvStep()
      ensures hostInactive == if activity then 0
                              else if old(hostInactive) < INT_MAX - 2 then old(hostInactive) + 1
                              else old(hostInactive)
    {
      hide Holds;
      if activity {
        devRe, devWe := irqRe, irqWe;
        hostInactive := 0;
      } else if hostInactive < INT_MAX - 2 {
        hostInactive := hostInactive + 1;
      }
      inactivity := inactivity + [hostInactive];
    }

    /** What the host is going to do changes. */
    method HostPlans()
      requires Valid()
      modifies this`host
      ensures Valid()
    {
      host := *;
    }

    lemma NoStall()
      requires Valid() && !txOwed
      ensures txQueue != [] ==> devWe
    {
    }

    /** What the indices say of the queues. */
    lemma QueuesFit()
      requires Valid()
      ensures rxBuf != txBuf && |rxQueue| < BUF_LEN && (rxQueue == [] <==> rxIn == rxOut)
      ensures Advance(rxIn, 1) == rxOut <==> |rxQueue| == BUF_LEN - 1
      ensures |txQueue| < BUF_LEN && (txQueue == [] <==> txIn == txOut)
      ensures |rxFifo| <= FIFO_LEN && |txFifo| <= FIFO_LEN
    {
      FullTest(rxOut, rxIn);
    }

    /** A writer finds room exactly when fewer than 2047 bytes are queued. */
    lemma RoomLeft()
      requires Valid()
      ensures RoomRun(txOut, txIn) > 0 <==> |txQueue| < BUF_LEN - 1
    {
      RoomRunIsMaximal(txOut, txIn);
    }

    /** The host acts, or the interrupt routine or the timeout alarm runs. */
    method SomethingHappens()
      requires Valid()
      modifies this, rxBuf
      ensures EnvStep()
    {
      hide Holds, Valid;
      var turn: nat, activity: bool := *, *;
      if turn == 0 {
        HostMay();
      } else if turn == 1 {
        Isr();
      } else {
        Timeout(activity);
      }
    }

    /** Anything that may happen between two steps of the thread: the host acts, and possibly the
        interrupt routine or the timeout alarm runs, any number of times. */
    method Interfere()
      requires Valid()
      modifies this, rxBuf
      ensures EnvStep()
    {
      hide Holds, Valid;
      var n: nat := *;
      while n > 0
        invariant EnvStep()
      {
        HostPlans();
        SomethingHappens();
        n := n - 1;
      }
    }

    // ------------------------------------------------------------------ writing

    /** memcpy of `n` bytes to the free cells behind the write index, one byte at a time. */
    method CopyIn(data: seq<Byte>, n: nat)
      requires Valid() && n <= |data|
      requires n <= BUF_LEN - 1 - |txQueue| && txIn + n <= BUF_LEN
      modifies this, rxBuf, txBuf
      ensures EnvStep() && txIn + n <= BUF_LEN && n <= BUF_LEN - 1 - |txQueue|
      ensures forall k | 0 <= k < n :: txBuf[txIn + k] == data[k]
    {
      var i := 0;
      while i < n
        invariant i <= n && EnvStep()
        invariant forall k | 0 <= k < i :: txBuf[txIn + k] == data[k]
      {
        Interfere();
        txBuf[txIn + i] := data[i];
        i := i + 1;
      }
    }

    /** Publishes the `n` bytes behind the write index. */
    method PublishSent(data: seq<Byte>, n: nat)
      requires Valid() && n <= BUF_LEN - 1 - |txQueue| && txIn + n <= BUF_LEN && n <= |data|
      requires forall k | 0 <= k < n :: txBuf[txIn + k] == data[k]
      modifies this`txIn, this`txQueue, this`accepted, this`txOwed
      ensures Valid() && txOwed && accepted == old(accepted) + data[..n]
      ensures |txQueue| == |old(txQueue)| + n
    {
      Enter(accepted, drained, txFifo, txQueue, data[..n]);
      AdvanceIsCell(txIn, n);
      accepted, txQueue, txOwed := accepted + data[..n], txQueue + data[..n], true;
      txIn := Advance(txIn, n);
    }

    /** The free space in front of a writer whose copy of the write index is current. */
    method RoomSeen() returns (n: nat, out: Index)
      requires Valid()
      modifies this, rxBuf
      ensures EnvStep() && n <= BUF_LEN - 1 - |txQueue| && txIn + n <= BUF_LEN
      ensures n == 0 ==> RoomRun(out, txIn) == 0
      ensures |old(txQueue)| < BUF_LEN - 1 ==> n > 0
    {
      var in' := txIn;
      Interfere();
      out := txOut;
      n := RoomRun(out, in');
      RoomRunIsMaximal(out, in');
      Interfere();
    }

    /** The number of bytes that the transmit buffer has room for. */
    ghost function Room(): nat
      requires Valid()
      reads this, rxBuf, txBuf
    {
      BUF_LEN - 1 - |txQueue|
    }

    /** What a writer does to the state of the device and of the readers. */
    twostate predicate WriterStep()
      reads this, rxBuf, txBuf
    {
      && Valid()
      && rxOut == old(rxOut) && timeout == old(timeout)
      && delivered == old(delivered) && rxOwed == old(rxOwed)
      && old(rxQueue) <= rxQueue && HistoryGrows()
    }

    /** One pass of the writer's inner loop: copies the largest contiguous run that fits. */
    method FillPass(data: seq<Byte>) returns (n: nat, out: Index)
      requires Valid() && data != []
      modifies this, rxBuf, txBuf
      ensures waited == old(waited)
      ensures WriterStep() && n <= |data| && accepted == old(accepted) + data[..n]
      ensures |txQueue| <= |old(txQueue)| + n
      ensures n == 0 ==> RoomRun(out, txIn) == 0 && txOwed == old(txOwed)
      ensures |old(txQueue)| < BUF_LEN - 1 ==> n > 0
    {
      hide Holds, Valid;
      n, out := RoomSeen();
      if n == 0 {
        assert data[..n] == [];
        return;
      }
      if n > |data| {
        n := |data|;
      }
      CopyIn(data, n);
      QueuesFit();
      Interfere();
      PublishSent(data, n);
    }

    /** The writer's inner loop: fills the buffer until the data or the room runs out. */
    method Fill(data: seq<Byte>) returns (taken: nat, out: Index)
      requires Valid()
      modifies this, rxBuf, txBuf
      ensures waited == old(waited)
      ensures WriterStep() && taken <= |data| && accepted == old(accepted) + data[..taken]
      ensures taken < |data| ==> RoomRun(out, txIn) == 0
      ensures Min(|data|, old(Room())) <= taken
    {
      hide Holds, Valid;
      taken, out := 0, txOut;
      while taken < |data|
        invariant |txQueue| <= |old(txQueue)| + taken
        invariant WriterStep() && taken <= |data| && accepted == old(accepted) + data[..taken]
        invariant waited == old(waited)
      {
        var n;
        n, out := FillPass(data[taken..]);
        if n == 0 {
          break;
        }
        TakeMore(data, taken, n);
        taken := taken + n;
      }
    }

    /** The critical section that turns transmit interrupts on. */
    method EnableTransmit()
      requires Valid()
      modifies this`irqWe, this`devWe, this`txOwed
      ensures Valid() && devWe && !txOwed
    {
      hide Holds;
      irqWe := true;
      devWe := irqWe;
      txOwed := false;
    }

    /** One round of the writer's outer loop, up to the point where it may have to wait. */
    method WriteRound(data: seq<Byte>) returns (taken: nat, out: Index)
      requires Valid()
      modifies this, rxBuf, txBuf
      ensures waited == old(waited)
      ensures WriterStep() && taken <= |data| && accepted == old(accepted) + data[..taken]
      ensures !txOwed && (taken < |data| ==> RoomRun(out, txIn) == 0)
      ensures Min(|data|, old(Room())) <= taken
    {
      hide Holds, Valid;
      taken, out := Fill(data);
      Interfere();
      EnableTransmit();
      Interfere();
    }

    /** The record of a turn of a waiting loop, which is taken only while there is reason to. */
    ghost method CountTurn(reason: bool)
      requires Valid() && reason
      modifies this`waited
      ensures Valid() && waited == old(waited) + 1
    {
      hide Holds;
      waited := waited + 1;
    }

    /** The busy-wait for room, and the check for a host that follows it.  `polls` bounds how long
        the run is followed.  A retry has room, unless the host was counted as inactive for the whole
        timeout during the wait and has shown itself before the check. */
    method AwaitRoom(out: Index, polls0: nat) returns (w: Wait, polls: nat)
      requires Valid() && RoomRun(out, txIn) == 0
      modifies this, rxBuf
      ensures WaitStep() && polls <= polls0 && waited == old(waited) + polls0 - polls
      ensures w == Unfinished ==> polls == 0 && Room() == 0 && (hostInactive < timeout || hostInactive == 0)
      ensures w == Retry ==> hostInactive == 0
      ensures w == Retry ==> 0 < Room() || (polls < polls0 && TimedOutSince(|old(inactivity)| - 1))
      ensures w == GiveUp ==> hostInactive != 0
    {
      hide Holds, Valid;
      polls := polls0;
      while out == txOut && hostInactive < timeout
        invariant WaitStep() && polls <= polls0 && waited == old(waited) + polls0 - polls
        decreases polls
      {
        if polls == 0 {
          RoomLeft();
          return Unfinished, 0;
        }
        polls := polls - 1;
        CountTurn(out == txOut && hostInactive < timeout);
        Interfere();
      }
      AfterAwait(out);
      RoomLeft();
      if hostInactive != 0 {
        w := GiveUp;
      } else if out != txOut {
        MovedReaderMakesRoom(out, txOut, txIn);
        w := Retry;
      } else if polls == 0 {
        w := Unfinished;
      } else {
        w, polls := Retry, polls - 1;
        CountTurn(out == txOut && hostInactive == 0);
      }
    }

    /** What comes between the end of the wait and the check. */
    method AfterAwait(out: Index)
      requires Valid() && RoomRun(out, txIn) == 0 && (out != txOut || timeout <= hostInactive)
      modifies this, rxBuf
      ensures EnvStep()
      ensures |txQueue| < BUF_LEN - 1 || TimedOutSince(|old(inactivity)| - 1)
    {
      hide Holds;
      if out != txOut {
        MovedReaderMakesRoom(out, txOut, txIn);
      }
      RoomLeft();
      ghost var k := |inactivity| - 1;
      Interfere();
      assert inactivity[k] == old(inactivity[k]);
    }

    /** One turn of the writer's outer loop: a round and, unless that finishes the call, the wait. */
    method WriteTurn(data: seq<Byte>, nonblock: bool, polls0: nat)
      returns (n: nat, finished: bool, w: Wait, polls: nat)
      requires Valid()
      modifies this, rxBuf, txBuf
      ensures WriterStep() && n <= |data| && accepted == old(accepted) + data[..n]
      ensures !txOwed && (finished <==> n == |data| || nonblock)
      ensures Min(|data|, old(Room())) <= n
      ensures polls <= polls0 && waited == old(waited) + polls0 - polls
      ensures (!finished && w == Unfinished ==>
                 polls == 0 && Room() == 0 && (hostInactive < timeout || hostInactive == 0))
      ensures !finished && w == Retry ==> hostInactive == 0
      ensures (!finished && w == Retry ==>
                 0 < Room() || (polls < polls0 && TimedOutSince(|old(inactivity)| - 1)))
      ensures !finished && w == GiveUp ==> hostInactive != 0
    {
      hide Holds, Valid;
      var out;
      n, out := WriteRound(data);
      finished, w, polls := n == |data| || nonblock, Retry, polls0;
      if !finished {
        w, polls := AwaitRoom(out, polls);
      }
    }

    /** altera_avalon_jtag_uart_write.  `count` bytes at most are taken from `data`; `taken` is how
        many were.  The call is followed for `patience` steps of its waiting loops: `returned` says
        whether it came back within them, and everything else holds of an unfinished call too.
        `gaveUp` says that the host was found inactive while data was left. */
    method Write(data: seq<Byte>, count: int, nonblock: bool, patience: nat)
      returns (rc: int, returned: bool, taken: nat, gaveUp: bool)
      requires Valid() && count <= |data| && !txOwed
      modifies this, rxBuf, txBuf
      ensures WriterStep()
      // As much as there is room for is taken at once, and then the call need not wait.
      ensures 0 <= count ==> Min(count, old(Room())) <= taken
      ensures nonblock || count <= old(Room()) ==> returned
      ensures (!returned ==>
                 waited == old(waited) + patience && Room() == 0 && (hostInactive < timeout || hostInactive == 0))
      // Exactly a prefix of the caller's data entered the stream ...
      ensures taken <= |data| && accepted == old(accepted) + data[..taken]
      // ... and the return value is its length, or says why it is empty.
      ensures returned ==> rc == if taken > 0 then taken
                                 else if nonblock then -EWOULDBLOCK else -EIO
      ensures taken <= count || (count < 0 && taken == 0)
      ensures returned && taken < count ==> nonblock || gaveUp
      ensures gaveUp ==> returned && hostInactive != 0
      // A call that has returned leaves its data to the interrupt routine.
      ensures returned ==> !txOwed && (txQueue != [] ==> devWe)
    {
      hide Holds, Valid;
      var todo := if count > 0 then data[..count] else [];
      var polls: nat := patience;
      rc, returned, taken, gaveUp := 0, false, 0, false;
      ghost var first := true;
      while true
        invariant WriterStep() && taken <= |todo| && !gaveUp
        invariant polls <= patience && waited == old(waited) + patience - polls
        invariant if first then taken == 0 && txQueue == old(txQueue)
                  else Min(|todo|, old(Room())) <= taken < |todo| && !nonblock
        invariant accepted == old(accepted) + todo[..taken] && todo[..taken] == data[..taken]
        decreases |todo| - taken, polls, if 0 < Room() then 0 else 1
      {
        var n, finished, w;
        n, finished, w, polls := WriteTurn(todo[taken..], nonblock, polls);
        TakeMore(todo, taken, n);
        taken := taken + n;
        first := false;
        if finished {
          break;
        }
        match w {
          case Retry =>
          case GiveUp => gaveUp := true; break;
          case Unfinished => return;
        }
      }
      NoStall();
      returned := true;
      rc := if taken > 0 then taken else if nonblock then -EWOULDBLOCK else -EIO;
    }

    // ------------------------------------------------------------------ reading

    /** What a reader does to the state of the device and of the writers. */
    twostate predicate ReaderStep()
      reads this, rxBuf, txBuf
    {
      && Valid()
      && txIn == old(txIn) && timeout == old(timeout)
      && accepted == old(accepted) && txOwed == old(txOwed)
      && |txQueue| <= |old(txQueue)| && HistoryGrows()
    }

    /** memcpy of `n` queued bytes to the caller's buffer, one byte at a time. */
    method CopyOut(dest: array<Byte>, at: nat, n: nat)
      requires Valid() && n <= |rxQueue| && rxOut + n <= BUF_LEN && at + n <= dest.Length
      requires dest != rxBuf && dest != txBuf
      modifies this, rxBuf, dest
      ensures EnvStep() && n <= |rxQueue| && rxOut + n <= BUF_LEN
      ensures dest[..at] == old(dest[..at]) && dest[at..at + n] == rxQueue[..n]
    {
      var i := 0;
      ghost var first := rxQueue[..n];
      while i < n
        invariant i <= n && EnvStep() && n <= |rxQueue| && rxQueue[..n] == first
        invariant forall k | 0 <= k < i :: dest[at + k] == first[k]
        invariant forall k | 0 <= k < at :: dest[k] == old(dest[k])
      {
        Interfere();
        assert rxQueue[i] == first[i];
        dest[at + i] := rxBuf[rxOut + i];
        i := i + 1;
      }
      assert dest[at..at + n] == first;
    }

    /** Retires the `n` oldest queued bytes. */
    method PublishTaken(n: nat)
      requires Valid() && 0 < n <= |rxQueue|
      modifies this`rxOut, this`rxQueue, this`delivered, this`rxOwed
      ensures Valid() && rxOwed && delivered == old(delivered) + old(rxQueue)[..n]
      ensures rxQueue == old(rxQueue)[n..]
    {
      MoveToFirst(arrived, delivered, rxQueue, rxFifo, n);
      AdvanceIsCell(rxOut, n);
      delivered, rxQueue, rxOwed := delivered + rxQueue[..n], rxQueue[n..], true;
      rxOut := Advance(rxOut, n);
    }

    /** The queued bytes in front of a reader, in one contiguous run. */
    method DataSeen() returns (n: nat, in': Index)
      requires Valid()
      modifies this, rxBuf
      ensures EnvStep() && n <= |rxQueue| && rxOut + n <= BUF_LEN
      ensures n == 0 ==> in' == rxOut
      ensures old(rxQueue) != [] ==> n > 0
    {
      in' := rxIn;
      n := DataRun(rxOut, in');
      DataRunIsMaximal(rxOut, in');
      Interfere();
    }

    /** One pass of the reader's inner loop. */
    method TakePass(dest: array<Byte>, at: nat, space: nat) returns (n: nat, in': Index)
      requires Valid() && 0 < space && at + space <= dest.Length && dest != rxBuf && dest != txBuf
      modifies this, rxBuf, dest
      ensures ReaderStep() && n <= space && dest[..at] == old(dest[..at])
      ensures waited == old(waited) && |old(rxQueue)| <= |rxQueue| + n
      ensures delivered == old(delivered) + dest[at..at + n]
      ensures n > 0 ==> rxOwed
      ensures n == 0 ==> rxOwed == old(rxOwed) && rxOut == old(rxOut) && in' == rxOut
      ensures n == 0 ==> old(rxQueue) == [] && dest[..] == old(dest[..])
    {
      hide Holds, Valid;
      n, in' := DataSeen();
      if n == 0 {
        assert dest[at..at + n] == [];
        return;
      }
      if n > space {
        n := space;
      }
      CopyOut(dest, at, n);
      ghost var got := dest[at..at + n];
      InterfereBeforeTake(n);
      PublishTaken(n);
    }

    /** `Interfere`, seen from a reader that has copied the `n` oldest bytes. */
    method InterfereBeforeTake(n: nat)
      requires Valid() && n <= |rxQueue|
      modifies this, rxBuf
      ensures EnvStep() && n <= |rxQueue| && rxQueue[..n] == old(rxQueue[..n])
    {
      hide Holds;
      Interfere();
    }

    /** The reader's inner loop: takes bytes until the queue or the caller's space runs out. */
    method Take(dest: array<Byte>, space: nat) returns (got: nat, in': Index)
      requires Valid() && 0 < space <= dest.Length && dest != rxBuf && dest != txBuf
      modifies this, rxBuf, dest
      ensures ReaderStep() && got <= space && delivered == old(delivered) + dest[..got]
      ensures got > 0 ==> rxOwed
      ensures got == 0 ==> rxOwed == old(rxOwed) && rxOut == old(rxOut) && in' == rxOut
      // All that was queued is taken, if there is space for it.
      ensures waited == old(waited) && Min(space, |old(rxQueue)|) <= got
    {
      hide Holds, Valid;
      got, in' := TakePass(dest, 0, space);
      while 0 < got < space
        invariant ReaderStep() && got <= space && delivered == old(delivered) + dest[..got]
        invariant got > 0 ==> rxOwed
        invariant got == 0 ==> rxOwed == old(rxOwed) && rxOut == old(rxOut) && in' == rxOut
        invariant got == 0 ==> old(rxQueue) == []
        invariant waited == old(waited) && |old(rxQueue)| <= |rxQueue| + got
        decreases space - got
      {
        Interfere();
        var n;
        ghost var before := dest[..got];
        n, in' := TakePass(dest, got, space - got);
        if n == 0 {
          break;
        }
        assert before + dest[got..got + n] == dest[..got + n];
        got := got + n;
      }
    }

    /** The critical section that turns receive interrupts on. */
    method EnableReceive()
      requires Valid()
      modifies this`irqRe, this`devRe, this`rxOwed
      ensures Valid() && devRe && !rxOwed
    {
      hide Holds;
      irqRe := true;
      devRe := irqRe;
      rxOwed := false;
    }

    /** After data was taken there is room again, so receive interrupts are turned back on. */
    method FinishRead(got: nat)
      requires Valid() && (got == 0 ==> !rxOwed)
      modifies this, rxBuf
      ensures ReaderStep() && delivered == old(delivered)
      ensures !rxOwed && (got > 0 ==> devRe)
      ensures got == 0 ==> inactivity == old(inactivity)
    {
      hide Holds, Valid;
      if got > 0 {
        Interfere();
        EnableReceive();
      }
    }

    /** The busy-wait of a reader that has seen the buffer empty, and the check whether any data came.
        It gives up only if the host has been found inactive meanwhile. */
    method AwaitData(in': Index, polls0: nat) returns (w: Wait, polls: nat)
      requires Valid() && in' == rxOut
      modifies this, rxBuf
      ensures WaitStep() && polls <= polls0 && waited == old(waited) + polls0 - polls
      ensures w == Unfinished ==> polls == 0 && rxQueue == [] && hostInactive < timeout
      ensures w == Retry ==> rxQueue != []
      ensures w == GiveUp ==> TimedOutSince(|old(inactivity)| - 1)
    {
      polls := polls0;
      while in' == rxIn && hostInactive < timeout
        invariant WaitStep() && polls <= polls0 && waited == old(waited) + polls0 - polls
        decreases polls
      {
        if polls == 0 {
          return Unfinished, 0;
        }
        polls := polls - 1;
        CountTurn(in' == rxIn && hostInactive < timeout);
        Interfere();
      }
      var came := DataCame(in', |old(inactivity)| - 1);
      w := if came then Retry else GiveUp;
      Interfere();
    }

    /** The check after the wait. */
    method DataCame(in': Index, ghost before: nat) returns (came: bool)
      requires Valid() && in' == rxOut && before < |inactivity|
      requires in' == rxIn ==> timeout <= hostInactive
      modifies this, rxBuf
      ensures EnvStep()
      ensures if came then rxQueue != [] else TimedOutSince(before)
    {
      ghost var k := |inactivity| - 1;
      Interfere();
      assert inactivity[k] == old(inactivity[k]);
      came := in' != rxIn;
    }

    /** The reader's outer loop: waits until at least one byte was taken. */
    method TakeOrWait(dest: array<Byte>, space: nat, nonblock: bool, patience: nat)
      returns (got: nat, finished: bool)
      requires Valid() && 0 < space <= dest.Length && dest != rxBuf && dest != txBuf && !rxOwed
      modifies this, rxBuf, dest
      ensures ReaderStep() && got <= space && delivered == old(delivered) + dest[..got]
      ensures got == 0 ==> !rxOwed
      ensures Min(space, |old(rxQueue)|) <= got
      ensures nonblock || old(rxQueue) != [] ==> finished
      ensures !finished ==> waited == old(waited) + patience && rxQueue == [] && hostInactive < timeout
      ensures finished && got == 0 && !nonblock ==> TimedOutSince(|old(inactivity)| - 1)
    {
      hide Holds, Valid;
      var in', w := 0, Retry;
      var polls: nat := patience;
      got, in' := Take(dest, space);
      while got == 0 && !nonblock
        invariant ReaderStep() && got <= space && delivered == old(delivered) + dest[..got]
        invariant got == 0 ==> !rxOwed && old(rxQueue) == [] && in' == rxOut
        invariant Min(space, |old(rxQueue)|) <= got
        invariant w == Retry && polls <= patience && waited == old(waited) + patience - polls
        decreases got == 0, polls
      {
        w, polls := AwaitData(in', polls);
        if w != Retry {
          break;
        }
        got, in' := Take(dest, space);
      }
      finished := w != Unfinished;
    }

    /** altera_avalon_jtag_uart_read.  At most `space` bytes go to `dest`; `got` is how many did.
        The call is followed for `patience` steps of its waiting loop, as `Write` is. */
    method Read(dest: array<Byte>, space: int, nonblock: bool, patience: nat)
      returns (rc: int, returned: bool, got: nat)
      requires Valid() && space <= dest.Length && dest != rxBuf && dest != txBuf && !rxOwed
      modifies this, rxBuf, dest
      ensures ReaderStep()
      // The bytes handed over are the next ones of the stream, and all that left it ...
      ensures got <= dest.Length && delivered == old(delivered) + dest[..got]
      ensures got <= space || (space < 0 && got == 0)
      // ... and the return value is their number, or says why there are none.
      ensures returned ==> rc == if got > 0 then got
                                 else if nonblock then -EWOULDBLOCK else -EIO
      // What was waiting is handed over at once, as far as there is space, and then the call need not
      // wait.
      ensures 0 <= space ==> Min(space, |old(rxQueue)|) <= got
      ensures nonblock || old(rxQueue) != [] || space <= 0 ==> returned
      ensures !returned ==> waited == old(waited) + patience && rxQueue == [] && hostInactive < timeout
      // A blocking call comes back empty only if the host was found inactive during the call.
      ensures returned && got == 0 && space > 0 && !nonblock ==> TimedOutSince(|old(inactivity)| - 1)
      // A call that has returned has turned receive interrupts back on if it made room.
      ensures returned ==> !rxOwed && (got > 0 ==> devRe)
    {
      hide Holds, Valid;
      rc, returned, got := 0, true, 0;
      if space > 0 {
        got, returned := TakeOrWait(dest, space, nonblock, patience);
      }
      if !returned {
        return;
      }
      FinishRead(got);
      rc := if got > 0 then got else if nonblock then -EWOULDBLOCK else -EIO;
    }

    /** altera_avalon_jtag_uart_close: waits until the transmit buffer is empty. */
    method Close(nonblock: bool, patience: nat) returns (rc: int, returned: bool)
      requires Valid()
      modifies this, rxBuf
      ensures WaitStep()
      ensures returned ==> rc == 0 || (nonblock && rc == -EWOULDBLOCK)
      // It is refused only while there is something to wait for, and waits only then.
      ensures returned && rc != 0 ==> txQueue != [] && hostInactive < timeout
      ensures nonblock || old(txQueue) == [] || timeout <= old(hostInactive) ==> returned
      ensures !returned ==> waited == old(waited) + patience && txQueue != [] && hostInactive < timeout
      // Success means that the device has everything, unless the host is gone.
      ensures returned && rc == 0 ==> accepted == drained + txFifo || hostInactive >= timeout
    {
      var polls: nat := patience;
      while txOut != txIn && hostInactive < timeout
        invariant WaitStep() && polls <= patience && waited == old(waited) + patience - polls
        invariant txQueue != [] ==> old(txQueue) != []
        invariant (nonblock || old(txQueue) == [] || timeout <= old(hostInactive) ==>
                     polls == patience && txQueue == old(txQueue) && hostInactive == old(hostInactive))
        decreases polls
      {
        if nonblock {
          return -EWOULDBLOCK, true;
        }
        if polls == 0 {
          return 0, false;
        }
        polls := polls - 1;
        CountTurn(txOut != txIn && hostInactive < timeout);
        Interfere();
      }
      assert txOut == txIn ==> txQueue == [];
      return 0, true;
    }
  }
}
