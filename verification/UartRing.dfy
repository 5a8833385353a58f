/** The transmit ring of driver/omap-serial.c, emptied by interrupts or by DMA. */
module UartRing {
  import opened CText

  /** `UART_XMIT_SIZE`, a power of two: `x & (UART_XMIT_SIZE - 1)` is the remainder. */
  const SIZE: nat := 4096

  // ----- the line the ring stands for -----

  /** The mode of the port, the bytes put in the ring so far, how many of them have been sent, and the
      transfer under way. */
  datatype Line = Line(dma: bool, put: Text, sent: nat, size: nat, busy: bool)

  predicate Sound(l: Line) {
    && l.sent <= |l.put| < l.sent + SIZE
    && (l.busy ==> l.dma && l.size <= Chunk(l))
  }

  /** What one transfer can take: the bytes waiting, up to the end of the buffer. */
  function Chunk(l: Line): nat
    requires l.sent <= |l.put|
  {
    Min(|l.put| - l.sent, SIZE - l.sent % SIZE)
  }

  /** A character handed to the ring; it is refused when only one slot is left. */
  function OnPut(l: Line, c: Byte): Line
    requires Sound(l)
  {
    if |l.put| - l.sent < SIZE - 1 then l.(put := l.put + [c]) else l
  }

  /** A transmit interrupt: at least one byte, at most a quarter of the FIFO. */
  function OnInterrupt(l: Line, fifosize: nat, stopped: bool): Line
    requires Sound(l) && !l.dma
  {
    if stopped then l
    else l.(sent := Min(|l.put|, l.sent + if fifosize / 4 > 1 then fifosize / 4 else 1))
  }

  /** A stopped port sends nothing; otherwise an interrupt sends all that waits, or a quarter of the
      FIFO if that is less, but at least one byte if any waits. */
  lemma InterruptSends(l: Line, fifosize: nat, stopped: bool)
    requires Sound(l) && !l.dma
    ensures var (r, waiting, quarter) := (OnInterrupt(l, fifosize, stopped), |l.put| - l.sent, fifosize / 4);
      && r == l.(sent := r.sent) && (stopped || waiting == 0 ==> r.sent == l.sent)
      && (!stopped && waiting > 0 ==>
           r.sent - l.sent == if quarter == 0 then 1 else if quarter < waiting then quarter else waiting)
  {
  }

  function OnStart(l: Line): Line
    requires Sound(l) && l.dma
  {
    if l.busy then l else l.(size := Chunk(l), busy := true)
  }

  /** The transfer is complete. */
  function OnDone(l: Line): Line
    requires Sound(l) && l.busy
  {
    var m := l.(sent := l.sent + l.size);
    if m.sent == |m.put| then m.(busy := false) else m.(size := Chunk(m))
  }

  datatype Event = Put(c: Byte) | Interrupt(stopped: bool) | Start | Done

  /** One event of a port in PIO or DMA mode; an interrupt only sends in PIO mode, and a transfer
      ends only if one is under way. */
  function Step(l: Line, fifosize: nat, ev: Event): Line
    requires Sound(l)
  {
    match ev
    case Put(c) => OnPut(l, c)
    case Interrupt(stopped) => if l.dma then l else OnInterrupt(l, fifosize, stopped)
    case Start => if l.dma then OnStart(l) else l
    case Done => if l.busy then OnDone(l) else l
  }

  lemma StepSound(l: Line, fifosize: nat, ev: Event)
    requires Sound(l)
    ensures Sound(Step(l, fifosize, ev))
    ensures l.put <= Step(l, fifosize, ev).put && l.sent <= Step(l, fifosize, ev).sent
  {
  }

  /** A run of the port from an empty ring. */
  function Run(dma: bool, fifosize: nat, es: seq<Event>): (l: Line)
    ensures Sound(l) && l.dma == dma
    decreases |es|
  {
    if es == [] then Line(dma, [], 0, 0, false)
    else
      var l := Run(dma, fifosize, es[..|es| - 1]);
      StepSound(l, fifosize, es[|es| - 1]);
      Step(l, fifosize, es[|es| - 1])
  }

  /** A transfer that was started when the ring was drained so far ends with the ring empty or with a
      second transfer that empties it, however the bytes lie around the end of the buffer. */
  lemma TwoTransfersDrain(l: Line)
    requires Sound(l) && l.dma && !l.busy && l.sent < |l.put|
    ensures var m := OnDone(OnStart(l));
      m.sent > l.sent && Sound(m)
      && (if m.sent == |m.put| then !m.busy else m.busy && OnDone(m).sent == |l.put| && !OnDone(m).busy)
  {
  }

  /** In PIO mode every interrupt makes progress until nothing waits. */
  lemma {:induction false} InterruptsDrain(l: Line, fifosize: nat, n: nat)
    requires Sound(l) && !l.dma && n >= |l.put| - l.sent
    ensures Interrupts(l, fifosize, n) == l.(sent := |l.put|)
    decreases n
  {
    if n > 0 {
      InterruptsDrain(OnInterrupt(l, fifosize, false), fifosize, n - 1);
    }
  }

  function Interrupts(l: Line, fifosize: nat, n: nat): Line
    requires Sound(l) && !l.dma
    decreases n
  {
    if n == 0 then l else Interrupts(OnInterrupt(l, fifosize, false), fifosize, n - 1)
  }

  // ----- the ring -----

  /** `uart_circ_chars_pending`. */
  function CharsPending(head: nat, tail: nat): nat {
    (head - tail) % SIZE
  }

  /** Where the k-th byte put in the ring lies. */
  function Slot(k: nat): nat {
    k % SIZE
  }

  /** Every byte that waits lies in its slot. */
  ghost predicate Kept(x: Text, put: Text, sent: nat) {
    |x| == SIZE && forall k {:trigger Slot(k)} :: sent <= k < |put| ==> x[Slot(k)] == put[k]
  }

  lemma KeptMore(x: Text, put: Text, sent: nat, c: Byte)
    requires Kept(x, put, sent) && sent <= |put| < sent + SIZE - 1
    ensures Kept(x[Slot(|put|) := c], put + [c], sent)
  {
    var (y, q) := (x[Slot(|put|) := c], put + [c]);
    forall k {:trigger Slot(k)} | sent <= k < |q| ensures y[Slot(k)] == q[k] {
      if k < |put| { SlotsDiffer(k, |put|); }
    }
  }

  lemma SlotsDiffer(j: nat, k: nat)
    requires j < k < j + SIZE
    ensures Slot(j) != Slot(k)
  {
  }

  lemma KeptFewer(x: Text, put: Text, sent: nat, more: nat)
    requires Kept(x, put, sent) && sent <= more
    ensures Kept(x, put, more)
  {
  }

  lemma KeptAt(x: Text, put: Text, sent: nat, k: nat)
    requires Kept(x, put, sent) && sent <= k < |put|
    ensures x[Slot(k)] == put[k]
  {
  }

  lemma SlotBehind(k: nat, i: nat)
    requires k % SIZE + i < SIZE
    ensures Slot(k + i) == k % SIZE + i
  {
  }

  lemma SlotMoved(k: nat, i: nat)
    ensures (k % SIZE + i) % SIZE == (k + i) % SIZE
  {
  }

  lemma PendingCounts(put: nat, sent: nat)
    requires sent <= put < sent + SIZE
    ensures CharsPending(put % SIZE, sent % SIZE) == put - sent
    ensures put % SIZE == sent % SIZE <==> put == sent
  {
  }

  lemma SpaceLeft(put: nat, sent: nat)
    requires sent <= put < sent + SIZE
    ensures (sent % SIZE - (put % SIZE + 1)) % SIZE == SIZE - 1 - (put - sent)
    ensures (put % SIZE + 1) % SIZE == (put + 1) % SIZE
  {
  }

  class OmapPort {
    const useDma: bool
    const fifosize: nat
    const txBufDmaPhys: nat
    const buf: array<Byte>
    var head: nat
    var tail: nat
    var txBufSize: nat
    var txDmaUsed: bool
    var channelFree: bool
    ghost var put: Text         // every byte put in the ring
    ghost var sent: Text        // every byte written to UART_TX or completed by DMA
    ghost var inFlight: Text    // the bytes under the transfer when it was started

    ghost function Now(): Line
      reads this
    {
      Line(useDma, put, |sent|, txBufSize, txDmaUsed)
    }

    /** The ring holds what was put and not yet sent; what was sent is a prefix of what was put. */
    ghost predicate Valid()
      reads this, buf
    {
      && Ringed() && Sound(Now())
      && (txDmaUsed ==> tail + txBufSize <= SIZE && inFlight == buf[tail..tail + txBufSize])
    }

    ghost predicate Ringed()
      reads this, buf
    {
      && buf.Length == SIZE && sent <= put && |put| < |sent| + SIZE
      && head == |put| % SIZE && tail == |sent| % SIZE
      && Kept(buf[..], put, |sent|)
    }

    constructor (useDma: bool, fifosize: nat, txBufDmaPhys: nat)
      ensures Valid() && Now() == Line(useDma, [], 0, 0, false) && fresh(buf)
      ensures this.useDma == useDma && this.fifosize == fifosize
    {
      this.useDma, this.fifosize, this.txBufDmaPhys := useDma, fifosize, txBufDmaPhys;
      buf := new Byte[SIZE];
      head, tail, txBufSize, txDmaUsed, channelFree := 0, 0, 0, false, true;
      put, sent, inFlight := [], [], [];
    }

    /** The bytes waiting do not move while others are put behind them. */
    lemma InFlightWaits(k: nat)
      requires Valid() && txDmaUsed && k < txBufSize
      ensures |sent| + k < |put| && inFlight[k] == put[|sent| + k] == buf[tail + k]
    {
      hide Kept;
      SlotBehind(|sent|, k);
      KeptAt(buf[..], put, |sent|, |sent| + k);
      assert inFlight[k] == buf[tail..tail + txBufSize][k];
    }

    /** The slot to be written next is not under the transfer. */
    lemma InFlightApart(c: Byte)
      requires Valid() && |put| < |sent| + SIZE - 1 && txDmaUsed
      ensures buf[..][head := c][tail..tail + txBufSize] == inFlight
    {
      assert head < tail || head >= tail + txBufSize;
    }

    /** The serial core putting one character. */
    method PutChar(c: Byte) returns (ok: bool)
      requires Valid()
      modifies this`head, this`put, buf
      ensures Valid() && Now() == OnPut(old(Now()), c)
      ensures (ok <==> |old(put)| - |sent| < 4095) && put == if ok then old(put) + [c] else old(put)
    {
      hide Kept;
      SpaceLeft(|put|, |sent|);
      if (tail - (head + 1)) % SIZE == 0 { return false; }
      KeptMore(buf[..], put, |sent|, c);
      if txDmaUsed { InFlightApart(c); }
      ghost var x := buf[..];
      buf[head] := c;
      assert buf[..] == x[head := c];
      head := (head + 1) % SIZE;
      put := put + [c];
      ok := true;
    }

    /** Writes the byte at the tail to the transmit register. */
    method SendOne()
      requires Valid() && !txDmaUsed && |sent| < |put|
      modifies this`tail, this`sent
      ensures Valid() && Now() == old(Now()).(sent := |old(sent)| + 1)
    {
      hide Kept;
      KeptAt(buf[..], put, |sent|, |sent|);
      SlotMoved(|sent|, 1);
      KeptFewer(buf[..], put, |sent|, |sent| + 1);
      PrefixMore(sent, put);
      sent := sent + [buf[tail]];
      tail := (tail + 1) % SIZE;
    }

    /** `transmit_chars`, with no x_char pending. */
    method TransmitChars(stopped: bool)
      requires Valid() && !useDma
      modifies this`tail, this`sent
      ensures Valid() && Now() == OnInterrupt(old(Now()), fifosize, stopped)
      ensures stopped ==> sent == old(sent)
      ensures var (waiting, quarter) := (|put| - |old(sent)|, fifosize / 4);
        !stopped && waiting > 0 ==>
          |sent| - |old(sent)| == if quarter == 0 then 1 else if quarter < waiting then quarter else waiting
    {
      hide Kept;
      PendingCounts(|put|, |sent|);
      if head == tail || stopped { return; }
      var count: int := fifosize / 4;
      ghost var n := 0;
      while true
        invariant Valid() && Now() == old(Now()).(sent := |old(sent)| + n)
        invariant count == fifosize / 4 - n && n < |put| - |old(sent)| && (n > 0 ==> count > 0)
        decreases |put| - |sent|
      {
        SendOne();
        n := n + 1;
        PendingCounts(|put|, |sent|);
        if head == tail { break; }
        count := count - 1;
        if count <= 0 { break; }
      }
    }

    /** The common part of `serial_omap_start_tx` and `serial_omap_continue_tx`: the transfer stops at
        the end of the buffer. */
    method SetUpTransfer()
      requires Ringed()
      modifies this`txBufSize, this`inFlight
      ensures txBufSize == Min(|put| - |sent|, SIZE - |sent| % SIZE)
      ensures tail + txBufSize <= SIZE && inFlight == buf[tail..tail + txBufSize]
    {
      hide Kept;
      PendingCounts(|put|, |sent|);
      var start := txBufDmaPhys + tail % SIZE;
      txBufSize := CharsPending(head, tail);
      if start + txBufSize >= txBufDmaPhys + SIZE {
        txBufSize := txBufDmaPhys + SIZE - start;
      }
      inFlight := buf[tail..tail + txBufSize];
    }

    /** `serial_omap_start_tx`, with DMA requests succeeding. */
    method StartTx()
      requires Valid()
      modifies this`txDmaUsed, this`channelFree, this`txBufSize, this`inFlight
      ensures Valid() && Now() == if useDma then OnStart(old(Now())) else old(Now())
    {
      hide Kept;
      if !useDma { return; }
      if txDmaUsed { return; }
      if channelFree { channelFree := false; }
      txDmaUsed := true;
      SetUpTransfer();
    }

    /** The bytes of a completed transfer are the next ones of the put sequence. */
    lemma Completed()
      requires Valid() && txDmaUsed
      ensures |inFlight| == txBufSize && |sent| + txBufSize <= |put| && sent + inFlight <= put
      ensures Kept(buf[..], put, |sent| + txBufSize)
    {
      KeptFewer(buf[..], put, |sent|, |sent| + txBufSize);
      forall k | 0 <= k < txBufSize ensures inFlight[k] == put[|sent| + k] {
        InFlightWaits(k);
      }
      hide Kept;
      PrefixJoin(sent, inFlight, put);
    }

    /** Moves the tail past the bytes of the finished transfer, around the end of the buffer. */
    method CompleteTransfer()
      requires Valid() && txDmaUsed
      modifies this`tail, this`sent
      ensures Ringed() && sent == old(sent) + inFlight && |inFlight| == txBufSize
    {
      hide Kept, Sound;
      Completed();
      SlotMoved(|sent|, txBufSize);
      sent := sent + inFlight;
      tail := (tail + txBufSize) % SIZE;
    }

    /** `uart_tx_dma_callback`; active says whether the channel is still seen active. */
    method TxDmaCallback(active: bool)
      requires Valid() && txDmaUsed
      modifies this`tail, this`sent, this`txDmaUsed, this`channelFree, this`txBufSize, this`inFlight
      ensures Valid() && Now() == OnDone(old(Now()))
      ensures sent == old(sent) + old(inFlight)
    {
      hide Kept;
      CompleteTransfer();
      assert |sent| == old(|sent|) + txBufSize;
      PendingCounts(|put|, |sent|);
      if head == tail {
        if !channelFree && !active { channelFree := true; }
        txDmaUsed := false;
      } else {
        SetUpTransfer();
      }
    }

    /** One event; a transfer can only end while one is under way, and a port in DMA mode does not
        transmit from the interrupt. */
    method Handle(ev: Event, active: bool)
      requires Valid()
      modifies this, buf
      ensures Valid() && Now() == Step(old(Now()), fifosize, ev)
    {
      hide Kept;
      match ev {
        case Put(c) => var ok := PutChar(c);
        case Interrupt(stopped) => if !useDma { TransmitChars(stopped); }
        case Start => StartTx();
        case Done => if txDmaUsed { TxDmaCallback(active); }
      }
    }
  }

  /** Every run of a port, in either mode: what was sent is a prefix of what was put, and the tail
      never passes the head. */
  method RunPort(useDma: bool, fifosize: nat, es: seq<Event>, active: seq<bool>) returns (port: OmapPort)
    requires |active| == |es|
    ensures fresh(port) && port.Valid() && port.Now() == Run(useDma, fifosize, es)
    ensures port.sent <= port.put && CharsPending(port.head, port.tail) == |port.put| - |port.sent|
  {
    hide Kept, Step;
    port := new OmapPort(useDma, fifosize, 0);
    var i := 0;
    while i < |es|
      invariant 0 <= i <= |es| && port.Valid() && port.useDma == useDma && port.fifosize == fifosize
      invariant fresh(port) && fresh(port.buf)
      invariant port.Now() == Run(useDma, fifosize, es[..i])
    {
      assert es[..i + 1][..i] == es[..i];
      port.Handle(es[i], active[i]);
      i := i + 1;
    }
    assert es[..i] == es;
    PendingCounts(|port.put|, |port.sent|);
  }

  lemma PrefixJoin(s: Text, f: Text, t: Text)
    requires s <= t && |s| + |f| <= |t| && forall k :: 0 <= k < |f| ==> f[k] == t[|s| + k]
    ensures s + f <= t
  {
    assert t[..|s| + |f|] == s + f;
  }

  lemma PrefixMore(s: Text, t: Text)
    requires s <= t && |s| < |t|
    ensures s + [t[|s|]] <= t
  {
  }
}
