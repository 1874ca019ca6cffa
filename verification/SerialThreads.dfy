/**
 * Both halves of the serial stream together (USBSerialStream.cpp, WANDongleSerialPort.cpp). One USB thread runs the
 * handlers of both directions, one after the other (USBHost/USBHost/USBHost.cpp): as long as the receiving callback
 * holds it, no packet that was sent is finished.
 */
module SerialThreads {
  import opened Bytes
  import opened SerialSpec

  datatype Sys = Sys(tx: Tx, rx: Rx)

  /** The user steps of the two halves may be those of one thread or of two. */
  datatype Step = OfTx(t: TxStep) | OfRx(r: RxStep)

  const SYS_START := Sys(TX_START, RX_START)

  predicate Enabled(y: Sys, s: Step) {
    match s
    case OfTx(t) => TxEnabled(y.tx, t) && (t == Complete ==> y.rx.runner != UsbThread)
    case OfRx(r) => RxEnabled(y.rx, r)
  }

  function Next(y: Sys, s: Step, max: nat): Sys
    requires Enabled(y, s)
  {
    match s
    case OfTx(t) => y.(tx := TxNext(y.tx, t, max))
    case OfRx(r) => y.(rx := RxNext(y.rx, r))
  }

  function After(y: Sys, s: Step, max: nat): Sys {
    if Enabled(y, s) then Next(y, s, max) else y
  }

  function SysRun(y: Sys, ss: seq<Step>, max: nat): Sys
    decreases |ss|
  {
    if ss == [] then y else SysRun(After(y, ss[0], max), ss[1..], max)
  }

  predicate SysInv(y: Sys, max: nat) {
    TxInv(y.tx, max) && RxInv(y.rx)
  }

  lemma AfterKeeps(y: Sys, s: Step, max: nat)
    requires SysInv(y, max)
    ensures SysInv(After(y, s, max), max)
  {
    hide TxInv, RxInv, TxNext, RxNext, TxEnabled, RxEnabled;
    if Enabled(y, s) {
      match s
      case OfTx(t) => TxKeeps(y.tx, t, max);
      case OfRx(r) => RxKeeps(y.rx, r);
    }
  }

  /** Both invariants hold over every interleaving of the threads. */
  lemma {:induction false} SysRunKeeps(y: Sys, ss: seq<Step>, max: nat)
    requires SysInv(y, max)
    ensures SysInv(SysRun(y, ss, max), max)
    decreases |ss|
  {
    hide SysInv, After;
    if ss != [] {
      AfterKeeps(y, ss[0], max);
      SysRunKeeps(After(y, ss[0], max), ss[1..], max);
    }
  }

  lemma {:induction false} SysRunConcat(y: Sys, a: seq<Step>, b: seq<Step>, max: nat)
    ensures SysRun(y, a + b, max) == SysRun(SysRun(y, a, max), b, max)
    decreases |a|
  {
    hide After;
    if a == [] {
      assert a + b == b;
    } else {
      assert (a + b)[1..] == a[1..] + b;
      SysRunConcat(After(y, a[0], max), a[1..], b, max);
    }
  }

  // ----- runs of one half -----

  function Rxs(rs: seq<RxStep>): seq<Step> {
    seq(|rs|, i requires 0 <= i < |rs| => OfRx(rs[i]))
  }

  function Txs(ts: seq<TxStep>): seq<Step> {
    seq(|ts|, i requires 0 <= i < |ts| => OfTx(ts[i]))
  }

  lemma {:induction false} RunsRx(y: Sys, rs: seq<RxStep>, max: nat)
    ensures SysRun(y, Rxs(rs), max) == y.(rx := RxRun(y.rx, rs))
    decreases |rs|
  {
    hide RxNext, RxEnabled;
    if rs != [] {
      assert Rxs(rs)[0] == OfRx(rs[0]) && Rxs(rs)[1..] == Rxs(rs[1..]);
      RunsRx(After(y, OfRx(rs[0]), max), rs[1..], max);
    }
  }

  lemma {:induction false} RunsTx(y: Sys, ts: seq<TxStep>, max: nat)
    requires y.rx.runner == UsbThread ==> Complete !in ts
    ensures SysRun(y, Txs(ts), max) == y.(tx := TxRun(y.tx, ts, max))
    decreases |ts|
  {
    hide TxNext, TxEnabled;
    if ts != [] {
      assert Txs(ts)[0] == OfTx(ts[0]) && Txs(ts)[1..] == Txs(ts[1..]);
      RunsTx(After(y, OfTx(ts[0]), max), ts[1..], max);
    }
  }

  // ----- what the sender needs of the receiver -----

  /** Nothing is read meanwhile. */
  predicate NoRead(ss: seq<Step>) {
    forall s :: s in ss ==> s != OfRx(Dequeue)
  }

  lemma NoReadTail(ss: seq<Step>)
    requires NoRead(ss) && ss != []
    ensures NoRead(ss[1..])
  {
    assert forall s :: s in ss[1..] ==> s in ss;
  }

  /** The USB thread is inside the callback with a packet larger than the room. */
  predicate Blocked(r: Rx) {
    r.runner == UsbThread && !HasRoom(r)
  }

  lemma BlockedStep(y: Sys, s: Step, max: nat)
    requires RxInv(y.rx) && Blocked(y.rx) && s != OfRx(Dequeue)
    ensures var y' := After(y, s, max);
      RxInv(y'.rx) && Blocked(y'.rx) && y'.tx.completed == y.tx.completed
  {
    match s
    case OfTx(t) => hide RxInv, HasRoom;
    case OfRx(r) => if RxEnabled(y.rx, r) { RxKeeps(y.rx, r); }
  }

  /** As long as nothing is read, a blocked USB thread stays blocked and finishes no packet, whatever the user
      threads do. */
  lemma {:induction false} BlockedTillRead(y: Sys, ss: seq<Step>, max: nat)
    requires RxInv(y.rx) && Blocked(y.rx) && NoRead(ss)
    ensures var y' := SysRun(y, ss, max); Blocked(y'.rx) && y'.tx.completed == y.tx.completed
    decreases |ss|
  {
    hide After, RxInv, Blocked;
    if ss != [] {
      assert ss[0] in ss;
      BlockedStep(y, ss[0], max);
      NoReadTail(ss);
      BlockedTillRead(After(y, ss[0], max), ss[1..], max);
    }
  }

  /** The steps by which the user thread leaves write() or space(). */
  function Leave(t: Tx): seq<TxStep> {
    match t.phase
    case Outside => []
    case Filling => [Kick, Enable]
    case _ => [Enable]
  }

  lemma Leaves(t: Tx, max: nat)
    requires TxInv(t, max)
    ensures var t' := TxRun(t, Leave(t), max); TxInv(t', max) && t'.phase == Outside && t'.written == t.written
  {
    TxRunKeeps(t, Leave(t), max);
    hide TxInv;
    if t.phase == Filling {
      assert [Kick, Enable][1..] == [Enable] && [Enable][1..] == [];
    } else if t.phase != Outside {
      assert [Enable][1..] == [];
    }
  }

  function Completes(n: nat): (ts: seq<TxStep>)
    ensures |ts| == n && forall t :: t in ts ==> t == Complete
  {
    if n == 0 then [] else [Complete] + Completes(n - 1)
  }

  lemma {:induction false} DrainRuns(t: Tx, n: nat, max: nat)
    ensures TxRun(t, Completes(n), max) == Drain(t, n, max)
    decreases n
  {
    hide TxNext, TxEnabled;
    if n > 0 {
      assert Completes(n)[1..] == Completes(n - 1);
      DrainRuns(if TxEnabled(t, Complete) then TxNext(t, Complete, max) else t, n - 1, max);
      if !TxEnabled(t, Complete) { DrainEnds(t, n - 1, max); }
    }
  }

  lemma DrainEnds(t: Tx, n: nat, max: nat)
    requires !TxEnabled(t, Complete)
    ensures Drain(t, n, max) == t
  {
  }

  /** The steps by which the USB thread gets out of the callback. */
  function Freeing(r: Rx): seq<RxStep> {
    if r.runner == UsbThread then Unpack(|r.bufIn|) else []
  }

  lemma {:induction false} UnpackReadsNothing(n: nat)
    ensures Dequeue !in Unpack(n)
  {
    if n > 0 { UnpackReadsNothing(n - 1); }
  }

  lemma Frees(r: Rx)
    requires RxInv(r) && !Blocked(r)
    ensures Dequeue !in Freeing(r) && RxRun(r, Freeing(r)).runner != UsbThread
  {
    if r.runner == UsbThread {
      UnpackReadsNothing(|r.bufIn|);
      RoomSuffices(r, |r.bufIn|);
    }
  }

  /** From a state with a USB thread that is not blocked: all steps to the last finished packet. */
  lemma Draining(y: Sys, max: nat) returns (ss: seq<Step>)
    requires SysInv(y, max) && !Blocked(y.rx)
    ensures NoRead(ss) && SysRun(y, ss, max).tx.completed == y.tx.written && SysRun(y, ss, max).tx.ring == []
  {
    hide TxInv, RxInv, TxRun, RxRun, SysRun, Leave, Freeing, Drain;
    Frees(y.rx);
    RunsRx(y, Freeing(y.rx), max);
    var y1 := SysRun(y, Rxs(Freeing(y.rx)), max);
    Leaves(y.tx, max);
    RunsTx(y1, Leave(y.tx), max);
    var t2 := TxRun(y.tx, Leave(y.tx), max);
    var n := |t2.ring| + 1;
    RunsTx(y1.(tx := t2), Completes(n), max);
    DrainRuns(t2, n, max);
    DrainsCompletely(t2, n, max);
    ss := Rxs(Freeing(y.rx)) + Txs(Leave(y.tx)) + Txs(Completes(n));
    SysRunConcat(y, Rxs(Freeing(y.rx)), Txs(Leave(y.tx)), max);
    SysRunConcat(y, Rxs(Freeing(y.rx)) + Txs(Leave(y.tx)), Txs(Completes(n)), max);
  }

  /** Without a read, the port sends all that write() has taken exactly if that has happened already, or the USB
      thread is not blocked. */
  lemma DrainsIff(y: Sys, max: nat)
    requires SysInv(y, max)
    ensures (exists ss :: NoRead(ss) && y.tx.written <= SysRun(y, ss, max).tx.completed) <==>
              y.tx.completed == y.tx.written || !Blocked(y.rx)
  {
    if !Blocked(y.rx) {
      var ss := Draining(y, max);
    } else if y.tx.completed == y.tx.written {
      assert NoRead([]) && SysRun(y, [], max) == y;
    } else {
      forall ss | NoRead(ss) ensures !(y.tx.written <= SysRun(y, ss, max).tx.completed) {
        BlockedTillRead(y, ss, max);
        assert y.tx.completed <= y.tx.written;
      }
    }
  }

  /** write() waits for space on a full ring: without a read, space appears exactly if the USB thread is not
      blocked. */
  lemma SpaceAppearsIff(y: Sys, max: nat)
    requires SysInv(y, max) && y.tx.phase == Outside && |y.tx.ring| == CIRCBUF_SIZE
    ensures (exists ss :: NoRead(ss) && |SysRun(y, ss, max).tx.ring| < CIRCBUF_SIZE) <==> !Blocked(y.rx)
  {
    if !Blocked(y.rx) {
      var ss := Draining(y, max);
    } else {
      forall ss | NoRead(ss) ensures |SysRun(y, ss, max).tx.ring| >= CIRCBUF_SIZE { RingStaysFull(y, ss, max); }
    }
  }

  lemma FullStep(y: Sys, s: Step, max: nat)
    requires SysInv(y, max) && Blocked(y.rx) && s != OfRx(Dequeue) && y.tx.lock && |y.tx.ring| == CIRCBUF_SIZE
    ensures var y' := After(y, s, max); y'.tx.lock && y'.tx.ring == y.tx.ring
  {
    hide RxInv, HasRoom, RxNext, RxEnabled;
  }

  lemma {:induction false} RingStaysFull(y: Sys, ss: seq<Step>, max: nat)
    requires SysInv(y, max) && Blocked(y.rx) && NoRead(ss) && y.tx.lock && |y.tx.ring| == CIRCBUF_SIZE
    ensures SysRun(y, ss, max).tx.ring == y.tx.ring
    decreases |ss|
  {
    hide After, TxInv, RxInv, Blocked;
    if ss != [] {
      assert ss[0] in ss;
      FullStep(y, ss[0], max);
      BlockedStep(y, ss[0], max);
      AfterKeeps(y, ss[0], max);
      NoReadTail(ss);
      RingStaysFull(After(y, ss[0], max), ss[1..], max);
    }
  }

  // ----- the deadlock of write() against a full receive ring -----

  /** One pass of write() that takes n zero bytes. */
  function Zeros(n: nat): seq<TxStep> {
    if n == 0 then [] else [Enqueue(0)] + Zeros(n - 1)
  }

  lemma {:induction false} ZerosTaken(t: Tx, n: nat, max: nat)
    requires TxInv(t, max) && t.phase == Filling && |t.ring| + n <= CIRCBUF_SIZE
    ensures var t' := TxRun(t, Zeros(n), max);
      && TxInv(t', max) && t'.phase == Filling && |t'.ring| == |t.ring| + n
      && t'.lock == t.lock && t'.fifoEmpty == t.fifoEmpty && t'.pending == t.pending && t'.bufOut == t.bufOut
    decreases n
  {
    if n > 0 {
      TxKeeps(t, Enqueue(0), max);
      assert Zeros(n)[1..] == Zeros(n - 1);
      hide TxInv;
      ZerosTaken(TxNext(t, Enqueue(0), max), n - 1, max);
    }
  }

  lemma {:induction false} TxRunConcat(t: Tx, a: seq<TxStep>, b: seq<TxStep>, max: nat)
    ensures TxRun(t, a + b, max) == TxRun(TxRun(t, a, max), b, max)
    decreases |a|
  {
    hide TxNext, TxEnabled;
    if a == [] {
      assert a + b == b;
    } else {
      assert (a + b)[1..] == a[1..] + b;
      TxRunConcat(if TxEnabled(t, a[0]) then TxNext(t, a[0], max) else t, a[1..], b, max);
    }
  }

  /** The pass: the callback disabled, n bytes queued, a packet started if none is under way, the callback enabled. */
  function Pass(n: nat): seq<TxStep> {
    [Disable] + Zeros(n) + [Kick, Enable]
  }

  lemma PassTaken(t: Tx, n: nat, max: nat)
    requires TxInv(t, max) && t.phase == Outside && 0 < n && |t.ring| + n <= CIRCBUF_SIZE
    requires !t.lock ==> t.ring == []
    ensures var t' := TxRun(t, Pass(n), max);
      && TxInv(t', max) && t'.phase == Outside && t'.lock
      && |t'.ring| == if t.lock then |t.ring| + n else n - Min(max, n)
  {
    var a, b := [Disable] + Zeros(n), [Kick, Enable];
    var t1 := TxNext(t, Disable, max);
    TxKeeps(t, Disable, max);
    assert a[1..] == Zeros(n);
    ZerosTaken(t1, n, max);
    var t2 := TxRun(t1, Zeros(n), max);
    TxRunConcat(t, a, b, max);
    KickAndEnable(t2, max);
  }

  lemma KickAndEnable(t: Tx, max: nat)
    requires TxInv(t, max) && t.phase == Filling && t.ring != [] && !t.pending
    ensures var t' := TxRun(t, [Kick, Enable], max);
      && TxInv(t', max) && t'.phase == Outside && t'.lock
      && |t'.ring| == if t.lock then |t.ring| else |t.ring| - Min(max, |t.ring|)
  {
    TxRunKeeps(t, [Kick, Enable], max);
    assert [Kick, Enable][1..] == [Enable] && [Enable][1..] == [];
    var t1 := TxNext(t, Kick, max);
    assert TxRun(t, [Kick, Enable], max) == TxRun(TxNext(t1, Enable, max), [], max);
  }

  /** Two passes of write() fill the packet and the ring. */
  function FillOut(max: nat): seq<TxStep> {
    Pass(CIRCBUF_SIZE) + Pass(max)
  }

  lemma {:induction false} ZerosCompleteNothing(n: nat)
    ensures Complete !in Zeros(n)
  {
    if n > 0 { ZerosCompleteNothing(n - 1); }
  }

  lemma FillsOut(max: nat)
    requires 1 <= max <= PACKET_SIZE
    ensures var t := TxRun(TX_START, FillOut(max), max);
      t.phase == Outside && t.lock && |t.ring| == CIRCBUF_SIZE && Complete !in FillOut(max)
  {
    ZerosCompleteNothing(CIRCBUF_SIZE);
    ZerosCompleteNothing(max);
    hide TxRun, TxInv, Zeros;
    assert TxInv(TX_START, max) by { TxRunKeeps(TX_START, [], max); StartsTx(max); }
    PassTaken(TX_START, CIRCBUF_SIZE, max);
    PassTaken(TxRun(TX_START, Pass(CIRCBUF_SIZE), max), max, max);
    TxRunConcat(TX_START, Pass(CIRCBUF_SIZE), Pass(max), max);
  }

  lemma StartsTx(max: nat)
    requires 1 <= max <= PACKET_SIZE
    ensures TxInv(TX_START, max)
  {
  }

  /** Three packets come in that nobody reads: the third one holds the USB thread. */
  lemma ThirdPacketBlocks() returns (rs: seq<RxStep>)
    ensures Dequeue !in rs && RxInv(RxRun(RX_START, rs)) && Blocked(RxRun(RX_START, rs))
  {
    var p, q: seq<Byte> := seq(64, _ => 0), seq(63, _ => 0);
    var a, b, c := [Arrive(p)] + Unpack(64), [Arrive(q)] + Unpack(63), [Arrive(p)];
    UnpackReadsNothing(64);
    UnpackReadsNothing(63);
    Receives(RX_START, p);
    hide Unpack, RxRun, RxNext, RxInv;
    var r1 := RxRun(RX_START, a);
    Receives(r1, q);
    var r2 := RxRun(r1, b);
    FullRingBlocks(r2, p);
    RxRunConcat(RX_START, a, b);
    RxRunConcat(RX_START, a + b, c);
    rs := (a + b) + c;
  }

  /** A packet that finds the callback enabled and no room holds the USB thread. */
  lemma FullRingBlocks(r: Rx, p: seq<Byte>)
    requires RxInv(r) && r.lock && !r.reading && |p| <= PACKET_SIZE && |r.ring| + |p| > CIRCBUF_SIZE
    ensures RxInv(RxRun(r, [Arrive(p)])) && Blocked(RxRun(r, [Arrive(p)]))
  {
    RxKeeps(r, Arrive(p));
    assert [Arrive(p)][1..] == [] && RxRun(r, [Arrive(p)]) == RxRun(RxNext(r, Arrive(p)), []);
  }

  /** A run from the start, without a read, to a full send ring behind a packet in flight and a USB thread that
      waits for room in the receive ring: from there write() waits until somebody reads. */
  lemma WriteWaitsForRead(max: nat) returns (ss: seq<Step>)
    requires 1 <= max <= PACKET_SIZE
    ensures NoRead(ss)
    ensures var y := SysRun(SYS_START, ss, max);
      && y.tx.phase == Outside && y.tx.lock && |y.tx.ring| == CIRCBUF_SIZE && Blocked(y.rx)
      && forall more :: NoRead(more) ==>
           SysRun(y, more, max).tx.ring == y.tx.ring && SysRun(y, more, max).tx.completed == y.tx.completed
  {
    var rs := ThirdPacketBlocks();
    FillsOut(max);
    StartsTx(max);
    assert SysInv(SYS_START, max);
    hide TxRun, RxRun, SysRun, FillOut, TxInv, RxInv, Blocked, SysInv;
    RunsRx(SYS_START, rs, max);
    var y1 := SysRun(SYS_START, Rxs(rs), max);
    RunsTx(y1, FillOut(max), max);
    ss := Rxs(rs) + Txs(FillOut(max));
    SysRunConcat(SYS_START, Rxs(rs), Txs(FillOut(max)), max);
    SysRunKeeps(SYS_START, ss, max);
    var y := SysRun(SYS_START, ss, max);
    forall more | NoRead(more)
      ensures SysRun(y, more, max).tx.ring == y.tx.ring && SysRun(y, more, max).tx.completed == y.tx.completed
    {
      StaysAsIs(y, more, max);
    }
  }

  lemma StaysAsIs(y: Sys, more: seq<Step>, max: nat)
    requires SysInv(y, max) && Blocked(y.rx) && NoRead(more) && y.tx.lock && |y.tx.ring| == CIRCBUF_SIZE
    ensures SysRun(y, more, max).tx.ring == y.tx.ring && SysRun(y, more, max).tx.completed == y.tx.completed
  {
    RingStaysFull(y, more, max);
    BlockedTillRead(y, more, max);
  }

  // ----- with reads -----

  /** Everything written has been sent, everything received has been read, and the next transfer is under way. */
  predicate AllServed(y: Sys) {
    y.tx.completed == y.tx.written && AllRead(y.rx)
  }

  /** No further packets, and nothing more is written. */
  predicate Quiet(ss: seq<Step>) {
    forall s :: s in ss ==> (s.OfRx? ==> !s.r.Arrive?) && (s.OfTx? ==> !s.t.Enqueue?)
  }

  /** With reads, both directions can be served to the end exactly from the states in which the user thread is not
      caught in the callback; a blocked USB thread is one that can. */
  lemma AllServedIff(y: Sys, max: nat)
    requires SysInv(y, max)
    ensures (exists ss :: Quiet(ss) && AllServed(SysRun(y, ss, max))) <==> !Caught(y.rx)
  {
    if Caught(y.rx) {
      forall ss ensures !AllServed(SysRun(y, ss, max)) { CaughtSystem(y, ss, max); }
    } else {
      var ss := Serving(y, max);
    }
  }

  lemma {:induction false} CaughtSystem(y: Sys, ss: seq<Step>, max: nat)
    requires RxInv(y.rx) && Caught(y.rx)
    ensures var y' := SysRun(y, ss, max); Caught(y'.rx) && !y'.rx.lock
    decreases |ss|
  {
    if ss != [] {
      CaughtStep(y, ss[0], max);
      hide After, RxInv, Caught;
      CaughtSystem(After(y, ss[0], max), ss[1..], max);
    }
  }

  lemma CaughtStep(y: Sys, s: Step, max: nat)
    requires RxInv(y.rx) && Caught(y.rx)
    ensures RxInv(After(y, s, max).rx) && Caught(After(y, s, max).rx)
  {
    match s
    case OfTx(t) => hide RxInv, HasRoom;
    case OfRx(r) => if RxEnabled(y.rx, r) { RxKeeps(y.rx, r); }
  }

  lemma QuietRun(rs: seq<RxStep>, t: Tx, n: nat)
    requires NoArrival(rs)
    ensures Quiet(Rxs(rs) + Txs(Leave(t)) + Txs(Completes(n)))
  {
    var ss := Rxs(rs) + Txs(Leave(t)) + Txs(Completes(n));
    forall s | s in ss ensures (s.OfRx? ==> !s.r.Arrive?) && (s.OfTx? ==> !s.t.Enqueue?) {
      if s in Rxs(rs) {
        var i :| 0 <= i < |rs| && s == Rxs(rs)[i];
        assert rs[i] in rs;
      } else if s in Txs(Leave(t)) {
        var i :| 0 <= i < |Leave(t)| && s == Txs(Leave(t))[i];
      } else {
        var i :| 0 <= i < n && s == Txs(Completes(n))[i];
        assert Completes(n)[i] in Completes(n);
      }
    }
  }

  lemma Serving(y: Sys, max: nat) returns (ss: seq<Step>)
    requires SysInv(y, max) && !Caught(y.rx)
    ensures Quiet(ss) && AllServed(SysRun(y, ss, max))
  {
    hide TxInv, TxRun, RxRun, SysRun, Leave, Drain;
    var rs := ReadsAll(y.rx);
    RunsRx(y, rs, max);
    RxRunKeeps(y.rx, rs);
    var y1 := SysRun(y, Rxs(rs), max);
    assert y1.rx.runner == Nobody;
    hide RxInv;
    Leaves(y.tx, max);
    RunsTx(y1, Leave(y.tx), max);
    var t2 := TxRun(y.tx, Leave(y.tx), max);
    var n := |t2.ring| + 1;
    RunsTx(y1.(tx := t2), Completes(n), max);
    DrainRuns(t2, n, max);
    DrainsCompletely(t2, n, max);
    DrainKeepsWritten(t2, n, max);
    QuietRun(rs, y.tx, n);
    ss := Rxs(rs) + Txs(Leave(y.tx)) + Txs(Completes(n));
    SysRunConcat(y, Rxs(rs), Txs(Leave(y.tx)), max);
    SysRunConcat(y, Rxs(rs) + Txs(Leave(y.tx)), Txs(Completes(n)), max);
  }

  lemma {:induction false} DrainKeepsWritten(t: Tx, n: nat, max: nat)
    ensures Drain(t, n, max).written == t.written
    decreases n
  {
    if n > 0 && TxEnabled(t, Complete) { DrainKeepsWritten(TxNext(t, Complete, max), n - 1, max); }
  }
}
