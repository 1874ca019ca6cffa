/**
 * The serial stream over the USB packet port as a system of steps (USBSerialStream.cpp,
 * WANDongleSerialPort.cpp). A user thread and the USB thread take turns; transfers succeed. Each half is taken on
 * its own here, with the USB thread at its disposal; SerialThreads puts them together.
 */
module SerialSpec {
  import opened Bytes

  const CIRCBUF_SIZE := 127
  const PACKET_SIZE := 64   // WANDONGLE_MAX_OUTEP_SIZE, WANDONGLE_MAX_INEP_SIZE

  function Min(a: int, b: int): int {
    if a < b then a else b
  }

  // ----- sending -----

  /** Where the user thread is: outside of write() and space(), in space() with the callback disabled, in
      write() filling the ring with the callback disabled, or about to enable it again. */
  datatype Phase = Outside | Probing | Filling | Kicked

  /** Ring, port buffer and flags of the sending side; written and completed are the bytes write() took and
      the bytes of finished packets. */
  datatype Tx = Tx(phase: Phase, ring: seq<Byte>, bufOut: seq<Byte>, lock: bool, en: bool, pending: bool,
                   fifoEmpty: bool, written: seq<Byte>, completed: seq<Byte>)

  datatype TxStep = Probe | Disable | Enqueue(c: Byte) | Kick | Enable | Complete

  const TX_START := Tx(Outside, [], [], false, true, false, true, [], [])

  /** The callback writeable(): moves what fits from the ring to the port, and starts a packet. */
  function Writeable(t: Tx, max: nat): Tx {
    if t.ring == [] then t.(fifoEmpty := true)
    else
      var k := if t.lock then 0 else Min(if |t.bufOut| <= max then max - |t.bufOut| else 0, |t.ring|);
      t.(fifoEmpty := false, bufOut := t.bufOut + t.ring[..k], ring := t.ring[k..], lock := true)
  }

  predicate TxEnabled(t: Tx, s: TxStep) {
    match s
    case Probe => t.phase == Outside
    case Disable => t.phase == Outside
    case Enqueue(_) => t.phase == Filling && |t.ring| < CIRCBUF_SIZE
    case Kick => t.phase == Filling
    case Enable => t.phase == Kicked || t.phase == Probing
    case Complete => t.lock
  }

  function TxNext(t: Tx, s: TxStep, max: nat): Tx
    requires TxEnabled(t, s)
  {
    match s
    case Probe => t.(phase := Probing, en := false)
    case Disable => t.(phase := Filling, en := false)
    case Enqueue(c) => t.(ring := t.ring + [c], written := t.written + [c])
    case Kick => (if t.ring != [] && t.fifoEmpty then Writeable(t, max) else t).(phase := Kicked)
    case Enable =>
      var t1 := t.(phase := Outside, en := true);
      if t.pending then Writeable(t1.(pending := false), max) else t1
    case Complete =>
      var t1 := t.(completed := t.completed + t.bufOut, bufOut := [], lock := false);
      if t.en then Writeable(t1, max) else t1.(pending := true)
  }

  /** What holds between any two steps. */
  predicate TxInv(t: Tx, max: nat) {
    && 1 <= max <= PACKET_SIZE && |t.ring| <= CIRCBUF_SIZE && |t.bufOut| <= max
    && t.written == t.completed + t.bufOut + t.ring                        // nothing lost, doubled or reordered
    && (t.lock <==> t.bufOut != [])                                        // a packet in flight is never empty
    && (t.fifoEmpty <==> !t.lock && !t.pending)
    && !(t.lock && t.pending)
    && (t.en <==> t.phase == Outside) && (t.pending ==> !t.en)
    && (t.phase != Filling && t.ring != [] ==> t.lock || t.pending)        // no stall
  }

  lemma WriteableKeeps(t: Tx, max: nat)
    requires 1 <= max <= PACKET_SIZE && |t.ring| <= CIRCBUF_SIZE && t.bufOut == [] && !t.lock && !t.pending
    requires t.written == t.completed + t.ring
    ensures var t' := Writeable(t, max);
      && t'.written == t'.completed + t'.bufOut + t'.ring && |t'.bufOut| <= max && |t'.ring| <= |t.ring|
      && (t'.lock <==> t'.bufOut != []) && (t'.fifoEmpty <==> !t'.lock) && (t.ring != [] ==> t'.lock)
      && t' == t.(bufOut := t'.bufOut, ring := t'.ring, lock := t'.lock, fifoEmpty := t'.fifoEmpty)
  {
    var k := Min(max, |t.ring|);
    assert t.ring == t.ring[..k] + t.ring[k..];
    assert t.completed + t.ring == t.completed + t.ring[..k] + t.ring[k..];
    assert [] + t.ring[..k] == t.ring[..k];
  }

  lemma TxKeeps(t: Tx, s: TxStep, max: nat)
    requires TxInv(t, max) && TxEnabled(t, s)
    ensures TxInv(TxNext(t, s, max), max)
  {
    match s
    case Probe =>
    case Disable =>
    case Enqueue(c) => assert t.completed + t.bufOut + (t.ring + [c]) == t.completed + t.bufOut + t.ring + [c];
    case Kick =>
      if t.ring != [] && t.fifoEmpty {
        assert t.completed + [] == t.completed;
        WriteableKeeps(t, max);
      }
    case Enable =>
      if t.pending {
        assert t.completed + [] == t.completed;
        WriteableKeeps(t.(phase := Outside, en := true, pending := false), max);
      }
    case Complete =>
      var t1 := t.(completed := t.completed + t.bufOut, bufOut := [], lock := false);
      if t.en { WriteableKeeps(t1, max); }
      assert t1.completed + [] + t.ring == t.completed + t.bufOut + t.ring;
  }

  function TxRun(t: Tx, ss: seq<TxStep>, max: nat): Tx
    decreases |ss|
  {
    if ss == [] then t else TxRun(if TxEnabled(t, ss[0]) then TxNext(t, ss[0], max) else t, ss[1..], max)
  }

  lemma {:induction false} TxRunKeeps(t: Tx, ss: seq<TxStep>, max: nat)
    requires TxInv(t, max)
    ensures TxInv(TxRun(t, ss, max), max)
    decreases |ss|
  {
    hide TxInv;
    hide TxNext;
    if ss != [] {
      if TxEnabled(t, ss[0]) { TxKeeps(t, ss[0], max); }
      TxRunKeeps(if TxEnabled(t, ss[0]) then TxNext(t, ss[0], max) else t, ss[1..], max);
    }
  }

  /** In every reachable state: the bytes taken by write() are those of finished packets, of the packet in
      flight and of the ring, in this order; and outside of write() a ring with bytes in it has a packet in
      flight. fifoEmpty holds exactly with no packet in flight and no callback pending. */
  lemma SenderNeverStalls(ss: seq<TxStep>, max: nat)
    requires 1 <= max <= PACKET_SIZE
    ensures var t := TxRun(TX_START, ss, max);
      && t.written == t.completed + t.bufOut + t.ring
      && (t.phase == Outside && t.ring != [] ==> t.lock && TxEnabled(t, Complete))
      && (t.phase != Filling && t.ring != [] ==> t.lock || t.pending)
      && (t.fifoEmpty <==> !t.lock && !t.pending)
  {
    TxRunKeeps(TX_START, ss, max);
  }

  /** n transfers in a row. */
  function Drain(t: Tx, n: nat, max: nat): Tx
    decreases n
  {
    if n == 0 || !TxEnabled(t, Complete) then t else Drain(TxNext(t, Complete, max), n - 1, max)
  }

  /** With the USB thread free, and left alone, the port sends everything write() took. */
  lemma {:induction false} DrainsCompletely(t: Tx, n: nat, max: nat)
    requires TxInv(t, max) && t.phase == Outside && |t.ring| + (if t.lock then 1 else 0) <= n
    ensures Drain(t, n, max).completed == t.written && Drain(t, n, max).ring == []
    decreases n
  {
    if t.lock {
      TxKeeps(t, Complete, max);
      DrainsCompletely(TxNext(t, Complete, max), n - 1, max);
    } else {
      assert t.completed + [] + [] == t.completed;
    }
  }

  // ----- receiving -----

  /** Which thread is inside the callback readable(), if any. */
  datatype Runner = Nobody | UsbThread | UserThread

  /** reading: the user thread is between disabling and enabling the callback. bufIn is what is left unread of
      the last packet; lock: a transfer has been started. received and read are the bytes that came in packets
      and the bytes handed to the user. */
  datatype Rx = Rx(reading: bool, ring: seq<Byte>, bufIn: seq<Byte>, lock: bool, en: bool, pending: bool,
                   runner: Runner, received: seq<Byte>, read: seq<Byte>)

  datatype RxStep = Mask | Dequeue | Unmask | Arrive(p: seq<Byte>) | QueueOne | Finish

  const RX_START := Rx(false, [], [], true, true, false, Nobody, [], [])

  /** The callback waits in queue() while the ring is full; it starts the next transfer when it is through. */
  predicate RxEnabled(r: Rx, s: RxStep) {
    match s
    case Mask => !r.reading && r.runner != UserThread
    case Dequeue => r.reading && r.runner != UserThread && r.ring != []
    case Unmask => r.reading && r.runner != UserThread
    case Arrive(p) => r.lock && |p| <= PACKET_SIZE
    case QueueOne => r.runner != Nobody && r.bufIn != [] && |r.ring| < CIRCBUF_SIZE
    case Finish => r.runner != Nobody && r.bufIn == []
  }

  function RxNext(r: Rx, s: RxStep): Rx
    requires RxEnabled(r, s)
  {
    match s
    case Mask => r.(reading := true, en := false)
    case Dequeue => r.(ring := r.ring[1..], read := r.read + [r.ring[0]])
    case Unmask =>
      var r1 := r.(reading := false, en := true);
      if r.pending then r1.(pending := false, runner := UserThread) else r1
    case Arrive(p) =>
      var r1 := r.(bufIn := p, lock := false, received := r.received + p);
      if r.en then r1.(runner := UsbThread) else r1.(pending := true)
    case QueueOne => r.(ring := r.ring + [r.bufIn[0]], bufIn := r.bufIn[1..])
    case Finish => r.(lock := true, runner := Nobody)
  }

  predicate RxInv(r: Rx) {
    && |r.ring| <= CIRCBUF_SIZE && |r.bufIn| <= PACKET_SIZE
    && r.received == r.read + r.ring + r.bufIn                             // nothing lost, doubled or reordered
    && (r.lock ==> !r.pending && r.runner == Nobody && r.bufIn == [])
    && (r.pending ==> !r.en && r.runner == Nobody)
    && (!r.lock ==> r.pending || r.runner != Nobody)                       // the next transfer will be started
    && (r.en <==> !r.reading) && (r.runner == UserThread ==> r.en)
  }

  lemma RxKeeps(r: Rx, s: RxStep)
    requires RxInv(r) && RxEnabled(r, s)
    ensures RxInv(RxNext(r, s))
  {
    match s
    case Dequeue => assert r.read + r.ring + r.bufIn == r.read + [r.ring[0]] + r.ring[1..] + r.bufIn;
    case Arrive(p) => assert r.read + r.ring + [] + p == r.read + r.ring + p;
    case QueueOne => assert r.read + r.ring + r.bufIn == r.read + (r.ring + [r.bufIn[0]]) + r.bufIn[1..];
    case _ =>
  }

  function RxRun(r: Rx, ss: seq<RxStep>): Rx
    decreases |ss|
  {
    if ss == [] then r else RxRun(if RxEnabled(r, ss[0]) then RxNext(r, ss[0]) else r, ss[1..])
  }

  lemma {:induction false} RxRunKeeps(r: Rx, ss: seq<RxStep>)
    requires RxInv(r)
    ensures RxInv(RxRun(r, ss))
    decreases |ss|
  {
    hide RxInv;
    hide RxNext;
    if ss != [] {
      if RxEnabled(r, ss[0]) { RxKeeps(r, ss[0]); }
      RxRunKeeps(if RxEnabled(r, ss[0]) then RxNext(r, ss[0]) else r, ss[1..]);
    }
  }

  /** In every reachable state the bytes that came in packets are those read, those in the ring and those of
      the packet not yet unpacked, in this order. */
  lemma ReceiverLosesNothing(ss: seq<RxStep>)
    ensures var r := RxRun(RX_START, ss); r.received == r.read + r.ring + r.bufIn && |r.ring| <= CIRCBUF_SIZE
  {
    RxRunKeeps(RX_START, ss);
  }

  /** The user thread is inside the callback, and waits for room that only itself could make. */
  predicate Stuck(r: Rx) {
    r.runner == UserThread && r.bufIn != [] && |r.ring| == CIRCBUF_SIZE
  }

  /** No step at all is possible exactly in the stuck states. */
  lemma StuckIff(ss: seq<RxStep>)
    ensures var r := RxRun(RX_START, ss);
      Stuck(r) <==> forall s :: !RxEnabled(r, s)
  {
    RxRunKeeps(RX_START, ss);
    var r := RxRun(RX_START, ss);
    if r.runner == UserThread && !Stuck(r) {
      assert RxEnabled(r, QueueOne) || RxEnabled(r, Finish);
    } else if r.runner != UserThread {
      assert RxEnabled(r, Mask) || RxEnabled(r, Unmask);
    }
  }

  /** There is room in the ring for what is left of the packet. */
  predicate HasRoom(r: Rx) {
    |r.ring| + |r.bufIn| <= CIRCBUF_SIZE
  }

  /** The user thread is inside the callback with a packet larger than the room: the states that lead nowhere
      else than to a stuck one. */
  predicate Caught(r: Rx) {
    r.runner == UserThread && !HasRoom(r)
  }

  /** Once caught, for good: no run gets the user thread out of the callback, none hands out another byte, and
      none starts another transfer. */
  lemma {:induction false} CaughtForGood(r: Rx, ss: seq<RxStep>)
    requires RxInv(r) && Caught(r)
    ensures var r' := RxRun(r, ss);
      Caught(r') && r'.read == r.read && r'.received == r.received && !r'.lock
    decreases |ss|
  {
    if ss != [] {
      if RxEnabled(r, ss[0]) { RxKeeps(r, ss[0]); }
      CaughtForGood(if RxEnabled(r, ss[0]) then RxNext(r, ss[0]) else r, ss[1..]);
    }
  }

  /** Enabling the callback with a packet pending: the user thread gets out of it again exactly if there is
      room for the packet. */
  lemma UnmaskReturnsIff(r: Rx)
    requires RxInv(r) && r.reading && r.pending
    ensures (exists ss :: RxRun(RxNext(r, Unmask), ss).runner == Nobody) <==> HasRoom(r)
  {
    var r1 := RxNext(r, Unmask);
    RxKeeps(r, Unmask);
    if HasRoom(r) {
      RoomSuffices(r1, |r.bufIn|);
    } else {
      forall ss ensures RxRun(r1, ss).runner != Nobody { CaughtForGood(r1, ss); }
    }
  }

  /** A packet that comes in while the callback is disabled, and is unpacked by the user thread when it enables
      the callback again: it gets through exactly if the ring had room for the packet. */
  lemma OverrunIff(r: Rx, p: seq<Byte>)
    requires RxInv(r) && r.lock && !r.reading && |p| <= PACKET_SIZE
    ensures (exists ss :: RxRun(RxRun(r, [Mask, Arrive(p), Unmask]), ss).runner == Nobody) <==>
              |r.ring| + |p| <= CIRCBUF_SIZE
  {
    OverrunState(r, p);
    var r2 := RxNext(RxNext(r, Mask), Arrive(p));
    RxKeeps(r, Mask);
    RxKeeps(RxNext(r, Mask), Arrive(p));
    UnmaskReturnsIff(r2);
  }

  lemma OverrunState(r: Rx, p: seq<Byte>)
    requires RxInv(r) && r.lock && !r.reading && |p| <= PACKET_SIZE
    ensures RxRun(r, [Mask, Arrive(p), Unmask]) == RxNext(RxNext(RxNext(r, Mask), Arrive(p)), Unmask)
  {
    var ss := [Mask, Arrive(p), Unmask];
    assert ss[1..] == [Arrive(p), Unmask] && ss[1..][1..] == [Unmask] && ss[1..][1..][1..] == [];
    var r2 := RxNext(RxNext(r, Mask), Arrive(p));
    assert RxRun(r2, [Unmask]) == RxRun(RxNext(r2, Unmask), []);
  }

  /** With room for what is left of the packet the callback gets through, on either thread. */
  lemma {:induction false} RoomSuffices(r: Rx, n: nat)
    requires RxInv(r) && r.runner != Nobody && n == |r.bufIn| && |r.ring| + n <= CIRCBUF_SIZE
    ensures var r' := RxRun(r, Unpack(n));
      RxInv(r') && r' == r.(runner := Nobody, lock := true, ring := r.ring + r.bufIn, bufIn := [])
    decreases n
  {
    if n == 0 {
      assert Unpack(0)[1..] == [];
      assert r.ring + [] == r.ring;
    } else {
      var r1 := RxNext(r, QueueOne);
      RxKeeps(r, QueueOne);
      assert Unpack(n)[1..] == Unpack(n - 1);
      RoomSuffices(r1, n - 1);
      assert r1.ring + r1.bufIn == r.ring + r.bufIn;
    }
  }

  /** The steps of the callback for n bytes. */
  function Unpack(n: nat): seq<RxStep> {
    if n == 0 then [Finish] else [QueueOne] + Unpack(n - 1)
  }

  /** The callback moves k bytes, and is not through yet. */
  function Fill(k: nat): seq<RxStep> {
    if k == 0 then [] else [QueueOne] + Fill(k - 1)
  }

  lemma {:induction false} Fills(r: Rx, k: nat)
    requires RxInv(r) && r.runner != Nobody && k <= |r.bufIn| && |r.ring| + k <= CIRCBUF_SIZE
    ensures var r' := RxRun(r, Fill(k));
      RxInv(r') && r' == r.(ring := r.ring + r.bufIn[..k], bufIn := r.bufIn[k..])
    decreases k
  {
    if k == 0 {
      assert r.ring + r.bufIn[..0] == r.ring;
    } else {
      hide RxInv, RxRun;
      var r1 := RxNext(r, QueueOne);
      RxKeeps(r, QueueOne);
      Steps(r, QueueOne, Fill(k - 1));
      QueueOneMeans(r);
      hide RxNext;
      Fills(r1, k - 1);
      assert r1.ring + r1.bufIn[..k - 1] == r.ring + r.bufIn[..k];
    }
  }

  lemma QueueOneMeans(r: Rx)
    requires RxInv(r) && r.runner != Nobody && r.bufIn != [] && |r.ring| < CIRCBUF_SIZE
    ensures RxNext(r, QueueOne) == r.(ring := r.ring + [r.bufIn[0]], bufIn := r.bufIn[1..])
  {
  }

  lemma Steps(r: Rx, s: RxStep, ss: seq<RxStep>)
    requires RxEnabled(r, s)
    ensures RxRun(r, [s] + ss) == RxRun(RxNext(r, s), ss)
  {
    assert ([s] + ss)[1..] == ss;
  }

  /** The whole callback, as far as it gets. */
  function Callback(r: Rx): seq<RxStep>
    requires |r.ring| <= CIRCBUF_SIZE
  {
    if HasRoom(r) then Unpack(|r.bufIn|) else Fill(CIRCBUF_SIZE - |r.ring|)
  }

  /** What the callback comes to: through with the packet, or with a full ring and the rest of the packet. */
  function Unpacked(r: Rx): Rx
    requires |r.ring| <= CIRCBUF_SIZE
  {
    if HasRoom(r) then r.(ring := r.ring + r.bufIn, bufIn := [], runner := Nobody, lock := true)
    else
      var k := CIRCBUF_SIZE - |r.ring|;
      r.(ring := r.ring + r.bufIn[..k], bufIn := r.bufIn[k..])
  }

  lemma CallbackUnpacks(r: Rx)
    requires RxInv(r) && r.runner != Nobody
    ensures RxRun(r, Callback(r)) == Unpacked(r) && RxInv(Unpacked(r))
  {
    hide RxRun, Unpack, Fill;
    if HasRoom(r) { RoomSuffices(r, |r.bufIn|); } else { Fills(r, CIRCBUF_SIZE - |r.ring|); }
  }

  /** A caught user thread fills the ring and is stuck. */
  lemma CaughtIsStuck(r: Rx)
    requires RxInv(r) && Caught(r)
    ensures Stuck(Unpacked(r)) && Stuck(RxRun(r, Callback(r)))
  {
    CallbackUnpacks(r);
  }

  lemma {:induction false} RxRunConcat(r: Rx, a: seq<RxStep>, b: seq<RxStep>)
    ensures RxRun(r, a + b) == RxRun(RxRun(r, a), b)
    decreases |a|
  {
    hide RxNext;
    if a == [] {
      assert a + b == b;
    } else {
      assert (a + b)[1..] == a[1..] + b;
      RxRunConcat(if RxEnabled(r, a[0]) then RxNext(r, a[0]) else r, a[1..], b);
    }
  }

  /** A packet that finds the callback enabled and room in the ring. */
  lemma Receives(r: Rx, p: seq<Byte>)
    requires RxInv(r) && r.lock && r.en && |p| <= PACKET_SIZE && |r.ring| + |p| <= CIRCBUF_SIZE
    ensures var r' := RxRun(r, [Arrive(p)] + Unpack(|p|));
      RxInv(r') && r'.lock && !r'.reading && r'.ring == r.ring + p
  {
    var r1 := RxNext(r, Arrive(p));
    RxKeeps(r, Arrive(p));
    assert ([Arrive(p)] + Unpack(|p|))[1..] == Unpack(|p|);
    RoomSuffices(r1, |p|);
  }

  /** The stuck states are reachable: three packets in a row that nobody reads are enough. */
  lemma StuckIsReachable() returns (ss: seq<RxStep>)
    ensures Stuck(RxRun(RX_START, ss))
  {
    var p, q: seq<Byte> := seq(64, _ => 0), seq(63, _ => 0);
    var a, b, c := [Arrive(p)] + Unpack(64), [Arrive(q)] + Unpack(63), [Mask, Arrive(p), Unmask];
    Receives(RX_START, p);
    var r1 := RxRun(RX_START, a);
    Receives(r1, q);
    var r2 := RxRun(r1, b);
    OverrunState(r2, p);
    RxRunConcat(RX_START, a, b);
    RxRunConcat(RX_START, a + b, c);
    ss := (a + b) + c;
  }

  /** Left without further packets. */
  predicate NoArrival(ss: seq<RxStep>) {
    forall s :: s in ss ==> !s.Arrive?
  }

  /** Everything that has come in has been handed out, and the next transfer is under way. */
  predicate AllRead(r: Rx) {
    r.read == r.received && r.lock
  }

  /** The two threads together can hand out everything received, and start the next transfer, exactly from
      the states in which the user thread is not caught. */
  lemma ReadsAllIff(r: Rx)
    requires RxInv(r)
    ensures (exists ss :: NoArrival(ss) && AllRead(RxRun(r, ss))) <==> !Caught(r)
  {
    if Caught(r) {
      forall ss ensures !AllRead(RxRun(r, ss)) { CaughtForGood(r, ss); }
    } else {
      var ss := ReadsAll(r);
    }
  }

  /** A step that brings the end nearer. */
  function Helpful(r: Rx): RxStep {
    if r.runner == UserThread || (r.runner == UsbThread && r.reading && r.ring == []) then
      if r.bufIn != [] then QueueOne else Finish
    else if !r.reading then Mask
    else if r.ring != [] then Dequeue
    else Unmask
  }

  lemma {:induction false} ReadsAll(r: Rx) returns (ss: seq<RxStep>)
    requires RxInv(r) && !Caught(r)
    ensures NoArrival(ss) && AllRead(RxRun(r, ss))
    decreases 2 * |r.bufIn| + |r.ring|, !r.lock, if r.runner == UserThread then 0 else if r.reading then 1 else 2
  {
    if r.lock && r.ring == [] {
      assert r.read + [] + [] == r.read;
      ss := [];
    } else {
      var s := Helpful(r);
      RxKeeps(r, s);
      var rest := ReadsAll(RxNext(r, s));
      ss := [s] + rest;
      assert ss[1..] == rest;
    }
  }
}
