/**
 * Segmented responses over CAN (CAN/CANCommunicator6A.cpp): the simulated calculator cuts a response into
 * single, first and consecutive frames (ISO 15765-2:2016, section 9.6), the master acknowledges the first
 * one and puts the response together again.
 */
module Can6A {
  import opened Bytes
  import opened Wrappers

  /** The data bytes of a CAN message. */
  type Frame = seq<Byte>

  // ----- the slave's frames -----

  const SHORT := 7

  /** FormatResponse: the frame number it of a response. */
  function FormatResponse(response: seq<Byte>, it: nat): Frame
    requires |response| < 0x100 && (|response| > SHORT ==> it * 7 < |response|)
  {
    if |response| <= SHORT then response
    else
      var head: Byte := if it == 0 then 0x10 else 0x20 + it % 0x10;
      var l := if (it + 1) * 7 <= |response| then 7 else |response| % 7;
      [head] + response[it * 7..it * 7 + l]
  }

  /** How many frames a response takes. */
  function Count(n: nat): nat {
    if n <= SHORT then 1 else (n + 6) / 7
  }

  /** All frames of a response, in the order they are sent. */
  function Segments(response: seq<Byte>): (fs: seq<Frame>)
    requires |response| < 0x100
    ensures |fs| == Count(|response|)
    ensures forall i :: 0 <= i < |fs| ==> fs[i] == FormatResponse(response, i)
  {
    seq(Count(|response|), i requires 0 <= i < Count(|response|) => FormatResponse(response, i))
  }

  /** The uint8_t counter of the slave's send loop never wraps exactly when the response has at most 252
      bytes; above, the loop runs past the last frame. */
  lemma CounterWrapsIff(n: nat)
    requires n < 0x100
    ensures (forall k: nat :: 7 * k < n ==> 7 * k + 7 < 0x100) <==> n <= 252
  {
    assert 7 * 36 == 252;
  }

  /** Frame it of a long response: its header, and the next at most seven bytes. */
  lemma FrameAt(response: seq<Byte>, it: nat)
    requires SHORT < |response| < 0x100 && it < Count(|response|)
    ensures var n := |response|;
      var end := if 7 * it + 7 < n then 7 * it + 7 else n;
      && 7 * it < end
      && FormatResponse(response, it) == [if it == 0 then 0x10 else 0x20 + it % 0x10] + response[7 * it..end]
      && (end == n <==> it + 1 == Count(n))
      && end - 7 * it == if (it + 1) * 7 <= n then 7 else n % 7
  {
    var n := |response|;
    assert n % 7 == n - 7 * (n / 7);
  }

  // ----- the master -----

  datatype MState = IDLE | EXT_CMD

  /** resp: the response bytes copied so far. Fault: the copy would read behind the end of the message. */
  datatype Master = Running(state: MState, respLen: nat, resp: seq<Byte>) | Done(respLen: nat, resp: seq<Byte>) | Fault

  predicate HighNibble(f: Frame, n: nat) {
    f != [] && f[0] / 0x10 == n
  }

  /** One received message; ack is the calculator's CMD_ACK command, if it has one. */
  function MasterStep(m: Master, f: Frame, ack: Option<Frame>): (Master, seq<Frame>)
    requires m.Running?
  {
    if f == [] then (Fault, [])
    else if m.state == IDLE then
      if HighNibble(f, 0) then
        (if 1 + f[0] <= |f| then Done(f[0], f[1..1 + f[0]]) else Fault, [])
      else if f[0] == 0x10 then
        if |f| < 8 then (Fault, [])
        else if ack.Some? then (Running(EXT_CMD, f[1], f[2..8]), [ack.value])
        else (Running(IDLE, f[1], f[2..8]), [])
      else (m, [])
    else if HighNibble(f, 2) then
      var missing := m.respLen - |m.resp|;
      var payloadSz := if missing < 7 then missing % 0x100 else 7;
      if 1 + payloadSz > |f| then (Fault, [])
      else
        var resp := m.resp + f[1..1 + payloadSz];
        (if |resp| >= m.respLen then Done(m.respLen, resp) else Running(EXT_CMD, m.respLen, resp), [])
    else (m, [])
  }

  /** The receive loop of ExecuteCommand over the messages that arrive before the timeout. */
  function MasterRun(m: Master, fs: seq<Frame>, ack: Option<Frame>): (Master, seq<Frame>)
    decreases |fs|
  {
    if !m.Running? || fs == [] then (m, [])
    else
      var (m1, out) := MasterStep(m, fs[0], ack);
      var (m2, more) := MasterRun(m1, fs[1..], ack);
      (m2, out + more)
  }

  const START := Running(IDLE, 0, [])

  // ----- reassembly -----

  /** A response as the calculator's database makes it: its first byte counts the others. */
  predicate Response(r: seq<Byte>) {
    0 < |r| <= 252 && r[0] == |r| - 1
  }

  /** The master's state once p frames of the response r have been received. */
  function MasterAfter(r: seq<Byte>, p: nat): Master
    requires Response(r) && p <= Count(|r|)
  {
    if p == 0 then START
    else if p == Count(|r|) then Done(|r| - 1, r[1..])
    else Running(EXT_CMD, |r| - 1, r[1..7 * p])
  }

  lemma ReceivesFrame(r: seq<Byte>, p: nat, ack: Option<Frame>)
    requires Response(r) && p < Count(|r|) && (|r| > SHORT ==> ack.Some?)
    ensures MasterStep(MasterAfter(r, p), Segments(r)[p], ack) ==
      (MasterAfter(r, p + 1), if p == 0 && |r| > SHORT then [ack.value] else [])
  {
    var f, n := Segments(r)[p], |r|;
    if n <= SHORT {
      assert f == r && r[1..1 + r[0]] == r[1..];
    } else {
      FrameAt(r, p);
      if p == 0 {
        assert f[1] == r[0] && f[2..8] == r[1..7];
      } else {
        ReceivesNext(r, p, ack);
      }
    }
  }

  lemma ReceivesNext(r: seq<Byte>, p: nat, ack: Option<Frame>)
    requires Response(r) && |r| > SHORT && 0 < p < Count(|r|)
    ensures MasterStep(MasterAfter(r, p), Segments(r)[p], ack) == (MasterAfter(r, p + 1), [])
  {
    FrameAt(r, p);
    var f, n := Segments(r)[p], |r|;
    var end := if 7 * p + 7 < n then 7 * p + 7 else n;
    assert f[0] / 0x10 == 2;
    assert f[1..1 + (end - 7 * p)] == r[7 * p..end];
    assert r[1..7 * p] + r[7 * p..end] == r[1..end];
    assert end == n ==> r[1..end] == r[1..];
    var m := MasterAfter(r, p);
    assert |m.resp| == 7 * p - 1 && m.respLen - |m.resp| == n - 7 * p;
  }

  /** Messages that change nothing: in IDLE neither a single nor a first frame, in EXT_CMD no consecutive one. */
  predicate Ignored(f: Frame, p: nat) {
    f != [] && if p == 0 then !HighNibble(f, 0) && f[0] != 0x10 else !HighNibble(f, 2)
  }

  /** fs is the frames of r from number p on, in order, with ignored messages in between. */
  predicate Weaves(fs: seq<Frame>, r: seq<Byte>, p: nat)
    requires |r| < 0x100
    decreases |fs|
  {
    p == Count(|r|) ||
    (p < Count(|r|) && fs != [] &&
     ((fs[0] == Segments(r)[p] && Weaves(fs[1..], r, p + 1)) || (Ignored(fs[0], p) && Weaves(fs[1..], r, p))))
  }

  /** Reassembly undoes segmentation, whatever else arrives in between and afterwards. */
  lemma {:induction false} Reassembles(fs: seq<Frame>, r: seq<Byte>, p: nat, ack: Option<Frame>)
    requires Response(r) && p <= Count(|r|) && Weaves(fs, r, p) && (|r| > SHORT ==> ack.Some?)
    ensures MasterRun(MasterAfter(r, p), fs, ack) ==
      (Done(|r| - 1, r[1..]), if p == 0 && |r| > SHORT then [ack.value] else [])
    decreases |fs|
  {
    hide MasterStep;
    var acks := if p == 0 && |r| > SHORT then [ack.value] else [];
    assert acks + [] == acks && [] + acks == acks;
    if p < Count(|r|) {
      if fs[0] == Segments(r)[p] && Weaves(fs[1..], r, p + 1) {
        ReceivesFrame(r, p, ack);
        Reassembles(fs[1..], r, p + 1, ack);
      } else {
        IgnoresFrame(r, p, fs[0], ack);
        Reassembles(fs[1..], r, p, ack);
      }
    }
  }

  lemma IgnoresFrame(r: seq<Byte>, p: nat, f: Frame, ack: Option<Frame>)
    requires Response(r) && p < Count(|r|) && Ignored(f, p)
    ensures MasterStep(MasterAfter(r, p), f, ack) == (MasterAfter(r, p), [])
  {
  }

  /** A calculator without an acknowledge command: the master never leaves IDLE, and consecutive frames are
      all ignored. */
  lemma {:induction false} NoAckNoResponse(r: seq<Byte>, fs: seq<Frame>, m: Master)
    requires Response(r) && |r| > SHORT && m.Running? && m.state == IDLE
    requires forall f :: f in fs ==> HighNibble(f, 2) || f == Segments(r)[0]
    ensures MasterRun(m, fs, None).0.Running? && MasterRun(m, fs, None).1 == []
    decreases |fs|
  {
    if fs != [] {
      FrameAt(r, 0);
      assert HighNibble(fs[0], 2) || fs[0] == Segments(r)[0];
      assert Segments(r)[0][0] == 0x10 && |Segments(r)[0]| == 8;
      NoAckNoResponse(r, fs[1..], MasterStep(m, fs[0], None).0);
    }
  }

  // ----- the slave -----

  /** iteration: number of the next frame; response is what remains to be answered, empty for rLen = 0. */
  datatype Slave = Slave(state: MState, iteration: nat, response: seq<Byte>)

  predicate KeepAlive(f: Frame) {
    |f| >= 2 && f[0] == 0x01 && f[1] == 0x3E
  }

  predicate FlowControl(f: Frame) {
    |f| >= 3 && f[0] == 0x30 && f[1] == 0x00 && f[2] == 0x0A
  }

  /** The message has all the bytes that the slave looks at, and the command that it announces. */
  predicate Receivable(state: MState, f: Frame) {
    && 2 <= |f| <= 8 && (f[0] == 0x30 && f[1] == 0x00 ==> |f| >= 3)
    && (state == IDLE && f[0] % 0x10 != 0 ==> f[0] <= 7 && f[0] < |f|)
  }

  /** One received message; db answers a command, with the empty string for no response. */
  function SlaveStep(s: Slave, f: Frame, db: seq<Byte> -> seq<Byte>): (Slave, seq<Frame>)
    requires Receivable(s.state, f)
    requires |s.response| < 0x100 && forall c :: |db(c)| < 0x100
  {
    if KeepAlive(f) then (s, [[0x01, 0x7E]])
    else if s.state == IDLE then
      if f[0] % 0x10 != 0 then
        var r := db(f[1..1 + f[0]]);
        if r == [] then (Slave(IDLE, 0, r), [])
        else (if |r| <= SHORT then Slave(IDLE, 0, r) else Slave(EXT_CMD, 1, r), [FormatResponse(r, 0)])
      else (s, [])
    else if FlowControl(f) then
      (Slave(IDLE, s.iteration + Count(|s.response|) - 1, []), Segments(s.response)[1..])
    else (s.(state := IDLE), [])
  }

  // ----- both sides on a bus -----

  /** The two ends and the messages under way in each direction. */
  datatype Net = Net(master: Master, slave: Slave, toSlave: seq<Frame>, toMaster: seq<Frame>)

  /** Who moves next; Noise is some other message reaching the master. */
  datatype Choice = SlaveGets | MasterGets | Noise(f: Frame)

  /** A command that the database answers with r, and the calculator's acknowledge command, if it has one. */
  datatype Talk = Talk(cmd: Frame, ack: Option<Frame>, db: seq<Byte> -> seq<Byte>, r: seq<Byte>)

  ghost predicate Sensible(t: Talk) {
    && 2 <= |t.cmd| <= 8 && 0 < t.cmd[0] < |t.cmd| && !KeepAlive(t.cmd) && t.db(t.cmd[1..1 + t.cmd[0]]) == t.r
    && (t.ack.Some? ==> Receivable(EXT_CMD, t.ack.value)) && Response(t.r) && forall c :: |t.db(c)| < 0x100
  }

  /** The response is short, or the calculator's acknowledge command is the one the slave waits for, which begins
      with 30 00 0A. */
  predicate Answerable(t: Talk) {
    |t.r| <= 7 || (t.ack.Some? && [0x30, 0x00, 0x0A] <= t.ack.value)
  }

  /** A keep-alive request is answered at any time, and changes nothing in the slave; the answer, if it reaches a
      master that waits for the beginning of a response, is taken for a response of one byte. */
  lemma KeepAliveIsTaken(s: Slave, f: Frame, db: seq<Byte> -> seq<Byte>, ack: Option<Frame>)
    requires Receivable(s.state, f) && [0x01, 0x3E] <= f
    requires |s.response| < 0x100 && forall c :: |db(c)| < 0x100
    ensures SlaveStep(s, f, db) == (s, [[0x01, 0x7E]])
    ensures MasterStep(START, [0x01, 0x7E], ack) == (Done(1, [0x7E]), [])
  {
    assert f[0] == [0x01, 0x3E][0] && f[1] == [0x01, 0x3E][1];
    assert [0x01, 0x7E][1..1 + 1] == [0x7E];
  }

  /** A message that neither state of the master takes for part of a response. */
  predicate QuietFrame(f: Frame) {
    Ignored(f, 0) && Ignored(f, 1)
  }

  /** The slave is as an earlier exchange has left it; of the messages of that none is under way any more. */
  function NetStart(t: Talk, s0: Slave): Net {
    Net(START, s0, [t.cmd], [])
  }

  predicate Enabled(n: Net, c: Choice) {
    match c
    case SlaveGets => n.toSlave != [] && Receivable(n.slave.state, n.toSlave[0]) && |n.slave.response| < 0x100
    case MasterGets => n.master.Running? && n.toMaster != []
    case Noise(f) => QuietFrame(f)
  }

  function NetStep(n: Net, c: Choice, t: Talk): Net
    requires Enabled(n, c) && Sensible(t)
  {
    match c
    case SlaveGets =>
      var (s, out) := SlaveStep(n.slave, n.toSlave[0], t.db);
      Net(n.master, s, n.toSlave[1..], n.toMaster + out)
    case MasterGets =>
      var (m, out) := MasterStep(n.master, n.toMaster[0], t.ack);
      Net(m, n.slave, n.toSlave + out, n.toMaster[1..])
    case Noise(f) => n.(toMaster := n.toMaster + [f])
  }

  /** fs holds exactly the frames p .. q - 1 of r, in order, and quiet messages. */
  predicate Woven(fs: seq<Frame>, r: seq<Byte>, p: nat, q: nat)
    requires p <= q <= Count(|r|) && |r| < 0x100
    decreases |fs|
  {
    if fs == [] then p == q
    else (p < q && fs[0] == Segments(r)[p] && Woven(fs[1..], r, p + 1, q)) || (QuietFrame(fs[0]) && Woven(fs[1..], r, p, q))
  }

  /** The state of the net when the slave has sent q frames and the master has received p of them. */
  predicate Snapshot(n: Net, t: Talk, p: nat, q: nat) {
    var all := Count(|t.r|);
    && Response(t.r) && Answerable(t) && p <= q <= all
    && n.master == MasterAfter(t.r, p) && Woven(n.toMaster, t.r, p, q) && |n.slave.response| < 0x100
    && (q == 0 ==> n.slave.state == IDLE && n.toSlave == [t.cmd])
    && (0 < q < all ==> q == 1 && n.slave == Slave(EXT_CMD, 1, t.r) && n.toSlave == if p == 0 then [] else [t.ack.value])
    && (q == all ==> n.slave.state == IDLE && n.toSlave == [] && (all > 1 ==> p > 0))
  }

  lemma {:induction false} WovenQuiet(fs: seq<Frame>, r: seq<Byte>, p: nat, q: nat, f: Frame)
    requires p <= q <= Count(|r|) && |r| < 0x100 && Woven(fs, r, p, q) && QuietFrame(f)
    ensures Woven(fs + [f], r, p, q)
    decreases |fs|
  {
    if fs == [] {
      assert (fs + [f])[1..] == [];
    } else {
      assert (fs + [f])[1..] == fs[1..] + [f];
      if p < q && fs[0] == Segments(r)[p] && Woven(fs[1..], r, p + 1, q) {
        WovenQuiet(fs[1..], r, p + 1, q, f);
      } else {
        WovenQuiet(fs[1..], r, p, q, f);
      }
    }
  }

  lemma {:induction false} WovenMore(fs: seq<Frame>, r: seq<Byte>, p: nat, q: nat, q': nat)
    requires p <= q <= q' <= Count(|r|) && |r| < 0x100 && Woven(fs, r, p, q)
    ensures Woven(fs + Segments(r)[q..q'], r, p, q')
    decreases |fs|
  {
    hide FormatResponse;
    hide Count;
    hide QuietFrame;
    var more := Segments(r)[q..q'];
    if fs == [] {
      assert fs + more == more;
      WovenSegments(r, q, q');
    } else {
      assert (fs + more)[1..] == fs[1..] + more;
      if p < q && fs[0] == Segments(r)[p] && Woven(fs[1..], r, p + 1, q) {
        WovenMore(fs[1..], r, p + 1, q, q');
      } else {
        WovenMore(fs[1..], r, p, q, q');
      }
    }
  }

  lemma {:induction false} WovenSegments(r: seq<Byte>, q: nat, q': nat)
    requires q <= q' <= Count(|r|) && |r| < 0x100
    ensures Woven(Segments(r)[q..q'], r, q, q')
    decreases q' - q
  {
    hide FormatResponse;
    hide Count;
    hide QuietFrame;
    if q < q' {
      assert Segments(r)[q..q'][1..] == Segments(r)[q + 1..q'];
      WovenSegments(r, q + 1, q');
    }
  }

  /** One move keeps the picture: nothing is lost, and every message that matters brings p or q forward. */
  lemma NetStepKeeps(n: Net, c: Choice, t: Talk, p: nat, q: nat) returns (p': nat, q': nat)
    requires Sensible(t) && Snapshot(n, t, p, q) && Enabled(n, c)
    ensures Snapshot(NetStep(n, c, t), t, p', q') && p <= p' && q <= q'
    ensures c.SlaveGets? ==> q < q'
    ensures c.MasterGets? && !QuietFrame(n.toMaster[0]) ==> p' == p + 1
  {
    p', q' := p, q;
    match c
    case SlaveGets => q' := SlaveMoves(n, t, p, q);
    case MasterGets => p' := MasterMoves(n, t, p, q);
    case Noise(f) => WovenQuiet(n.toMaster, t.r, p, q, f);
  }

  lemma SlaveMoves(n: Net, t: Talk, p: nat, q: nat) returns (q': nat)
    requires Sensible(t) && Snapshot(n, t, p, q) && Enabled(n, SlaveGets)
    ensures Snapshot(NetStep(n, SlaveGets, t), t, p, q') && q < q'
  {
    var all := Count(|t.r|);
    if q == 0 {
      q' := 1;
      assert Segments(t.r)[0..1] == [FormatResponse(t.r, 0)];
    } else {
      q' := all;
      assert Segments(t.r)[1..all] == Segments(t.r)[1..];
    }
    WovenMore(n.toMaster, t.r, p, q, q');
    assert n.toSlave[1..] == [];
  }

  lemma MasterMoves(n: Net, t: Talk, p: nat, q: nat) returns (p': nat)
    requires Sensible(t) && Snapshot(n, t, p, q) && Enabled(n, MasterGets)
    ensures Snapshot(NetStep(n, MasterGets, t), t, p', q)
    ensures p' == if QuietFrame(n.toMaster[0]) then p else p + 1
  {
    var f := n.toMaster[0];
    if QuietFrame(f) {
      NotASegment(t.r, p, f);
      p' := p;
      IgnoresFrame(t.r, p, f, t.ack);
    } else {
      p' := p + 1;
      ReceivesFrame(t.r, p, t.ack);
    }
  }

  lemma NotASegment(r: seq<Byte>, p: nat, f: Frame)
    requires Response(r) && QuietFrame(f) && p < Count(|r|)
    ensures f != Segments(r)[p]
  {
    if |r| > SHORT { FrameAt(r, p); }
  }

  function NetRun(n: Net, cs: seq<Choice>, t: Talk): Net
    requires Sensible(t)
    decreases |cs|
  {
    if cs == [] then n
    else NetRun(if Enabled(n, cs[0]) then NetStep(n, cs[0], t) else n, cs[1..], t)
  }

  lemma {:induction false} NetRunKeeps(n: Net, cs: seq<Choice>, t: Talk, p: nat, q: nat) returns (p': nat, q': nat)
    requires Sensible(t) && Snapshot(n, t, p, q)
    ensures Snapshot(NetRun(n, cs, t), t, p', q')
    decreases |cs|
  {
    hide Snapshot;
    hide NetStep;
    hide Enabled;
    if cs == [] {
      p', q' := p, q;
    } else if Enabled(n, cs[0]) {
      var p1, q1 := NetStepKeeps(n, cs[0], t, p, q);
      p', q' := NetRunKeeps(NetStep(n, cs[0], t), cs[1..], t, p1, q1);
    } else {
      p', q' := NetRunKeeps(n, cs[1..], t, p, q);
    }
  }

  /** However the two sides, the messages and the noise interleave, and whatever state the slave is in at the start:
      the master never faults, it ends with exactly the response or has not ended; and as long as it has not, in
      an answerable exchange with an idle slave a message that matters is under way. */
  lemma ExchangeIsSafe(t: Talk, s0: Slave, cs: seq<Choice>)
    requires Sensible(t) && |s0.response| < 0x100
    ensures var n := NetRun(NetStart(t, s0), cs, t);
      && !n.master.Fault?
      && (n.master.Done? ==> n.master == Done(|t.r| - 1, t.r[1..]))
      && (Answerable(t) && s0.state == IDLE && n.master.Running? ==>
            (n.toSlave != [] && Enabled(n, SlaveGets)) || exists f :: f in n.toMaster && !QuietFrame(f))
  {
    var n0 := NetStart(t, s0);
    var n := NetRun(n0, cs, t);
    if s0.state == EXT_CMD {
      SwallowedRun(n0, cs, t);
    } else if Answerable(t) {
      assert Snapshot(n0, t, 0, 0);
      var p, q := NetRunKeeps(n0, cs, t, 0, 0);
      if n.master.Running? && p < q {
        var f := SegmentUnderWay(n.toMaster, t.r, p, q);
        NotQuiet(t.r, f.0, f.1);
      }
    } else {
      UnansweredRun(n0, cs, t);
    }
  }

  /** The exchange can still end, from wherever the two sides have got to, exactly if it is answerable and the slave
      was idle when it began: delivering what is under way then ends it with the whole response. Without an
      acknowledge command, with another one than the slave waits for, or with a slave that still waits for the
      one of an earlier exchange, no run ever does. */
  lemma CompletesIff(t: Talk, s0: Slave, cs: seq<Choice>)
    requires Sensible(t) && |s0.response| < 0x100
    ensures (exists more :: NetRun(NetRun(NetStart(t, s0), cs, t), more, t).master == Done(|t.r| - 1, t.r[1..])) <==>
              Answerable(t) && s0.state == IDLE
    ensures NetRun(NetStart(t, s0), cs, t).master.Done? ==> Answerable(t) && s0.state == IDLE
  {
    var n0 := NetStart(t, s0);
    var n := NetRun(n0, cs, t);
    if s0.state == EXT_CMD {
      SwallowedRun(n0, cs, t);
      forall more ensures !NetRun(n, more, t).master.Done? { SwallowedRun(n, more, t); }
    } else if Answerable(t) {
      var more := ExchangeCompletes(t, s0, cs);
    } else {
      UnansweredRun(n0, cs, t);
      forall more ensures !NetRun(n, more, t).master.Done? { UnansweredRun(n, more, t); }
    }
  }

  /** Delivering what is under way ends an answerable exchange that begins with an idle slave. */
  lemma ExchangeCompletes(t: Talk, s0: Slave, cs: seq<Choice>) returns (more: seq<Choice>)
    requires Sensible(t) && Answerable(t) && s0.state == IDLE && |s0.response| < 0x100
    ensures (forall c :: c in more ==> c == SlaveGets || c == MasterGets)
    ensures NetRun(NetRun(NetStart(t, s0), cs, t), more, t).master == Done(|t.r| - 1, t.r[1..])
  {
    assert Snapshot(NetStart(t, s0), t, 0, 0);
    var p, q := NetRunKeeps(NetStart(t, s0), cs, t, 0, 0);
    more := Completes(NetRun(NetStart(t, s0), cs, t), t, p, q);
  }

  /** An exchange that has ended leaves the slave idle, ready for the next one. */
  lemma EndedLeavesIdle(t: Talk, s0: Slave, cs: seq<Choice>)
    requires Sensible(t) && |s0.response| < 0x100
    ensures var n := NetRun(NetStart(t, s0), cs, t);
      n.master.Done? ==> n.slave.state == IDLE && |n.slave.response| < 0x100 && n.toSlave == []
  {
    var n := NetRun(NetStart(t, s0), cs, t);
    if n.master.Done? {
      CompletesIff(t, s0, cs);
      assert Snapshot(NetStart(t, s0), t, 0, 0);
      var p, q := NetRunKeeps(NetStart(t, s0), cs, t, 0, 0);
    }
  }

  /** Two exchanges, the first one with a calculator that has no acknowledge command. Once the slave has received the
      command of the first, it is left waiting, and the second one never ends, answerable or not. */
  lemma NextIsSwallowed(t: Talk, s0: Slave, cs: seq<Choice>, t2: Talk, more: seq<Choice>)
    requires Sensible(t) && Sensible(t2) && |t.r| > SHORT && t.ack.None?
    requires s0.state == IDLE && |s0.response| < 0x100 && NetRun(NetStart(t, s0), cs, t).toSlave == []
    ensures var s1 := NetRun(NetStart(t, s0), cs, t).slave;
      && s1 == Slave(EXT_CMD, 1, t.r)
      && !NetRun(NetStart(t2, s1), more, t2).master.Done?
  {
    UnansweredRun(NetStart(t, s0), cs, t);
    SwallowedRun(NetStart(t2, NetRun(NetStart(t, s0), cs, t).slave), more, t2);
  }

  /** With a new slave: one command that gets through is enough to make the next exchange fail, even one with a short
      response. */
  lemma OneLostAnother(t: Talk, t2: Talk)
    requires Sensible(t) && Sensible(t2) && |t.r| > SHORT && t.ack.None?
    ensures var s1 := NetRun(NetStart(t, Slave(IDLE, 0, [])), [SlaveGets], t).slave;
      && s1.state == EXT_CMD
      && forall more :: !NetRun(NetStart(t2, s1), more, t2).master.Done?
  {
    var s0 := Slave(IDLE, 0, []);
    var n := NetStart(t, s0);
    assert Enabled(n, SlaveGets) && [SlaveGets][1..] == [] && n.toSlave[1..] == [];
    assert NetRun(n, [SlaveGets], t) == NetStep(n, SlaveGets, t);
    assert NetStep(n, SlaveGets, t).toSlave == [];
    var s1 := NetStep(n, SlaveGets, t).slave;
    hide NetRun, NetStep, Sensible;
    NextIsSwallowed(t, s0, [SlaveGets], t2, []);
    forall more ensures !NetRun(NetStart(t2, s1), more, t2).master.Done? {
      NextIsSwallowed(t, s0, [SlaveGets], t2, more);
    }
  }

  // ----- exchanges that cannot be answered -----

  /** Messages that the master does not take for a consecutive frame. */
  predicate NoneConsecutive(fs: seq<Frame>) {
    forall i :: 0 <= i < |fs| ==> fs[i] != [] && !HighNibble(fs[i], 2)
  }

  predicate NoneFirst(fs: seq<Frame>) {
    forall i :: 0 <= i < |fs| ==> Ignored(fs[i], 0)
  }

  /** How far an unanswerable exchange gets: the command is under way, or the first frame is, or the master
      has received the first frame and waits. */
  predicate Unanswered(n: Net, t: Talk) {
    && Response(t.r) && !Answerable(t) && |n.slave.response| < 0x100
    && (if n.master == START then
          if n.toSlave != [] then n.slave.state == IDLE && n.toSlave == [t.cmd] && Woven(n.toMaster, t.r, 0, 0)
          else n.slave == Slave(EXT_CMD, 1, t.r) && Woven(n.toMaster, t.r, 0, 1)
        else if t.ack.None? then
          && n.master == Running(IDLE, |t.r| - 1, t.r[1..7]) && NoneFirst(n.toMaster)
          && n.toSlave == [] && n.slave == Slave(EXT_CMD, 1, t.r)
        else
          && n.master == Running(EXT_CMD, |t.r| - 1, t.r[1..7]) && NoneConsecutive(n.toMaster)
          && (n.toSlave == [] || (n.slave == Slave(EXT_CMD, 1, t.r) && n.toSlave == [t.ack.value])))
  }

  lemma {:induction false} WovenNone(fs: seq<Frame>, r: seq<Byte>, p: nat)
    requires p <= Count(|r|) && |r| < 0x100 && Woven(fs, r, p, p)
    ensures NoneFirst(fs) && NoneConsecutive(fs)
    decreases |fs|
  {
    if fs != [] { WovenNone(fs[1..], r, p); }
  }

  lemma UnansweredStep(n: Net, c: Choice, t: Talk)
    requires Sensible(t) && Unanswered(n, t) && Enabled(n, c)
    ensures Unanswered(NetStep(n, c, t), t)
  {
    match c
    case SlaveGets => UnansweredSlave(n, t);
    case MasterGets => if n.master == START { UnansweredFirst(n, t); } else { UnansweredLater(n, t); }
    case Noise(f) =>
      if n.master == START { WovenQuiet(n.toMaster, t.r, 0, if n.toSlave != [] then 0 else 1, f); }
  }

  lemma UnansweredSlave(n: Net, t: Talk)
    requires Sensible(t) && Unanswered(n, t) && Enabled(n, SlaveGets)
    ensures Unanswered(NetStep(n, SlaveGets, t), t)
  {
    hide FormatResponse, Woven, MasterStep;
    assert n.toSlave[1..] == [];
    if n.master == START {
      assert Segments(t.r)[0..1] == [FormatResponse(t.r, 0)];
      WovenMore(n.toMaster, t.r, 0, 0, 1);
    }
  }

  lemma UnansweredLater(n: Net, t: Talk)
    requires Sensible(t) && Unanswered(n, t) && Enabled(n, MasterGets) && n.master != START
    ensures Unanswered(NetStep(n, MasterGets, t), t)
  {
    hide SlaveStep, Woven, FormatResponse;
  }

  lemma UnansweredFirst(n: Net, t: Talk)
    requires Sensible(t) && Unanswered(n, t) && Enabled(n, MasterGets) && n.master == START
    ensures Unanswered(NetStep(n, MasterGets, t), t)
  {
    var f := n.toMaster[0];
    if QuietFrame(f) {
      NotASegment(t.r, 0, f);
      IgnoresFrame(t.r, 0, f, t.ack);
    } else {
      FrameAt(t.r, 0);
      WovenNone(n.toMaster[1..], t.r, 1);
      assert f[1] == t.r[0] && f[2..8] == t.r[1..7];
    }
  }

  lemma {:induction false} UnansweredRun(n: Net, cs: seq<Choice>, t: Talk)
    requires Sensible(t) && Unanswered(n, t)
    ensures Unanswered(NetRun(n, cs, t), t) && NetRun(n, cs, t).master.Running?
    decreases |cs|
  {
    assert n.master.Running?;
    hide Unanswered, NetStep, Enabled;
    if cs != [] {
      if Enabled(n, cs[0]) { UnansweredStep(n, cs[0], t); }
      UnansweredRun(if Enabled(n, cs[0]) then NetStep(n, cs[0], t) else n, cs[1..], t);
    }
  }

  /** A slave that still waits for an acknowledge: it takes the command for one, drops it, and is idle. */
  predicate Swallowed(n: Net, t: Talk) {
    && n.master == START && NoneFirst(n.toMaster) && |n.slave.response| < 0x100
    && n.toSlave == if n.slave.state == EXT_CMD then [t.cmd] else []
  }

  lemma SwallowedStep(n: Net, c: Choice, t: Talk)
    requires Sensible(t) && Swallowed(n, t) && Enabled(n, c)
    ensures Swallowed(NetStep(n, c, t), t)
  {
    if c.SlaveGets? { assert n.toSlave[1..] == []; }
  }

  lemma {:induction false} SwallowedRun(n: Net, cs: seq<Choice>, t: Talk)
    requires Sensible(t) && Swallowed(n, t)
    ensures Swallowed(NetRun(n, cs, t), t) && NetRun(n, cs, t).master.Running?
    decreases |cs|
  {
    assert n.master.Running?;
    hide Swallowed, NetStep, Enabled;
    if cs != [] {
      if Enabled(n, cs[0]) { SwallowedStep(n, cs[0], t); }
      SwallowedRun(if Enabled(n, cs[0]) then NetStep(n, cs[0], t) else n, cs[1..], t);
    }
  }

  lemma {:induction false} Completes(n: Net, t: Talk, p: nat, q: nat) returns (cs: seq<Choice>)
    requires Sensible(t) && Snapshot(n, t, p, q)
    ensures (forall c :: c in cs ==> c == SlaveGets || c == MasterGets)
    ensures NetRun(n, cs, t).master == Done(|t.r| - 1, t.r[1..])
    decreases Count(|t.r|) - q, |n.toMaster|
  {
    if p == Count(|t.r|) {
      cs := [];
    } else {
      var c := if n.toMaster != [] then MasterGets else SlaveGets;
      assert Enabled(n, c);
      var p', q' := NetStepKeeps(n, c, t, p, q);
      assert q' <= Count(|t.r|);
      var n' := NetStep(n, c, t);
      hide Snapshot;
      hide Enabled;
      var rest := Completes(n', t, p', q');
      NetRunCons(n, c, rest, t);
      cs := [c] + rest;
    }
  }

  lemma NetRunCons(n: Net, c: Choice, cs: seq<Choice>, t: Talk)
    requires Sensible(t) && Enabled(n, c)
    ensures NetRun(n, [c] + cs, t) == NetRun(NetStep(n, c, t), cs, t)
  {
    assert ([c] + cs)[1..] == cs;
  }

  lemma {:induction false} SegmentUnderWay(fs: seq<Frame>, r: seq<Byte>, p: nat, q: nat) returns (f: (Frame, nat))
    requires p < q <= Count(|r|) && |r| < 0x100 && Woven(fs, r, p, q)
    ensures f.0 in fs && f.1 < Count(|r|) && f.0 == Segments(r)[f.1]
    decreases |fs|
  {
    if fs[0] == Segments(r)[p] {
      f := (fs[0], p);
    } else {
      f := SegmentUnderWay(fs[1..], r, p, q);
    }
  }

  lemma NotQuiet(r: seq<Byte>, f: Frame, p: nat)
    requires Response(r) && p < Count(|r|) && f == Segments(r)[p]
    ensures !QuietFrame(f)
  {
    if QuietFrame(f) { NotASegment(r, p, f); }
  }
}
