/**
 * The stream and port classes behind the step system: the ring of Pyrn3GModem/core/MtxCircBuffer.h, the packet
 * port WANDongleSerialPort, and USBSerialStream on top of them. Mutexes and semaphores are left out: a method
 * runs undisturbed, and what one of its calls may have to wait for is a precondition.
 */
module USBSerialStream {
  import opened Bytes
  import opened SerialSpec

  class MtxCircBuffer {
    const size: nat
    const buf: array<Byte>
    var write: nat
    var read: nat

    ghost predicate Valid()
      reads this, buf
    {
      size == buf.Length && 1 < size && write < size && read < size
    }

    ghost function Contents(): (s: seq<Byte>)
      requires Valid()
      reads this, buf
      ensures |s| < size
    {
      Between(buf[..], read, write)
    }

    constructor (n: nat)
      requires n > 1
      ensures Valid() && Contents() == [] && size == n && fresh(buf)
    {
      size := n;
      buf := new Byte[n](_ => 0);
      write, read := 0, 0;
    }

    method IsFull() returns (r: bool)
      requires Valid()
      ensures r <==> |Contents()| == size - 1
    {
      NextIndex(write, size);
      r := (write + 1) % size == read;
    }

    method IsEmpty() returns (r: bool)
      requires Valid()
      ensures r <==> Contents() == []
    {
      r := read == write;
    }

    method Available() returns (a: nat)
      requires Valid()
      ensures a == |Contents()|
    {
      a := if write >= read then write - read else size - read + write;
    }

    /** Appends k. The result is false, and nothing changes, when the caller has to wait for a reader. */
    method Queue(k: Byte) returns (queued: bool)
      requires Valid()
      modifies buf, `write
      ensures Valid() && queued == (|old(Contents())| < size - 1)
      ensures Contents() == if queued then old(Contents()) + [k] else old(Contents())
    {
      queued := false;
      NextIndex(write, size);
      if (write + 1) % size == read {
        return;
      }
      queued := true;
      ghost var w, before := write, buf[..];
      buf[write] := k;
      write := write + 1;
      write := write % size;
      QueuedAt(before, buf[..], read, w, k);
    }

    method Dequeue() returns (ok: bool, c: Byte)
      requires Valid()
      modifies `read
      ensures Valid() && ok == (old(Contents()) != [])
      ensures ok ==> c == old(Contents())[0] && Contents() == old(Contents())[1..]
      ensures !ok ==> Contents() == []
    {
      c := 0;
      ok := read != write;
      if ok {
        NextIndex(read, size);
        DequeuedAt(buf[..], read, write);
        c := buf[read];
        read := read + 1;
        read := read % size;
      }
    }
  }

  /** The ring's contents, from index read up to index write. */
  function Between(b: seq<Byte>, read: nat, write: nat): (s: seq<Byte>)
    requires read < |b| && write < |b|
    ensures |s| == if read <= write then write - read else |b| - read + write
  {
    if read <= write then b[read..write] else b[read..] + b[..write]
  }

  function Next(i: nat, n: nat): nat {
    if i + 1 == n then 0 else i + 1
  }

  lemma NextIndex(i: nat, n: nat)
    requires i < n
    ensures (i + 1) % n == Next(i, n)
  {
  }

  lemma QueuedAt(b: seq<Byte>, b': seq<Byte>, read: nat, write: nat, k: Byte)
    requires read < |b| && write < |b| == |b'| && b' == b[write := k] && Next(write, |b|) != read
    ensures Between(b', read, Next(write, |b|)) == Between(b, read, write) + [k]
  {
  }

  lemma DequeuedAt(b: seq<Byte>, read: nat, write: nat)
    requires read < |b| && write < |b| && read != write
    ensures Between(b, read, write) == [b[read]] + Between(b, Next(read, |b|), write)
  {
    if read < write {
      assert b[read..write] == [b[read]] + b[read + 1..write];
    } else {
      assert b[read..] == [b[read]] + b[read + 1..];
      assert [b[read]] + b[read + 1..] + b[..write] == [b[read]] + (b[read + 1..] + b[..write]);
      assert read + 1 == |b| ==> b[read + 1..] + b[..write] == b[0..write];
    }
  }

  class WANDongleSerialPort {
    const buf_out: array<Byte>
    var buf_out_len: nat
    const max_out_size: nat
    var lock_tx: bool
    var cb_tx_en: bool
    var cb_tx_pending: bool

    ghost predicate ValidTx()
      reads this
    {
      buf_out.Length == PACKET_SIZE && buf_out_len <= max_out_size && 1 <= max_out_size <= PACKET_SIZE
    }

    /** What has been put into the packet. */
    ghost function Out(): seq<Byte>
      requires ValidTx()
      reads this, buf_out
    {
      buf_out[..buf_out_len]
    }

    constructor (outEpSize: nat)
      requires 1 <= outEpSize
      ensures ValidTx() && Out() == [] && !lock_tx && cb_tx_en && !cb_tx_pending && fresh(buf_out)
      ensures max_out_size == Min(outEpSize, PACKET_SIZE)
    {
      buf_out := new Byte[PACKET_SIZE](_ => 0);
      max_out_size := if outEpSize > PACKET_SIZE then PACKET_SIZE else outEpSize;
      buf_out_len, lock_tx, cb_tx_en, cb_tx_pending := 0, false, true, false;
    }

    /** Room left in the packet, none while one is in flight. */
    method Writeable() returns (res: nat)
      requires ValidTx()
      ensures res == if lock_tx then 0 else max_out_size - |Out()|
    {
      if lock_tx {
        return 0;
      }
      res := max_out_size - buf_out_len;
    }

    method Putc(c: Byte)
      requires ValidTx()
      modifies buf_out, `buf_out_len
      ensures ValidTx()
      ensures Out() == if lock_tx || |old(Out())| == max_out_size then old(Out()) else old(Out()) + [c]
    {
      if !lock_tx {
        if buf_out_len < max_out_size {
          buf_out[buf_out_len] := c;
          buf_out_len := buf_out_len + 1;
        }
      }
    }

    /** Starts the transfer of the packet; -1 while one is in flight. */
    method WritePacket() returns (ret: int)
      modifies `lock_tx
      ensures lock_tx && ret == if old(lock_tx) then -1 else 0
    {
      if lock_tx {
        return -1;
      }
      lock_tx := true;
      return 0;
    }

    /** setupIrq for TxIrq; the result says whether the listener is called now. */
    method SetupTxIrq(en: bool) returns (call: bool)
      modifies `cb_tx_en, `cb_tx_pending
      ensures cb_tx_en == en && call == (en && old(cb_tx_pending)) && cb_tx_pending == (old(cb_tx_pending) && !en)
    {
      cb_tx_en := en;
      call := en && cb_tx_pending;
      if call {
        cb_tx_pending := false;
      }
    }

    /** The transfer has succeeded; the result says whether the listener is called now. */
    method TxHandler() returns (call: bool)
      requires ValidTx()
      modifies `buf_out_len, `lock_tx, `cb_tx_pending
      ensures ValidTx() && Out() == [] && !lock_tx && call == cb_tx_en
      ensures cb_tx_pending == if call then old(cb_tx_pending) else true
    {
      buf_out_len := 0;
      lock_tx := false;
      call := cb_tx_en;
      if !call {
        cb_tx_pending := true;
      }
    }
  }

  /** The sending half of the stream. */
  class USBSerialStream {
    const m_serial: WANDongleSerialPort
    const m_outBuf: MtxCircBuffer
    var m_serialTxFifoEmpty: bool
    ghost var phase: Phase
    ghost var written: seq<Byte>
    ghost var completed: seq<Byte>

    ghost predicate Shape()
      reads this, m_serial, m_outBuf, m_outBuf.buf
    {
      && m_serial.ValidTx() && m_outBuf.Valid() && m_outBuf.size == CIRCBUF_SIZE + 1
      && m_outBuf.buf != m_serial.buf_out
    }

    ghost function Abs(): Tx
      requires Shape()
      reads this, m_serial, m_serial.buf_out, m_outBuf, m_outBuf.buf
    {
      Tx(phase, m_outBuf.Contents(), m_serial.Out(), m_serial.lock_tx, m_serial.cb_tx_en, m_serial.cb_tx_pending,
         m_serialTxFifoEmpty, written, completed)
    }

    ghost predicate Valid()
      reads this, m_serial, m_serial.buf_out, m_outBuf, m_outBuf.buf
    {
      Shape() && TxInv(Abs(), m_serial.max_out_size)
    }

    constructor (serial: WANDongleSerialPort)
      requires serial.ValidTx() && serial.Out() == [] && !serial.lock_tx && serial.cb_tx_en && !serial.cb_tx_pending
      ensures Valid() && Abs() == TX_START && m_serial == serial
    {
      m_serial := serial;
      m_outBuf := new MtxCircBuffer(CIRCBUF_SIZE + 1);
      m_serialTxFifoEmpty := true;
      phase, written, completed := Outside, [], [];
    }

    /** The loop of the callback. */
    method FillPacket()
      requires Shape() && !m_serial.lock_tx
      modifies m_serial`buf_out_len, m_serial.buf_out, m_outBuf`read
      ensures Shape()
      ensures var ring, out := old(m_outBuf.Contents()), old(m_serial.Out());
        var k := Min(m_serial.max_out_size - |out|, |ring|);
        m_outBuf.Contents() == ring[k..] && m_serial.Out() == out + ring[..k]
    {
      hide Between;
      ghost var ring, out, n := m_outBuf.Contents(), m_serial.Out(), 0;
      var room := m_serial.Writeable();
      var empty := m_outBuf.IsEmpty();
      while room > 0 && !empty
        invariant Shape() && n <= |ring| && m_outBuf.Contents() == ring[n..] && m_serial.Out() == out + ring[..n]
        invariant room == m_serial.max_out_size - |out| - n && (empty <==> n == |ring|)
        decreases room
      {
        MoveOne();
        OneMoved(out, ring, n);
        n := n + 1;
        room := m_serial.Writeable();
        empty := m_outBuf.IsEmpty();
      }
    }

    method MoveOne()
      requires Shape() && !m_serial.lock_tx && m_outBuf.Contents() != [] && |m_serial.Out()| < m_serial.max_out_size
      modifies m_serial`buf_out_len, m_serial.buf_out, m_outBuf`read
      ensures Shape() && m_outBuf.Contents() == old(m_outBuf.Contents())[1..]
      ensures m_serial.Out() == old(m_serial.Out()) + [old(m_outBuf.Contents())[0]]
    {
      hide Between;
      var ok, c := m_outBuf.Dequeue();
      m_serial.Putc(c);
    }

    /** The callback: fills the packet from the ring and starts it. */
    method Writeable()
      requires Shape() && !m_serial.lock_tx
      modifies this`m_serialTxFifoEmpty, m_serial`buf_out_len, m_serial`lock_tx, m_serial.buf_out, m_outBuf`read
      ensures Shape() && Abs() == SerialSpec.Writeable(old(Abs()), m_serial.max_out_size)
    {
      var empty := m_outBuf.IsEmpty();
      if empty {
        m_serialTxFifoEmpty := true;
      } else {
        m_serialTxFifoEmpty := false;
        FillPacket();
        var ret := m_serial.WritePacket();
      }
    }

    /** setupWriteableISR; at is where the user thread then is. */
    method SetupWriteableISR(en: bool, ghost at: Phase)
      requires Shape() && (en && m_serial.cb_tx_pending ==> !m_serial.lock_tx)
      modifies this`m_serialTxFifoEmpty, this`phase, m_serial, m_serial.buf_out, m_outBuf`read
      ensures Shape()
      ensures var t := old(Abs()).(phase := at, en := en);
        Abs() == if en && t.pending then SerialSpec.Writeable(t.(pending := false), m_serial.max_out_size) else t
    {
      phase := at;
      var call := m_serial.SetupTxIrq(en);
      if call {
        Writeable();
      }
    }

    /** A packet has gone out, whoever holds the user thread meanwhile. */
    method TxHandler()
      requires Valid() && m_serial.lock_tx
      modifies this`m_serialTxFifoEmpty, this`completed, m_serial, m_serial.buf_out, m_outBuf`read
      ensures Valid() && Abs() == TxNext(old(Abs()), Complete, m_serial.max_out_size)
    {
      hide TxInv;
      TxKeeps(Abs(), Complete, m_serial.max_out_size);
      completed := completed + m_serial.Out();
      var call := m_serial.TxHandler();
      if call {
        Writeable();
      }
    }

    /** Free places in the ring; asking leaves everything as it was. */
    method Space() returns (len: nat)
      requires Valid() && phase == Outside
      modifies this`m_serialTxFifoEmpty, this`phase, m_serial, m_serial.buf_out, m_outBuf`read
      ensures Valid() && Abs() == old(Abs()) && len == CIRCBUF_SIZE - |m_outBuf.Contents()|
    {
      SetupWriteableISR(false, Probing);
      var a := m_outBuf.Available();
      len := CIRCBUF_SIZE - a;
      SetupWriteableISR(true, Outside);
    }

    /** One pass of the loop of write(): takes as much of buf as the ring has room for, and starts a packet
        if none is under way. */
    method WritePass(buf: seq<Byte>) returns (writeLen: nat)
      requires Valid() && phase == Outside
      modifies this, m_serial, m_serial.buf_out, m_outBuf, m_outBuf.buf
      ensures Valid() && phase == Outside
      ensures writeLen == Min(CIRCBUF_SIZE - |old(m_outBuf.Contents())|, |buf|)
      ensures written == old(written) + buf[..writeLen] && completed == old(completed)
      ensures Abs() == Passed(old(Abs()), buf[..writeLen], m_serial.max_out_size)
      ensures m_outBuf.Contents() != [] ==> m_serial.lock_tx
    {
      hide TxInv;
      hide SerialSpec.Writeable;
      hide Between;
      var s := Space();
      writeLen := Min(s, |buf|);
      ghost var max := m_serial.max_out_size;
      PassKeeps(Abs(), buf[..writeLen], max);
      SetupWriteableISR(false, Filling);
      QueueAll(buf[..writeLen]);
      var a := m_outBuf.Available();
      if a != 0 && m_serialTxFifoEmpty {
        Writeable();
      }
      phase := Kicked;
      SetupWriteableISR(true, Outside);
      assert Abs() == Passed(old(Abs()), buf[..writeLen], max);
      LeavesNothingBehind(old(Abs()), buf[..writeLen], max);
    }

    method QueueAll(bytes: seq<Byte>)
      requires Shape() && |m_outBuf.Contents()| + |bytes| <= CIRCBUF_SIZE
      modifies m_outBuf.buf, m_outBuf`write, this`written
      ensures Shape() && Abs() == Filled(old(Abs()), bytes)
    {
      hide Between;
      ghost var ring, before, i := m_outBuf.Contents(), written, 0;
      for k := 0 to |bytes|
        invariant Shape() && m_outBuf.Contents() == ring + bytes[..k] && written == before + bytes[..k]
      {
        var queued := m_outBuf.Queue(bytes[k]);
        OneMoved(ring, bytes, k);
        OneMoved(before, bytes, k);
        written := written + [bytes[k]];
      }
      assert bytes[..|bytes|] == bytes;
    }
  }

  // ----- the receiving half, which shares no field with the sending one -----

  class WANDongleSerialPortIn {
    const buf_in: array<Byte>
    var buf_in_len: nat
    var buf_in_read_pos: nat
    var lock_rx: bool
    var cb_rx_en: bool
    var cb_rx_pending: bool

    ghost predicate ValidRx()
      reads `buf_in_read_pos, `buf_in_len
    {
      buf_in.Length == PACKET_SIZE && buf_in_read_pos <= buf_in_len <= PACKET_SIZE
    }

    /** What is left of the last packet. */
    ghost function Unread(): seq<Byte>
      requires ValidRx()
      reads `buf_in_read_pos, `buf_in_len, buf_in
    {
      buf_in[buf_in_read_pos..buf_in_len]
    }

    constructor ()
      ensures ValidRx() && Unread() == [] && lock_rx && cb_rx_en && !cb_rx_pending && fresh(buf_in)
    {
      buf_in := new Byte[PACKET_SIZE](_ => 0);
      buf_in_len, buf_in_read_pos := 0, 0;
      lock_rx, cb_rx_en, cb_rx_pending := true, true, false;  // connect() has started the first transfer
    }

    method Readable() returns (res: nat)
      requires ValidRx()
      ensures res == if lock_rx then 0 else |Unread()|
    {
      if lock_rx {
        return 0;
      }
      res := buf_in_len - buf_in_read_pos;
    }

    method Getc() returns (c: Byte)
      requires ValidRx()
      modifies `buf_in_read_pos
      ensures ValidRx()
      ensures if lock_rx || old(Unread()) == [] then c == 0 && Unread() == old(Unread())
              else c == old(Unread())[0] && Unread() == old(Unread())[1..]
    {
      c := 0;
      if !lock_rx {
        if buf_in_read_pos < buf_in_len {
          c := buf_in[buf_in_read_pos];
          buf_in_read_pos := buf_in_read_pos + 1;
        }
      }
    }

    method ReadPacket() returns (ret: int)
      modifies `lock_rx
      ensures lock_rx && ret == if old(lock_rx) then -1 else 0
    {
      if lock_rx {
        return -1;
      }
      lock_rx := true;
      return 0;
    }

    method SetupRxIrq(en: bool) returns (call: bool)
      modifies `cb_rx_en, `cb_rx_pending
      ensures cb_rx_en == en && call == (en && old(cb_rx_pending)) && cb_rx_pending == (old(cb_rx_pending) && !en)
    {
      cb_rx_en := en;
      call := en && cb_rx_pending;
      if call {
        cb_rx_pending := false;
      }
    }

    /** The transfer has brought packet p; the result says whether the listener is called now. */
    method RxHandler(p: seq<Byte>) returns (call: bool)
      requires ValidRx() && |p| <= PACKET_SIZE
      modifies buf_in, `buf_in_read_pos, `buf_in_len, `lock_rx, `cb_rx_pending
      ensures ValidRx() && Unread() == p && !lock_rx && call == cb_rx_en
      ensures cb_rx_pending == if call then old(cb_rx_pending) else true
    {
      Memcpy(buf_in, 0, p);
      buf_in_read_pos := 0;
      buf_in_len := |p|;
      lock_rx := false;
      call := cb_rx_en;
      if !call {
        cb_rx_pending := true;
      }
    }
  }

  class USBSerialStreamIn {
    const m_serial: WANDongleSerialPortIn
    const m_inBuf: MtxCircBuffer
    ghost var reading: bool
    ghost var runner: Runner
    ghost var received: seq<Byte>
    ghost var delivered: seq<Byte>

    ghost predicate Shape()
      reads this, m_serial, m_inBuf, m_inBuf.buf
    {
      m_serial.ValidRx() && m_inBuf.Valid() && m_inBuf.size == CIRCBUF_SIZE + 1 && m_inBuf.buf != m_serial.buf_in
    }

    ghost function Abs(): Rx
      requires Shape()
      reads this, m_serial, m_serial.buf_in, m_inBuf, m_inBuf.buf
    {
      Rx(reading, m_inBuf.Contents(), m_serial.Unread(), m_serial.lock_rx, m_serial.cb_rx_en, m_serial.cb_rx_pending,
         runner, received, delivered)
    }

    ghost predicate Valid()
      reads this, m_serial, m_serial.buf_in, m_inBuf, m_inBuf.buf
    {
      Shape() && RxInv(Abs())
    }

    constructor (serial: WANDongleSerialPortIn)
      requires serial.ValidRx() && serial.Unread() == [] && serial.lock_rx && serial.cb_rx_en && !serial.cb_rx_pending
      ensures Valid() && Abs() == RX_START && m_serial == serial
    {
      m_serial := serial;
      m_inBuf := new MtxCircBuffer(CIRCBUF_SIZE + 1);
      reading, runner, received, delivered := false, Nobody, [], [];
    }

    /** The callback readable(): unpacks the packet and starts the next transfer. The result is false when it
        has filled the ring and has to wait for a reader, whose turn it then is; it goes on with another call. */
    method Readable() returns (through: bool)
      requires Valid() && runner != Nobody
      modifies this`runner, m_serial`buf_in_read_pos, m_serial`lock_rx, m_inBuf.buf, m_inBuf`write
      ensures Valid() && through == HasRoom(old(Abs())) && Abs() == Unpacked(old(Abs()))
    {
      hide RxInv, Between, WANDongleSerialPortIn.Unread, MtxCircBuffer.Contents;
      NotReceiving(Abs());
      assert RxInv(Unpacked(Abs())) by { CallbackUnpacks(Abs()); }
      through := UnpackWhatFits();
      if through {
        var ret := m_serial.ReadPacket();
        runner := Nobody;
      }
    }

    method UnpackWhatFits() returns (through: bool)
      requires Shape() && !m_serial.lock_rx
      modifies m_serial`buf_in_read_pos, m_inBuf.buf, m_inBuf`write
      ensures Shape()
      ensures var ring, left := old(m_inBuf.Contents()), old(m_serial.Unread());
        && through == (|ring| + |left| <= CIRCBUF_SIZE)
        && (through ==> m_inBuf.Contents() == ring + left && m_serial.Unread() == [])
        && (!through ==>
              var k := CIRCBUF_SIZE - |ring|; m_inBuf.Contents() == ring + left[..k] && m_serial.Unread() == left[k..])
    {
      hide Between;
      ghost var ring, left, n := m_inBuf.Contents(), m_serial.Unread(), 0;
      var more := m_serial.Readable();
      while more > 0
        invariant Shape() && n <= |left| && |ring| + n <= CIRCBUF_SIZE
        invariant m_serial.Unread() == left[n..] && m_inBuf.Contents() == ring + left[..n] && more == |left| - n
        decreases more
      {
        var full := m_inBuf.IsFull();
        if full {
          return false;
        }
        UnpackOne();
        OneMoved(ring, left, n);
        n := n + 1;
        more := m_serial.Readable();
      }
      assert left[..|left|] == left;
      return true;
    }

    method UnpackOne()
      requires Shape() && !m_serial.lock_rx && |m_inBuf.Contents()| < CIRCBUF_SIZE && m_serial.Unread() != []
      modifies m_serial`buf_in_read_pos, m_inBuf.buf, m_inBuf`write
      ensures Shape() && m_serial.Unread() == old(m_serial.Unread())[1..]
      ensures m_inBuf.Contents() == old(m_inBuf.Contents()) + [old(m_serial.Unread())[0]]
    {
      hide Between;
      var c := m_serial.Getc();
      var queued := m_inBuf.Queue(c);
    }

    /** A packet has come in; without the callback enabled it waits in the port. */
    method RxHandler(p: seq<Byte>)
      requires Valid() && m_serial.lock_rx && |p| <= PACKET_SIZE
      modifies this`runner, this`received, m_serial, m_serial.buf_in, m_inBuf.buf, m_inBuf`write
      ensures Valid()
      ensures var r := RxNext(old(Abs()), Arrive(p)); Abs() == if r.runner == UsbThread then Unpacked(r) else r
    {
      hide Unpacked, Between;
      RxKeeps(Abs(), Arrive(p));
      received := received + p;
      var call := m_serial.RxHandler(p);
      if call {
        runner := UsbThread;
        var through := Readable();
      }
    }

    /** setupReadableISR. Enabling the callback runs it on the user's thread if a packet is pending; the result
        is false, and the stream is stuck, when the packet is larger than the room. */
    method SetupReadableISR(en: bool) returns (through: bool)
      requires Valid() && runner != UserThread && reading == en
      modifies this`runner, this`reading, m_serial, m_inBuf.buf, m_inBuf`write
      ensures Valid() && reading == !en
      ensures var r := RxNext(old(Abs()), if en then Unmask else Mask);
        Abs() == if r.runner == UserThread then Unpacked(r) else r
      ensures through == !(en && old(m_serial.cb_rx_pending) && !HasRoom(old(Abs())))
      ensures !through ==> Stuck(Abs())
    {
      hide Unpacked, Between;
      RxKeeps(Abs(), if en then Unmask else Mask);
      through := true;
      reading := !en;
      var call := m_serial.SetupRxIrq(en);
      if call {
        runner := UserThread;
        if !HasRoom(Abs()) { CaughtIsStuck(Abs()); }
        through := Readable();
      }
    }

    /** Bytes waiting in the ring. */
    method Available() returns (len: nat)
      requires Valid() && !reading && runner != UserThread
      modifies this`runner, this`reading, m_serial, m_inBuf.buf, m_inBuf`write
      ensures Valid() && Abs() == old(Abs()) && len == |m_inBuf.Contents()|
    {
      var through := SetupReadableISR(false);
      len := m_inBuf.Available();
      through := SetupReadableISR(true);
    }

    /** read() once data is available: the oldest bytes of the ring, at most maxLength of them. */
    method Read(maxLength: nat) returns (bytes: seq<Byte>)
      requires Valid() && !reading && runner != UserThread
      modifies this`runner, this`reading, this`delivered, m_serial, m_inBuf, m_inBuf.buf
      ensures Valid()
      ensures var r := old(Abs());
        var n := Min(|r.ring|, maxLength);
        bytes == r.ring[..n] && Abs() == r.(ring := r.ring[n..], read := r.read + bytes)
    {
      hide RxInv, Unpacked, HasRoom, Stuck, Between;
      var a := Available();
      var readLen := Min(a, maxLength);
      ReadKeeps(Abs(), readLen);
      var through := SetupReadableISR(false);
      bytes := TakeFromRing(readLen);
      delivered := delivered + bytes;
      MaskedRead(old(Abs()), readLen);
      through := SetupReadableISR(true);
    }

    method TakeFromRing(readLen: nat) returns (bytes: seq<Byte>)
      requires Shape() && readLen <= |m_inBuf.Contents()|
      modifies m_inBuf`read
      ensures Shape()
      ensures bytes == old(m_inBuf.Contents())[..readLen] && m_inBuf.Contents() == old(m_inBuf.Contents())[readLen..]
    {
      hide Between;
      bytes := [];
      ghost var ring := m_inBuf.Contents();
      for i := 0 to readLen
        invariant Shape() && bytes == ring[..i] && m_inBuf.Contents() == ring[i..]
      {
        var ok, c := m_inBuf.Dequeue();
        assert ring[..i + 1] == ring[..i] + [ring[i]];
        bytes := bytes + [c];
      }
    }
  }

  lemma OneMoved(ring: seq<Byte>, left: seq<Byte>, n: nat)
    requires n < |left|
    ensures left[n..][0] == left[n] && left[n..][1..] == left[n + 1..]
    ensures (ring + left[..n]) + [left[n]] == ring + left[..n + 1]
  {
  }

  /** Reading n bytes keeps the receiver's invariant; outside of a read no callback is pending. */
  lemma ReadKeeps(r: Rx, n: nat)
    requires RxInv(r) && n <= |r.ring|
    ensures RxInv(r.(ring := r.ring[n..], read := r.read + r.ring[..n]))
    ensures !r.reading ==> r.en && !r.pending
  {
    Regroup(r.read, r.ring, n, r.bufIn);
  }

  /** Taking bytes while the callback is disabled is a state of the system too. */
  lemma MaskedRead(r: Rx, n: nat)
    requires RxInv(r) && !r.reading && r.runner != UserThread && n <= |r.ring|
    ensures var r1 := RxNext(r, Mask);
      RxInv(r1.(ring := r.ring[n..], read := r.read + r.ring[..n]))
  {
    RxKeeps(r, Mask);
    Regroup(r.read, r.ring, n, r.bufIn);
  }

  lemma NotReceiving(r: Rx)
    requires RxInv(r) && r.runner != Nobody
    ensures !r.lock
  {
  }

  lemma Regroup(read: seq<Byte>, ring: seq<Byte>, n: nat, left: seq<Byte>)
    requires n <= |ring|
    ensures read + ring + left == (read + ring[..n]) + ring[n..] + left
  {
    assert ring == ring[..n] + ring[n..];
    assert read + ring == (read + ring[..n]) + ring[n..];
  }

  /** The ring after the writer has queued bytes. */
  function Filled(t: Tx, bytes: seq<Byte>): Tx {
    t.(ring := t.ring + bytes, written := t.written + bytes)
  }

  /** A whole pass as steps of the system. */
  function Passed(t: Tx, bytes: seq<Byte>, max: nat): Tx
    requires t.phase == Outside
  {
    TxNext(TxNext(Filled(TxNext(t, Disable, max), bytes), Kick, max), Enable, max)
  }

  lemma {:induction false} FillKeeps(t: Tx, bytes: seq<Byte>, max: nat)
    requires TxInv(t, max) && t.phase == Filling && |t.ring| + |bytes| <= CIRCBUF_SIZE
    ensures TxInv(Filled(t, bytes), max)
    decreases |bytes|
  {
    if bytes == [] {
      assert t.ring + [] == t.ring && t.written + [] == t.written;
    } else {
      TxKeeps(t, Enqueue(bytes[0]), max);
      FillKeeps(TxNext(t, Enqueue(bytes[0]), max), bytes[1..], max);
      assert t.ring + [bytes[0]] + bytes[1..] == t.ring + bytes;
      assert t.written + [bytes[0]] + bytes[1..] == t.written + bytes;
    }
  }

  lemma PassKeeps(t: Tx, bytes: seq<Byte>, max: nat)
    requires TxInv(t, max) && t.phase == Outside && |t.ring| + |bytes| <= CIRCBUF_SIZE
    ensures TxInv(Passed(t, bytes, max), max)
    ensures var t1 := Filled(TxNext(t, Disable, max), bytes);
      (t1.ring != [] && t1.fifoEmpty ==> !t1.lock) && !t1.pending && !TxNext(t1, Kick, max).pending
  {
    TxKeeps(t, Disable, max);
    var t1 := Filled(TxNext(t, Disable, max), bytes);
    FillKeeps(TxNext(t, Disable, max), bytes, max);
    TxKeeps(t1, Kick, max);
    TxKeeps(TxNext(t1, Kick, max), Enable, max);
  }

  lemma LeavesNothingBehind(t: Tx, bytes: seq<Byte>, max: nat)
    requires TxInv(t, max) && t.phase == Outside && |t.ring| + |bytes| <= CIRCBUF_SIZE
    ensures var t' := Passed(t, bytes, max);
      && (t'.ring != [] ==> t'.lock) && t'.phase == Outside
      && t'.written == t.written + bytes && t'.completed == t.completed
  {
    PassKeeps(t, bytes, max);
  }
}
