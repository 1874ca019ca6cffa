/**
 * Results on their way to the server (ComHandler.cpp): AddResults queues them as type / 16-bit length /
 * data records, DoServerRequest drains the queue into frames of at most 2096 bytes.
 */
module ComHandler {
  import opened Bytes
  import opened Wrappers
  import R = RamCircBuff

  const HEADER := 60      // sizeof(frameHdr): imei[15], idCfg[40], a uint32 time, newSess
  const MAX_FRAME := 2096 // COM_HANDLER_BUFF_SIZE, and the literal in DoServerRequest

  datatype Result = Result(kind: Byte, data: seq<Byte>)

  predicate Short(r: Result) {
    |r.data| + 3 <= MAX_FRAME
  }

  /** The record AddResults makes of a result. */
  function Tlv(r: Result): (s: seq<Byte>)
    requires Short(r)
    ensures |s| == |r.data| + 3
  {
    [r.kind, |r.data| % 0x100, |r.data| / 0x100 % 0x100] + r.data
  }

  function Tlvs(rs: seq<Result>): (q: seq<R.Record>)
    requires forall r :: r in rs ==> Short(r)
    ensures |q| == |rs| && forall i :: 0 <= i < |q| ==> q[i] == Tlv(rs[i])
  {
    seq(|rs|, i requires 0 <= i < |rs| => assert rs[i] in rs; Tlv(rs[i]))
  }

  function Concat(q: seq<seq<Byte>>): seq<Byte> {
    if q == [] then [] else q[0] + Concat(q[1..])
  }

  /** What a server reads back from the body of a frame: None unless it is a whole number of records. */
  function Parse(s: seq<Byte>): Option<seq<Result>> {
    if s == [] then Some([])
    else if |s| < 3 || |s| < 3 + Word16(s, 1) then None
    else
      var n := 3 + Word16(s, 1);
      match Parse(s[n..])
      case None => None
      case Some(rest) => Some([Result(s[0], s[3..n])] + rest)
  }

  lemma ParseOne(r: Result, rest: seq<Byte>)
    requires Short(r) && Parse(rest).Some?
    ensures Parse(Tlv(r) + rest) == Some([r] + Parse(rest).value)
  {
    hide Tlv;
    TlvParts(r);
    var t := Tlv(r);
    var s := t + rest;
    assert s[0] == t[0] && s[1] == t[1] && s[2] == t[2];
    assert Word16(s, 1) == |r.data|;
    assert s[|t|..] == rest && s[3..|t|] == r.data;
  }

  lemma TlvParts(r: Result)
    requires Short(r)
    ensures Tlv(r)[0] == r.kind && Word16(Tlv(r), 1) == |r.data| && Tlv(r)[3..] == r.data
  {
  }

  /** What a result queued behind others becomes: its type, its length with the lower byte first, its data. */
  lemma RecordBytes(rs: seq<Result>, r: Result)
    requires forall x :: x in rs + [r] ==> Short(x)
    ensures forall x :: x in rs ==> x in rs + [r]
    ensures Tlvs(rs + [r]) == Tlvs(rs) + [[r.kind, |r.data| % 0x100, |r.data| / 0x100] + r.data]
  {
    assert forall x :: x in rs ==> x in rs + [r];
    assert r in rs + [r];
  }

  lemma {:induction false} ParseUndoesTlvs(rs: seq<Result>)
    requires forall r :: r in rs ==> Short(r)
    ensures Parse(Concat(Tlvs(rs))) == Some(rs)
  {
    if rs != [] {
      hide Parse;
      assert Tlvs(rs)[1..] == Tlvs(rs[1..]);
      ParseUndoesTlvs(rs[1..]);
      ParseOne(rs[0], Concat(Tlvs(rs[1..])));
      assert [rs[0]] + rs[1..] == rs;
    }
  }

  // ----- frames -----

  function Size(q: seq<R.Record>): nat {
    if q == [] then 0 else |q[0]| + Size(q[1..])
  }

  /** How many records of q the inner loop copies behind used bytes of frame. */
  function Fit(q: seq<R.Record>, used: nat): (k: nat)
    ensures k <= |q| && used + Size(q[..k]) <= if used > MAX_FRAME then used else MAX_FRAME
    ensures k < |q| ==> q[k] == [] || used + Size(q[..k]) + |q[k]| > MAX_FRAME
  {
    if q == [] || q[0] == [] || |q[0]| + used > MAX_FRAME then 0
    else
      var k := Fit(q[1..], used + |q[0]|);
      assert q[..k + 1][1..] == q[1..][..k];
      k + 1
  }

  /** Every record is non-empty and fits a frame on its own. */
  predicate Sendable(q: seq<R.Record>) {
    forall r :: r in q ==> 0 < |r| <= 2036
  }

  /** The records of the successive frames. */
  function Frames(q: seq<R.Record>): (fs: seq<seq<R.Record>>)
    requires Sendable(q)
    ensures fs != []
    decreases |q|
  {
    var k := Fit(q, HEADER);
    if k == |q| then [q] else [q[..k]] + Frames(q[k..])
  }

  function Flatten(fs: seq<seq<R.Record>>): seq<R.Record> {
    if fs == [] then [] else fs[0] + Flatten(fs[1..])
  }

  /** The outer loop gets on exactly when the oldest record fits a frame of its own. */
  lemma ProgressIff(q: seq<R.Record>)
    requires q != [] && q[0] != []
    ensures Fit(q, HEADER) > 0 <==> |q[0]| <= MAX_FRAME - HEADER
  {
  }

  /** Framing loses, splits and reorders no record, and every frame respects the limit. */
  lemma {:induction false} FramesKeepRecords(q: seq<R.Record>)
    requires Sendable(q)
    ensures Flatten(Frames(q)) == q
    ensures forall f :: f in Frames(q) ==> 60 + Size(f) <= 2096
    decreases |q|
  {
    hide Fit, Frames, Sendable, Size, Flatten;
    FramesStep(q);
    var k := Fit(q, HEADER);
    if k < |q| {
      SendableRest(q, k);
      FramesKeepRecords(q[k..]);
      FlattenCons(q[..k], Frames(q[k..]));
    } else {
      FlattenCons(q, []);
      FlattenNone();
      assert q[..k] == q;
    }
  }

  lemma SendableRest(q: seq<R.Record>, k: nat)
    requires Sendable(q) && k <= |q|
    ensures Sendable(q[k..])
  {
  }

  lemma FlattenNone()
    ensures Flatten([]) == []
  {
  }

  lemma FlattenCons(x: seq<R.Record>, fs: seq<seq<R.Record>>)
    ensures Flatten([x] + fs) == x + Flatten(fs)
  {
    assert ([x] + fs)[1..] == fs;
  }

  lemma {:induction false} ConcatSize(q: seq<R.Record>)
    ensures |Concat(q)| == Size(q)
  {
    if q != [] { ConcatSize(q[1..]); }
  }

  /** The records of one frame body decode on their own, and all bodies together give back all results. */
  function ParseAll(fs: seq<seq<R.Record>>): Option<seq<Result>> {
    if fs == [] then Some([])
    else
      match (Parse(Concat(fs[0])), ParseAll(fs[1..]))
      case (Some(x), Some(y)) => Some(x + y)
      case _ => None
  }

  lemma {:induction false} BodiesDecode(fs: seq<seq<R.Record>>, rs: seq<Result>)
    requires (forall r :: r in rs ==> Short(r)) && Flatten(fs) == Tlvs(rs)
    ensures ParseAll(fs) == Some(rs)
  {
    hide Parse;
    hide Concat;
    if fs != [] {
      var n := |fs[0]|;
      assert fs[0] == Tlvs(rs)[..n] == Tlvs(rs[..n]);
      assert Flatten(fs[1..]) == Tlvs(rs)[n..] == Tlvs(rs[n..]);
      ParseUndoesTlvs(rs[..n]);
      BodiesDecode(fs[1..], rs[n..]);
      assert rs == rs[..n] + rs[n..];
    }
  }

  /** End to end: what AddResults accepted comes out of the drained frames, complete and in order. */
  lemma ResultsSurvive(rs: seq<Result>)
    requires (forall r :: r in rs ==> Short(r)) && Sendable(Tlvs(rs))
    ensures ParseAll(Frames(Tlvs(rs))) == Some(rs)
  {
    FramesKeepRecords(Tlvs(rs));
    BodiesDecode(Frames(Tlvs(rs)), rs);
  }

  /** With the 1024-byte store of the firmware one frame always holds everything. */
  lemma OneFrameSuffices(rs: seq<Result>)
    requires forall r :: r in rs ==> Short(r)
    requires R.Sized(Tlvs(rs)) && R.Room(Tlvs(rs)) <= 1024
    ensures Sendable(Tlvs(rs)) && Frames(Tlvs(rs)) == [Tlvs(rs)]
  {
    var q := Tlvs(rs);
    RoomIsSize(q);
    forall r | r in q ensures 0 < |r| <= MAX_FRAME - HEADER {
      var i :| 0 <= i < |q| && q[i] == r;
      SizeBounds(q, i);
    }
    FitsAll(q, HEADER);
  }

  lemma {:induction false} RoomIsSize(q: seq<R.Record>)
    requires R.Sized(q)
    ensures R.Room(q) == 4 * |q| + Size(q)
  {
    if q != [] { RoomIsSize(q[1..]); }
  }

  lemma {:induction false} SizeBounds(q: seq<R.Record>, i: nat)
    requires i < |q|
    ensures |q[i]| <= Size(q)
  {
    if i > 0 { SizeBounds(q[1..], i - 1); }
  }

  lemma {:induction false} FitsAll(q: seq<R.Record>, used: nat)
    requires used + Size(q) <= MAX_FRAME && forall r :: r in q ==> 0 < |r|
    ensures Fit(q, used) == |q|
  {
    if q != [] {
      assert q[0] in q;
      FitsAll(q[1..], used + |q[0]|);
    }
  }

  /** The effect of copying record k. */
  lemma Snoc(q: seq<R.Record>, k: nat, used: nat)
    requires k < |q| && 0 < |q[k]| <= MAX_FRAME - used
    ensures Size(q[..k + 1]) == Size(q[..k]) + |q[k]|
    ensures Concat(q[..k + 1]) == Concat(q[..k]) + q[k]
    ensures Fit(q[k..], used) == 1 + Fit(q[k + 1..], used + |q[k]|)
  {
    assert q[..k + 1] == q[..k] + [q[k]];
    assert q[k..][1..] == q[k + 1..];
    SnocConcat(q[..k], q[k]);
  }

  lemma {:induction false} SnocConcat(q: seq<R.Record>, r: R.Record)
    ensures Concat(q + [r]) == Concat(q) + r && Size(q + [r]) == Size(q) + |r|
  {
    if q == [] {
      assert [] + [r] == [r] && [r][1..] == [];
    } else {
      assert (q + [r])[1..] == q[1..] + [r];
      SnocConcat(q[1..], r);
    }
  }

  /** When the inner loop breaks. */
  lemma FitStops(q: seq<R.Record>, used: nat)
    ensures q == [] || q[0] == [] || |q[0]| + used > MAX_FRAME ==> Fit(q, used) == 0
    ensures Size([]) == 0 && Concat([]) == []
  {
  }

  /** The effect of copying a record behind the first n bytes. */
  lemma Joined(before: seq<Byte>, after: seq<Byte>, n: nat, r: R.Record)
    requires n + |r| <= |before| == |after|
    requires forall x :: 0 <= x < |after| ==> after[x] == if n <= x < n + |r| then r[x - n] else before[x]
    ensures after[..n + |r|] == before[..n] + r
  {
  }

  lemma RestOfTlvs(rs: seq<Result>)
    requires rs != [] && forall r :: r in rs ==> Short(r)
    ensures Tlvs(rs)[1..] == Tlvs(rs[1..])
  {
  }

  lemma FramesStep(q: seq<R.Record>)
    requires Sendable(q)
    ensures var k := Fit(q, HEADER);
      && (q != [] ==> k > 0)
      && (forall r :: r in q[k..] ==> r in q)
      && Frames(q) == [q[..k]] + if k < |q| then Frames(q[k..]) else []
  {
    if q != [] { ProgressIff(q); }
    assert q[..|q|] == q;
  }

  /** What is left in the store once n frames have been built. */
  function Drained(q: seq<R.Record>, n: nat): seq<R.Record>
    decreases n
  {
    if n == 0 then q else Drained(q[Fit(q, HEADER)..], n - 1)
  }

  /** The outer loop comes to an end exactly when every queued record fits a frame of its own; otherwise it
      posts frames for ever. */
  lemma DrainsIff(q: seq<R.Record>)
    requires forall r :: r in q ==> r != []
    ensures (exists n :: Drained(q, n) == []) <==> Sendable(q)
  {
    if Sendable(q) {
      SendableDrains(q, |q|);
    } else {
      var i :| 0 <= i < |q| && !(0 < |q[i]| <= MAX_FRAME - HEADER);
      assert q[i] in q;
      forall n ensures Drained(q, n) != [] { OversizeStays(q, i, n); }
    }
  }

  lemma {:induction false} SendableDrains(q: seq<R.Record>, n: nat)
    requires Sendable(q) && |q| <= n
    ensures Drained(q, n) == []
    decreases n
  {
    if n > 0 {
      if q != [] { ProgressIff(q); }
      SendableDrains(q[Fit(q, HEADER)..], n - 1);
    }
  }

  lemma {:induction false} OversizeStays(q: seq<R.Record>, i: nat, n: nat)
    requires i < |q| && |q[i]| > MAX_FRAME - HEADER
    ensures Drained(q, n) != []
    decreases n
  {
    if n > 0 {
      var k := Fit(q, HEADER);
      if k > i { SizeBounds(q[..k], i); }
      OversizeStays(q[k..], i - k, n - 1);
    }
  }

  // ----- the handler -----

  /** A frame as the server takes it apart: the product's number, the id of the configuration, the time with its least
      significant byte first, '1' if the frame opens a session and '0' if not, and the records. */
  predicate Framed(frame: seq<Byte>, imei: seq<Byte>, idCfg: seq<Byte>, time: nat, opens: bool, body: seq<Byte>) {
    && |frame| == 60 + |body|
    && frame[..15] == imei && frame[15..55] == idCfg
    && Word32(frame, 55) == time
    && frame[59] == (if opens then 0x31 else 0x30)
    && frame[60..] == body
  }

  lemma FramedBody(hdr: seq<Byte>, imei: seq<Byte>, idCfg: seq<Byte>, time: nat, opens: bool, body: seq<Byte>)
    requires Framed(hdr, imei, idCfg, time, opens, [])
    ensures Framed(hdr + body, imei, idCfg, time, opens, body)
  {
    var frame := hdr + body;
    assert frame[..15] == hdr[..15] && frame[15..55] == hdr[15..55] && frame[60..] == body;
  }

  class ComHandler {
    const TXBuff: array<Byte>
    const dataStorage: R.RamCircBuff
    const imei: seq<Byte>
    var idCfg: seq<Byte>
    var first: bool
    var currLen: nat
    ghost var pending: seq<Result>  // accepted, not yet sent

    ghost predicate Valid()
      reads `pending, `idCfg, dataStorage, dataStorage.b
    {
      && dataStorage.Valid() && TXBuff.Length == MAX_FRAME && TXBuff != dataStorage.b
      && |imei| == 15 && |idCfg| == 40
      && (forall r :: r in pending ==> Short(r)) && dataStorage.queue == Tlvs(pending)
    }

    constructor (product: seq<Byte>, tx: array<Byte>, storage: R.RamCircBuff)
      requires |product| == 15 && tx.Length == MAX_FRAME
      requires storage.Valid() && storage.queue == [] && tx != storage.b
      ensures Valid() && pending == [] && first && TXBuff == tx && dataStorage == storage
      ensures imei == product && forall i :: 0 <= i < 40 ==> idCfg[i] == 0xa5
    {
      TXBuff, dataStorage, imei, idCfg := tx, storage, product, seq(40, _ => 0xa5);
      first, currLen, pending := true, 0, [];
    }

    method SetIdConfig(id: seq<Byte>)
      requires Valid() && |id| == 40
      modifies `idCfg
      ensures Valid() && idCfg == id
    {
      idCfg := id;
    }

    /** Queues one result; false, and nothing queued, exactly when the ring has no room for its record. */
    method AddResults(sensorType: Byte, ldata: seq<Byte>) returns (ok: bool)
      requires Valid() && |ldata| + 3 <= MAX_FRAME
      modifies TXBuff, dataStorage, dataStorage.b, `pending
      ensures Valid()
      ensures ok == R.Accepts(dataStorage.bSz, old(dataStorage.queue), Tlv(Result(sensorType, ldata)))
      ensures pending == if ok then old(pending) + [Result(sensorType, ldata)] else old(pending)
    {
      hide R.Ring;
      hide R.Encode;
      var len := |ldata|;
      TXBuff[0] := sensorType;
      TXBuff[1] := len % 0x100;
      TXBuff[2] := len / 0x100 % 0x100;
      Memcpy(TXBuff, 3, ldata);
      assert TXBuff[..len + 3] == Tlv(Result(sensorType, ldata));
      var r := dataStorage.Put(TXBuff[..len + 3]);
      if r == -1 {
        return false;
      }
      pending := pending + [Result(sensorType, ldata)];
      return r == len + 3;
    }

    /** The 60 bytes in front of a frame. */
    function Header(time: nat, newSess: bool): (s: seq<Byte>)
      requires |imei| == 15 && |idCfg| == 40 && time < U32
      reads `idCfg
      ensures Framed(s, imei, idCfg, time, newSess, [])
    {
      imei + idCfg + Le32(time) + [if newSess then 0x31 else 0x30]
    }

    method FillHeader(time: nat)
      requires Valid() && time < U32
      modifies TXBuff, `first
      ensures Valid() && Framed(TXBuff[..HEADER], imei, idCfg, time, old(first), []) && !first
    {
      hide Framed;
      var hdr := Header(time, first);
      if first {
        first := false;
      }
      FramedLength(hdr, time, old(first));
      Memcpy(TXBuff, 0, hdr);
      assert TXBuff[..HEADER] == hdr;
    }

    lemma FramedLength(hdr: seq<Byte>, time: nat, opens: bool)
      requires Framed(hdr, imei, idCfg, time, opens, [])
      ensures |hdr| == HEADER
    {
    }

    method StartFrame(time: nat)
      requires Valid() && time < U32
      modifies TXBuff, `first, `currLen
      ensures Valid() && currLen == HEADER <= TXBuff.Length && !first
      ensures Framed(TXBuff[..currLen], imei, idCfg, time, old(first), [])
    {
      hide Framed;
      currLen := 0;
      FillHeader(time);
      currLen := currLen + HEADER;
    }

    lemma Facts()
      requires Valid()
      ensures |dataStorage.queue| == |pending| && forall r :: r in dataStorage.queue ==> 0 < |r|
      ensures dataStorage.Valid() && TXBuff.Length == MAX_FRAME && TXBuff != dataStorage.b
      ensures |imei| == 15 && |idCfg| == 40
    {
    }

    /** Get of the oldest record into the frame; it has to fit behind currLen. */
    method CopyRecord()
      requires Valid() && pending != [] && currLen + |dataStorage.queue[0]| <= MAX_FRAME
      modifies TXBuff, dataStorage, `currLen, `pending
      ensures Valid() && pending == old(pending)[1..] && dataStorage.queue == old(dataStorage.queue)[1..]
      ensures currLen == old(currLen) + |old(dataStorage.queue[0])| <= MAX_FRAME && |dataStorage.queue| == |pending|
      ensures TXBuff[..currLen] == old(TXBuff[..currLen]) + old(dataStorage.queue[0])
    {
      hide Tlvs, R.Ring, R.Encode, R.Room;
      RestOfTlvs(pending);
      Facts();
      ghost var record := dataStorage.queue[0];
      var l := dataStorage.Get(TXBuff, currLen, MAX_FRAME);
      Joined(old(TXBuff[..]), TXBuff[..], currLen, record);
      assert old(TXBuff[..])[..currLen] == old(TXBuff[..currLen]);
      currLen := currLen + l;
      pending := pending[1..];
      assert TXBuff[..][..currLen] == TXBuff[..currLen];
    }

    /** Record number k of q goes behind those before it. */
    method AddRecord(ghost q: seq<R.Record>, ghost k: nat, ghost hdr: seq<Byte>)
      requires Valid() && k < |q| && dataStorage.queue == q[k..] && 0 < |q[k]| <= MAX_FRAME - currLen
      requires currLen == HEADER + Size(q[..k]) && TXBuff[..currLen] == hdr + Concat(q[..k])
      modifies TXBuff, dataStorage, `currLen, `pending
      ensures Valid() && pending == old(pending)[1..] && dataStorage.queue == q[k + 1..]
      ensures currLen == HEADER + Size(q[..k + 1]) <= MAX_FRAME && TXBuff[..currLen] == hdr + Concat(q[..k + 1])
      ensures Fit(q[k..], old(currLen)) == 1 + Fit(q[k + 1..], currLen)
    {
      hide Fit, Size, Concat, Tlvs, Valid, R.Ring, R.Encode;
      Facts();
      Snoc(q, k, currLen);
      assert q[k..][0] == q[k] && q[k..][1..] == q[k + 1..];
      CopyRecord();
      assert hdr + Concat(q[..k]) + q[k] == hdr + (Concat(q[..k]) + q[k]);
    }

    /** One pass of the outer loop: a frame of as many of the oldest records as fit, in TXBuff[..currLen].
        more is false when the store has run empty. */
    method BuildFrame(time: nat) returns (more: bool)
      requires Valid() && time < U32
      modifies TXBuff, dataStorage, `first, `currLen, `pending
      ensures Valid() && !first
      ensures var k := Fit(old(dataStorage.queue), HEADER);
        && k <= |old(pending)| && pending == old(pending)[k..] && dataStorage.queue == old(dataStorage.queue)[k..]
        && currLen == HEADER + Size(old(dataStorage.queue)[..k]) <= MAX_FRAME
        && Framed(TXBuff[..currLen], imei, idCfg, time, old(first), Concat(old(dataStorage.queue)[..k]))
        && (more <==> k < |old(dataStorage.queue)|)
    {
      hide Fit;
      hide Size;
      hide Concat;
      hide Tlvs;
      hide Valid;
      hide Framed;
      hide R.Ring;
      hide R.Encode;
      Facts();
      StartFrame(time);
      ghost var q, k := dataStorage.queue, 0;
      ghost var hdr := TXBuff[..HEADER];
      more := true;
      FitStops(q, HEADER);
      assert q[..0] == [] && q[0..] == q;
      while true
        invariant Valid() && !first && k <= |q| && pending == old(pending)[k..] && dataStorage.queue == q[k..]
        invariant currLen == HEADER + Size(q[..k]) <= MAX_FRAME
        invariant TXBuff[..currLen] == hdr + Concat(q[..k])
        invariant Fit(q, HEADER) == k + Fit(q[k..], currLen)
        decreases |q| - k
      {
        Facts();
        var r := dataStorage.Probe();
        FitStops(q[k..], currLen);
        if r == 0 {
          more := false;
          break;
        } else if r + currLen > MAX_FRAME {
          break;
        } else {
          AddRecord(q, k, hdr);
          k := k + 1;
        }
      }
      FramedBody(hdr, imei, idCfg, time, old(first), Concat(q[..k]));
    }

    /** The posted frames hold the given records; only the first opens a session, if any does. */
    predicate Sent(posted: seq<seq<Byte>>, fs: seq<seq<R.Record>>, clock: nat -> nat, newSess: bool)
      reads `idCfg
    {
      && |posted| == |fs|
      && forall i :: 0 <= i < |fs| ==> Framed(posted[i], imei, idCfg, clock(i), newSess && i == 0, Concat(fs[i]))
    }

    lemma EmptySent(clock: nat -> nat, newSess: bool)
      ensures Sent([], [], clock, newSess)
    {
    }

    lemma SentSnoc(posted: seq<seq<Byte>>, fs: seq<seq<R.Record>>, clock: nat -> nat, newSess: bool,
                   frame: seq<Byte>, f: seq<R.Record>)
      requires Sent(posted, fs, clock, newSess)
      requires Framed(frame, imei, idCfg, clock(|posted|), newSess && posted == [], Concat(f))
      ensures Sent(posted + [frame], fs + [f], clock, newSess)
    {
      hide Framed;
    }

    /** The whole request: frames go out until the store is empty; clock gives the time of each frame.
        It terminates when every queued record fits a frame on its own. */
    method DoServerRequest(clock: nat -> nat) returns (posted: seq<seq<Byte>>)
      requires Valid() && Sendable(dataStorage.queue) && forall i :: clock(i) < U32
      modifies TXBuff, dataStorage, `first, `currLen, `pending
      ensures Valid() && pending == [] && !first
      ensures Sent(posted, Frames(old(dataStorage.queue)), clock, old(first))
    {
      hide Fit;
      hide Concat;
      hide Valid;
      hide Framed;
      hide R.Ring;
      hide R.Encode;
      hide Frames;
      hide Sent;
      Facts();
      assert Sent([], [], clock, first) by { EmptySent(clock, first); }
      FramesStep([]);
      posted := [];
      ghost var q := dataStorage.queue;
      ghost var done: seq<seq<R.Record>> := [];
      var send := true;
      while send
        invariant Valid() && Sendable(dataStorage.queue) && |posted| == |done|
        invariant send ==> Frames(q) == done + Frames(dataStorage.queue)
        invariant !send ==> Frames(q) == done && dataStorage.queue == []
        invariant first == (old(first) && posted == [])
        invariant Sent(posted, done, clock, old(first))
        decreases send, |dataStorage.queue|
      {
        ghost var now := dataStorage.queue;
        ghost var k := Fit(now, HEADER);
        FramesStep(now);
        assert done + ([now[..k]] + Frames(now[k..])) == done + [now[..k]] + Frames(now[k..]);
        send := BuildFrame(clock(|posted|));
        SentSnoc(posted, done, clock, old(first), TXBuff[..currLen], now[..k]);
        posted := posted + [TXBuff[..currLen]];
        done := done + [now[..k]];
      }
      Facts();
    }
  }
}
