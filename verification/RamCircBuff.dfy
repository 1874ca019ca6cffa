/**
 * The ring of length-prefixed records of storageBase.cpp. Header and payload of a record may each
 * straddle the end of the buffer; seen from outside the ring is a FIFO of byte records.
 */
module RamCircBuff {
  import opened Bytes

  const INT := 4  // sizeof(int), the length prefix

  type Record = seq<Byte>

  function Wrap(i: int, n: int): int {
    if i < n then i else i - n
  }

  /** n bytes of the ring b from position start on. */
  function Ring(b: seq<Byte>, start: nat, n: nat): (s: seq<Byte>)
    requires n <= |b| && (n > 0 ==> start < |b|)
    ensures |s| == n && forall k :: 0 <= k < n ==> s[k] == b[Wrap(start + k, |b|)]
  {
    seq(n, k requires 0 <= k < n => b[Wrap(start + k, |b|)])
  }

  /** The ring b after src has been written from position at on, running over the end if need be. */
  function Placed(b: seq<Byte>, at: nat, src: seq<Byte>): (s: seq<Byte>)
    requires |src| <= |b| && at + |src| <= 2 * |b|
    ensures |s| == |b|
  {
    seq(|b|, x requires 0 <= x < |b| =>
      if at <= x < at + |src| then src[x - at]
      else if at <= x + |b| < at + |src| then src[x + |b| - at]
      else b[x])
  }

  lemma PlacedTwice(b: seq<Byte>, at: nat, x: seq<Byte>, y: seq<Byte>)
    requires |x| + |y| <= |b| && at + |x| + |y| <= 2 * |b|
    ensures Placed(Placed(b, at, x), at + |x|, y) == Placed(b, at, x + y)
  {
  }

  /** Placing src right behind the n bytes in use appends it to the ring's contents. */
  lemma PlacedAppends(b: seq<Byte>, start: nat, n: nat, src: seq<Byte>)
    requires start < |b| && n + |src| <= |b|
    ensures var at := Wrap(start + n, |b|);
      Ring(Placed(b, at, src), start, n + |src|) == Ring(b, start, n) + src
  {
  }

  /** The bytes that queued records occupy: each behind its length as a little-endian int. */
  function Encode(q: seq<Record>): seq<Byte>
    requires Sized(q)
  {
    if q == [] then [] else Le32(|q[0]|) + q[0] + Encode(q[1..])
  }

  predicate Sized(q: seq<Record>) {
    forall r :: r in q ==> |r| < U16
  }

  function Room(q: seq<Record>): nat
    requires Sized(q)
  {
    |Encode(q)|
  }

  lemma EmptyRing(q: seq<Record>)
    requires Sized(q)
    ensures Room(q) == 0 <==> q == []
  {
  }

  lemma {:induction false} EncodeAppend(q: seq<Record>, r: Record)
    requires Sized(q) && |r| < U16
    ensures Sized(q + [r]) && Encode(q + [r]) == Encode(q) + (Le32(|r|) + r)
  {
    hide Le32, FromLe32;
    if q == [] {
      assert q + [r] == [r];
      assert Encode([r]) == Le32(|r|) + r + Encode([]);
    } else {
      assert (q + [r])[1..] == q[1..] + [r];
      EncodeAppend(q[1..], r);
    }
  }

  /** The bytes in the ring spell one queue of records and no other. */
  lemma {:induction false} EncodeInjective(p: seq<Record>, q: seq<Record>)
    requires Sized(p) && Sized(q) && Encode(p) == Encode(q)
    ensures p == q
  {
    EmptyRing(p);
    EmptyRing(q);
    if p != [] {
      EncodeParts(p);
      EncodeParts(q);
      hide Encode;
      hide FromLe32;
      EncodeInjective(p[1..], q[1..]);
      assert p == [p[0]] + p[1..] && q == [q[0]] + q[1..];
    }
  }

  /** The first record and the rest of the queue, read back from the bytes. */
  lemma EncodeParts(q: seq<Record>)
    requires Sized(q) && q != []
    ensures var s := Encode(q);
      && |s| >= INT && FromLe32(s[..INT]) == |q[0]| <= |s| - INT
      && s[INT..][..|q[0]|] == q[0] && s[INT..][|q[0]|..] == Encode(q[1..])
  {
    hide Le32;
    Parts(Le32(|q[0]|), q[0], Encode(q[1..]));
  }

  lemma Parts(a: seq<Byte>, b: seq<Byte>, c: seq<Byte>)
    ensures var s := a + b + c; s[..|a|] == a && s[|a|..][..|b|] == b && s[|a|..][|b|..] == c
  {
    var s := a + b + c;
    assert s[|a|..] == b + c;
  }

  // ----- the FIFO it refines -----

  datatype Op = Put(r: Record) | Get

  /** What one call takes in and gives out, and the queue it leaves, for a ring of cap bytes. */
  function Accepts(cap: nat, q: seq<Record>, r: Record): bool
    requires Sized(q)
  {
    Room(q) + INT + |r| <= cap
  }

  function After(cap: nat, q: seq<Record>, op: Op): (q': seq<Record>)
    requires Sized(q) && cap < U16
    ensures Sized(q')
  {
    match op
    case Put(r) => if Accepts(cap, q, r) then q + [r] else q
    case Get => if q == [] then q else q[1..]
  }

  function Run(cap: nat, q: seq<Record>, ops: seq<Op>): (q': seq<Record>)
    requires Sized(q) && cap < U16
    decreases |ops|
  {
    if ops == [] then q else Run(cap, After(cap, q, ops[0]), ops[1..])
  }

  /** The records that Put took over the run. */
  function Taken(cap: nat, q: seq<Record>, ops: seq<Op>): seq<Record>
    requires Sized(q) && cap < U16
    decreases |ops|
  {
    if ops == [] then []
    else (if ops[0].Put? && Accepts(cap, q, ops[0].r) then [ops[0].r] else []) +
         Taken(cap, After(cap, q, ops[0]), ops[1..])
  }

  /** The records that Get delivered over the run. */
  function Delivered(cap: nat, q: seq<Record>, ops: seq<Op>): seq<Record>
    requires Sized(q) && cap < U16
    decreases |ops|
  {
    if ops == [] then []
    else (if ops[0].Get? && q != [] then [q[0]] else []) +
         Delivered(cap, After(cap, q, ops[0]), ops[1..])
  }

  /** Over every run no record is lost, duplicated, split or reordered, and the ring never overfills. */
  lemma {:induction false} FifoOverRuns(cap: nat, q: seq<Record>, ops: seq<Op>)
    requires Sized(q) && cap < U16 && Room(q) <= cap
    ensures Delivered(cap, q, ops) + Run(cap, q, ops) == q + Taken(cap, q, ops)
    ensures Sized(Run(cap, q, ops)) && Room(Run(cap, q, ops)) <= cap
    decreases |ops|
  {
    if ops != [] {
      var q' := After(cap, q, ops[0]);
      if ops[0].Put? && Accepts(cap, q, ops[0].r) { EncodeAppend(q, ops[0].r); }
      FifoOverRuns(cap, q', ops[1..]);
      StepOrder(cap, q, ops[0], Delivered(cap, q', ops[1..]), Taken(cap, q', ops[1..]), Run(cap, q', ops[1..]));
    }
  }

  lemma StepOrder(cap: nat, q: seq<Record>, op: Op, d: seq<Record>, t: seq<Record>, left: seq<Record>)
    requires Sized(q) && cap < U16 && d + left == After(cap, q, op) + t
    ensures (if op.Get? && q != [] then [q[0]] else []) + d + left ==
            q + ((if op.Put? && Accepts(cap, q, op.r) then [op.r] else []) + t)
  {
    hide Encode;
    var out := if op.Get? && q != [] then [q[0]] else [];
    var into := if op.Put? && Accepts(cap, q, op.r) then [op.r] else [];
    assert out + After(cap, q, op) == q + into;
    Regroup(out, d, left, After(cap, q, op), t, q, into);
  }

  lemma Regroup(a: seq<Record>, b: seq<Record>, c: seq<Record>, e: seq<Record>, t: seq<Record>,
                q: seq<Record>, i: seq<Record>)
    requires b + c == e + t && a + e == q + i
    ensures a + b + c == q + (i + t)
  {
    assert a + b + c == a + (b + c);
    assert a + (e + t) == (a + e) + t;
    assert (q + i) + t == q + (i + t);
  }

  // ----- the ring -----

  class RamCircBuff {
    const b: array<Byte>
    const bSz: int
    var currSz: int
    var pWrite: int
    var pRead: int
    ghost var queue: seq<Record>

    ghost predicate Valid()
      reads this, b
    {
      && bSz == b.Length < U16
      && 0 <= currSz <= bSz && InRing(pRead) && pWrite == Wrap(pRead + currSz, bSz) && InRing(pWrite)
      && Sized(queue)
      && Ring(b[..], pRead, currSz) == Encode(queue)
    }

    ghost predicate InRing(p: int)
      reads this
    {
      0 <= p < bSz || p == bSz == 0
    }

    /** memory is the block malloc returned for the buffer. */
    constructor (memory: array<Byte>)
      requires memory.Length < U16
      modifies memory
      ensures Valid() && b == memory && bSz == memory.Length && queue == []
    {
      b, bSz, currSz, pWrite, pRead, queue := memory, memory.Length, 0, 0, 0, [];
      new;
      Memcpy(b, 0, seq(bSz, _ => 0));
    }

    /** Appends one record, or returns -1 and changes nothing exactly when it does not fit. */
    method Put(buffer: seq<Byte>) returns (r: int)
      requires Valid() && |buffer| < U16
      modifies this, b
      ensures Valid()
      ensures r == if Accepts(bSz, old(queue), buffer) then |buffer| else -1
      ensures queue == After(bSz, old(queue), Op.Put(buffer))
      ensures r == -1 ==>
        b[..] == old(b[..]) && currSz == old(currSz) && pRead == old(pRead) && pWrite == old(pWrite)
    {
      hide Placed;
      hide Ring;
      hide Encode;
      var length := |buffer|;
      if currSz + INT + length <= bSz {
        ghost var from, n := pWrite, currSz;
        Write(buffer);
        PlacedAppends(old(b[..]), pRead, n, Le32(length) + buffer);
        EncodeAppend(queue, buffer);
        queue := queue + [buffer];
        return length;
      }
      return -1;
    }

    /** Length of the oldest record, 0 when there is none. */
    method Probe() returns (s: nat)
      requires Valid()
      ensures s == if queue == [] then 0 else |queue[0]|
    {
      hide Ring;
      hide Encode;
      hide FromLe32;
      EmptyRing(queue);
      s := 0;
      if currSz != 0 {
        Front(b[..], pRead, currSz, queue);
        RingPieces(b[..], pRead, INT);
        assert b[..][pRead..] == b[pRead..bSz];
        if pRead + INT <= bSz {
          assert b[..][pRead..pRead + INT] == b[pRead..pRead + INT];
          s := FromLe32(b[pRead..pRead + INT]);
        } else {
          var l := bSz - pRead;
          assert b[..][..INT - l] == b[..INT - l];
          s := FromLe32(b[pRead..bSz] + b[..INT - l]);
        }
      }
    }

    /** Takes the oldest record out. The caller's buffer has to have room for it, and length, the size the
        caller states, has to be no smaller: otherwise bytes of the record stay behind in the ring. */
    method Get(buffer: array<Byte>, o: nat, length: nat) returns (r: nat)
      requires Valid() && buffer != b && o <= buffer.Length
      requires queue != [] ==> o + |queue[0]| <= buffer.Length
      modifies this, buffer
      ensures old(queue) == [] ==>
        r == 0 && Valid() && queue == [] && buffer[..] == old(buffer[..])
      ensures old(queue) != [] ==>
        var record := old(queue[0]);
        && (forall x :: 0 <= x < buffer.Length ==>
              buffer[x] == if o <= x < o + |record| then record[x - o] else old(buffer[x]))
        && queue == old(queue)[1..]
        && (currSz == Room(queue) <==> |record| <= length)
        && (|record| <= length ==> Valid() && r == |record|)
    {
      hide Ring;
      hide Encode;
      EmptyRing(queue);
      if currSz != 0 {
        var s := TakeHeader();
        r := TakeData(buffer, o, s, length, queue[0], Encode(queue[1..]));
        queue := queue[1..];
      } else {
        return 0;
      }
    }

    /** Copies the record out, and moves pRead and currSz by what the caller's length admits. */
    method TakeData(buffer: array<Byte>, o: nat, s: nat, length: nat, ghost record: Record, ghost rest: seq<Byte>)
      returns (assertedLength: nat)
      requires buffer != b && o + s <= buffer.Length && 0 <= currSz <= bSz == b.Length && InRing(pRead) && 0 < bSz
      requires Ring(b[..], pRead, currSz) == record + rest && s == |record|
      modifies buffer, `currSz, `pRead
      ensures assertedLength == if s <= length then s else length
      ensures forall x :: 0 <= x < buffer.Length ==>
        buffer[x] == if o <= x < o + s then record[x - o] else old(buffer[x])
      ensures currSz == old(currSz) - assertedLength
      ensures s <= length ==>
        InRing(pRead) && pRead == Wrap(old(pRead) + s, bSz) && Ring(b[..], pRead, currSz) == rest
    {
      hide Ring;
      assertedLength := if s <= length then s else length;
      TakeFront(b[..], pRead, currSz, record, rest);
      if pRead + s <= bSz {
        Memcpy(buffer, o, b[pRead..pRead + s]);
        currSz := currSz - assertedLength;
        pRead := pRead + assertedLength;
        if pRead >= bSz {
          pRead := 0;
        }
      } else {
        var l := bSz - pRead;
        CopyTwo(buffer, o, b[pRead..bSz], b[..s - l]);
        currSz := currSz - assertedLength;
        pRead := s - l;
      }
    }

    /** Two memcpys, one behind the other. */
    method CopyTwo(buffer: array<Byte>, o: nat, x: seq<Byte>, y: seq<Byte>)
      requires o + |x + y| <= buffer.Length
      modifies buffer
      ensures forall k :: 0 <= k < buffer.Length ==>
        buffer[k] == if o <= k < o + |x + y| then (x + y)[k - o] else old(buffer[k])
    {
      Memcpy(buffer, o, x);
      Memcpy(buffer, o + |x|, y);
    }

    /** Reads the length prefix and moves pRead behind it. */
    method TakeHeader() returns (s: nat)
      requires Valid() && currSz != 0
      modifies `currSz, `pRead
      ensures queue != [] && s == |queue[0]| && currSz == old(currSz) - INT
      ensures pRead == Wrap(old(pRead) + INT, bSz) && InRing(pRead)
      ensures Ring(b[..], pRead, currSz) == queue[0] + Encode(queue[1..])
    {
      hide Ring;
      hide Encode;
      EmptyRing(queue);
      s := Probe();
      Front(b[..], pRead, currSz, queue);
      if pRead + INT <= bSz {
        currSz := currSz - INT;
        pRead := pRead + INT;
        if pRead >= bSz {
          pRead := 0;
        }
      } else {
        var l := bSz - pRead;
        currSz := currSz - INT;
        pRead := INT - l;
      }
    }

    method Write(buffer: seq<Byte>)
      requires bSz == b.Length < U16 && InRing(pWrite) && INT + |buffer| <= bSz
      modifies b, `currSz, `pWrite
      ensures b[..] == Placed(old(b[..]), old(pWrite), Le32(|buffer|) + buffer)
      ensures currSz == old(currSz) + INT + |buffer| && pWrite == Wrap(old(pWrite) + INT + |buffer|, bSz)
    {
      hide Placed;
      if pWrite + INT + |buffer| <= bSz {
        PutWhole(buffer);
      } else {
        PutSplit(buffer);
      }
    }

    method PutWhole(buffer: seq<Byte>)
      requires bSz == b.Length < U16 && InRing(pWrite) && pWrite + INT + |buffer| <= bSz
      modifies b, `currSz, `pWrite
      ensures b[..] == Placed(old(b[..]), old(pWrite), Le32(|buffer|) + buffer)
      ensures currSz == old(currSz) + INT + |buffer| && pWrite == Wrap(old(pWrite) + INT + |buffer|, bSz)
    {
      hide Placed;
      var length := |buffer|;
      PlacedTwice(b[..], pWrite, Le32(length), buffer);
      PlaceStraight(pWrite, Le32(length));
      PlaceStraight(pWrite + INT, buffer);
      currSz := currSz + INT + length;
      pWrite := pWrite + INT + length;
      if pWrite >= bSz {
        pWrite := 0;
      }
    }

    /** A memcpy that does not reach the end of the ring. */
    method PlaceStraight(at: nat, src: seq<Byte>)
      requires at + |src| <= b.Length
      modifies b
      ensures b[..] == Placed(old(b[..]), at, src)
    {
      Memcpy(b, at, src);
    }

    method PutSplit(buffer: seq<Byte>)
      requires bSz == b.Length < U16 && InRing(pWrite) && INT + |buffer| <= bSz < pWrite + INT + |buffer|
      modifies b, `currSz, `pWrite
      ensures b[..] == Placed(old(b[..]), old(pWrite), Le32(|buffer|) + buffer)
      ensures currSz == old(currSz) + INT + |buffer| && pWrite == Wrap(old(pWrite) + INT + |buffer|, bSz)
    {
      PutHeader(|buffer|);
      PutData(buffer, old(pWrite) + INT);
      PlacedTwice(old(b[..]), old(pWrite), Le32(|buffer|), buffer);
    }

    /** The header, split or not; pWrite may be left at bSz. */
    method PutHeader(length: nat)
      requires bSz == b.Length < U16 && InRing(pWrite) && INT <= bSz && length < U16
      modifies b, `currSz, `pWrite
      ensures b[..] == Placed(old(b[..]), old(pWrite), Le32(length))
      ensures currSz == old(currSz) + INT
      ensures pWrite == if old(pWrite) + INT <= bSz then old(pWrite) + INT else old(pWrite) + INT - bSz
    {
      var header := Le32(length);
      if pWrite + INT <= bSz {
        Memcpy(b, pWrite, header);
        pWrite := pWrite + INT;
      } else {
        var sh := bSz - pWrite;
        Memcpy(b, pWrite, header[..sh]);
        Memcpy(b, 0, header[sh..]);
        pWrite := INT - sh;
      }
      currSz := currSz + INT;
    }

    /** The payload, split or not, behind a header that ended at position at of the unrolled ring. */
    method PutData(buffer: seq<Byte>, ghost at: nat)
      requires bSz == b.Length < U16 && |buffer| + INT <= bSz < at + |buffer| && INT <= at < bSz + INT
      requires pWrite == if at <= bSz then at else at - bSz
      modifies b, `currSz, `pWrite
      ensures b[..] == Placed(old(b[..]), at, buffer)
      ensures currSz == old(currSz) + |buffer| && pWrite == at + |buffer| - bSz
    {
      var length := |buffer|;
      if pWrite + length < bSz {
        Memcpy(b, pWrite, buffer);
        pWrite := pWrite + length;
      } else {
        var s := bSz - pWrite;
        Memcpy(b, pWrite, buffer[..s]);
        Memcpy(b, 0, buffer[s..]);
        pWrite := length - s;
      }
      currSz := currSz + length;
    }
  }

  /** The bytes of the ring, in one piece or two. */
  lemma RingPieces(b: seq<Byte>, start: nat, n: nat)
    requires n <= |b| && start < |b|
    ensures Ring(b, start, n) == if start + n <= |b| then b[start..start + n] else b[start..] + b[..start + n - |b|]
  {
  }

  /** Where the oldest record lies, and what is left once it is gone. */
  lemma TakeFront(b: seq<Byte>, start: nat, n: nat, r: Record, rest: seq<Byte>)
    requires n <= |b| && start < |b| && Ring(b, start, n) == r + rest
    ensures r == if start + |r| <= |b| then b[start..start + |r|] else b[start..] + b[..start + |r| - |b|]
    ensures Ring(b, start, |r|) == r && Ring(b, Wrap(start + |r|, |b|), n - |r|) == rest
  {
    RingSplit(b, start, |r|, n - |r|);
    RingPieces(b, start, |r|);
    assert Ring(b, start, n)[..|r|] == r;
    assert Ring(b, start, n)[|r|..] == rest;
  }

  /** A non-empty ring starts with the length of its oldest record, followed by the record. */
  lemma Front(b: seq<Byte>, start: nat, n: nat, q: seq<Record>)
    requires Sized(q) && 0 < n <= |b| && start < |b| && Ring(b, start, n) == Encode(q)
    ensures q != [] && INT + |q[0]| <= n
    ensures FromLe32(Ring(b, start, INT)) == |q[0]|
    ensures Ring(b, Wrap(start + INT, |b|), n - INT) == q[0] + Encode(q[1..])
  {
    EmptyRing(q);
    EncodeParts(q);
    EncodeHead(q);
    hide Encode, Le32, FromLe32, Ring;
    TakeFront(b, start, n, Le32(|q[0]|), q[0] + Encode(q[1..]));
  }

  lemma EncodeHead(q: seq<Record>)
    requires Sized(q) && q != []
    ensures Encode(q) == Le32(|q[0]|) + (q[0] + Encode(q[1..]))
  {
    hide Le32;
  }

  /** Reading n + m bytes is reading n, and then m more from where those end. */
  lemma RingSplit(b: seq<Byte>, start: nat, n: nat, m: nat)
    requires n + m <= |b| && start < |b|
    ensures Ring(b, start, n + m) == Ring(b, start, n) + Ring(b, Wrap(start + n, |b|), m)
  {
  }
}
