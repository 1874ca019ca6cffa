/**
 * The first-fit allocator of MyThings/MyMemoryAllocator.cpp over the bytes of its arena: block headers
 * live in band, are linked by absolute addresses, and are rewritten field by field.
 */
module MyMemoryAllocator {
  import opened Bytes
  import opened HeapSpec

  const NULL := 0
  const INUSE: Byte := 0
  const FREE: Byte := 1

  /** A header as read back from memory. */
  datatype MemBlock = MemBlock(prev: nat, sz: nat, data: nat, status: nat, next: nat)

  // Field offsets of the 20-byte struct on a 32-bit target; offsets 6, 7 and 13..15 are padding.
  const SZ := 4
  const DATA := 8
  const STATUS := 12
  const NEXT := 16

  function HeaderAt(s: seq<Byte>, o: int): MemBlock
    requires 0 <= o <= |s| - H
  {
    MemBlock(Word32(s, o), Word16(s, o + SZ), Word32(s, o + DATA), At(s, o + STATUS), Word32(s, o + NEXT))
  }

  /** Address of the header of block i, NULL past either end of the list. */
  function Ptr(base: nat, bs: seq<Block>, i: int): nat {
    if 0 <= i < |bs| then base + Start(bs, i) else NULL
  }

  function Status(b: Block): nat {
    if b.free then FREE else INUSE
  }

  /** What the header of block i has to say. */
  function Header(base: nat, bs: seq<Block>, i: nat): MemBlock
    requires i < |bs|
  {
    MemBlock(Ptr(base, bs, i - 1), bs[i].sz, base + Start(bs, i) + H, Status(bs[i]), Ptr(base, bs, i + 1))
  }

  predicate Linked(s: seq<Byte>, base: nat, bs: seq<Block>, i: nat)
    requires i < |bs|
  {
    Start(bs, i) + H <= |s| && HeaderAt(s, Start(bs, i)) == Header(base, bs, i)
  }

  /** The bytes s, placed at address base, hold exactly the block list bs. */
  predicate Represents(s: seq<Byte>, base: nat, bs: seq<Block>) {
    bs != [] && Extent(bs) == |s| && forall i :: 0 <= i < |bs| ==> Linked(s, base, bs, i)
  }

  /** Offset o belongs to the payload of a block in use. */
  predicate InLive(bs: seq<Block>, o: int) {
    exists p :: p in Live(bs, 0) && p.at <= o < p.at + p.sz
  }

  predicate Within(o: int, at: int) {
    at <= o < at + H
  }

  // ----- frames -----

  lemma SameHeader(s: seq<Byte>, s': seq<Byte>, o: int)
    requires |s| == |s'| && 0 <= o <= |s| - H
    requires forall x :: Within(x, o) ==> s'[x] == s[x]
    ensures HeaderAt(s', o) == HeaderAt(s, o)
  {
    assert forall x :: o <= x < o + H ==> Within(x, o);
  }

  /** No byte of a header lies in a live payload. */
  lemma HeadersAreNotLive(bs: seq<Block>, i: nat, o: int)
    requires i < |bs| && Within(o, Start(bs, i))
    ensures !InLive(bs, o)
  {
    forall p | p in Live(bs, 0) ensures !(p.at <= o < p.at + p.sz) {
      var j := LiveIsInUse(bs, 0, p);
      if j < i { Tiling(bs, j, i); } else if i < j { Tiling(bs, i, j); }
    }
  }

  /** No byte of a FREE block lies in a live payload. */
  lemma FreeBytesAreNotLive(bs: seq<Block>, i: nat, o: int)
    requires i < |bs| && bs[i].free && Start(bs, i) <= o < Start(bs, i) + H + bs[i].sz
    ensures !InLive(bs, o)
  {
    forall p | p in Live(bs, 0) ensures !(p.at <= o < p.at + p.sz) {
      var j := LiveIsInUse(bs, 0, p);
      if j < i { Tiling(bs, j, i); } else if i < j { Tiling(bs, i, j); }
    }
  }

  /** Whatever the owner of a live payload writes into it, the block list stays as it is. */
  lemma PayloadWriteKeepsList(s: seq<Byte>, base: nat, bs: seq<Block>, o: int, v: Byte)
    requires Represents(s, base, bs) && 0 <= o < |s| && InLive(bs, o)
    ensures Represents(s[o := v], base, bs)
  {
    var s' := s[o := v];
    forall i | 0 <= i < |bs| ensures Linked(s', base, bs, i) {
      assert Linked(s, base, bs, i);
      if Within(o, Start(bs, i)) { HeadersAreNotLive(bs, i, o); }
      SameHeader(s, s', Start(bs, i));
    }
  }

  // ----- splitting and merging, seen from the bytes -----

  lemma SplitStart(bs: seq<Block>, i: nat, n: nat, k: nat)
    requires i < |bs| && bs[i].sz >= n + H && k < |bs| + 1
    ensures var bs' := Split(bs, i, n);
      |bs'| == |bs| + 1 &&
      Start(bs', k) == if k <= i then Start(bs, k) else if k == i + 1 then Start(bs, i) + H + n else Start(bs, k - 1)
  {
    var bs' := Split(bs, i, n);
    if k <= i {
      assert bs'[..k] == bs[..k];
    } else if k == i + 1 {
      assert bs'[..k] == bs[..i] + [Block(n, false)];
      ExtentConcat(bs[..i], [Block(n, false)]);
    } else {
      var pair := [Block(n, false), Block(bs[i].sz - n - H, true)];
      assert bs'[..k] == bs[..i] + pair + bs[i + 1..k - 1];
      assert bs[..k - 1] == bs[..i] + [bs[i]] + bs[i + 1..k - 1];
      SpliceParts(bs[..i], pair, bs[i + 1..k - 1]);
      SpliceParts(bs[..i], [bs[i]], bs[i + 1..k - 1]);
      LiveOfTwo(pair[0], pair[1], 0);
    }
  }

  lemma MergeStart(bs: seq<Block>, i: nat, k: nat)
    requires i + 1 < |bs| && k < |bs| - 1
    ensures |Merge(bs, i)| == |bs| - 1
    ensures Start(Merge(bs, i), k) == if k <= i then Start(bs, k) else Start(bs, k + 1)
  {
    var bs' := Merge(bs, i);
    if k <= i {
      assert bs'[..k] == bs[..k];
    } else {
      assert bs'[..k] == bs[..i] + [bs'[i]] + bs[i + 2..k + 1];
      assert bs[..k + 1] == bs[..i] + [bs[i], bs[i + 1]] + bs[i + 2..k + 1];
      SpliceParts(bs[..i], [bs'[i]], bs[i + 2..k + 1]);
      SpliceParts(bs[..i], [bs[i], bs[i + 1]], bs[i + 2..k + 1]);
      LiveOfTwo(bs[i], bs[i + 1], 0);
    }
  }

  /** Bytes that differ only inside the headers at a, b and c. */
  predicate OnlyThree(s: seq<Byte>, s': seq<Byte>, a: int, b: int, c: int) {
    |s'| == |s| &&
    forall x :: 0 <= x < |s| && !Within(x, a) && !Within(x, b) && !Within(x, c) ==> s'[x] == s[x]
  }

  /** The bytes after malloc has carved n bytes out of block i. */
  predicate Carved(s: seq<Byte>, s': seq<Byte>, base: nat, bs: seq<Block>, i: nat, n: nat)
    requires i < |bs|
  {
    var at, mid, after := Start(bs, i), Start(bs, i) + H + n, Start(bs, i + 1);
    && Fits(bs[i], n) && mid + H <= |s|
    && OnlyThree(s, s', at, mid, after)
    && HeaderAt(s', at) == HeaderAt(s, at).(sz := n, status := INUSE, next := base + mid)
    && HeaderAt(s', mid) == MemBlock(base + at, bs[i].sz - (H + n), base + mid + H, FREE, HeaderAt(s, at).next)
    && (i + 1 < |bs| ==>
          after + H <= |s| && HeaderAt(s', after) == HeaderAt(s, after).(prev := base + mid))
  }

  lemma SplitHeader(base: nat, bs: seq<Block>, i: nat, n: nat, k: nat)
    requires i < |bs| && bs[i].sz >= n + H && k < |bs| + 1
    ensures k < |Split(bs, i, n)|
    ensures Header(base, Split(bs, i, n), k) ==
      var mid := base + Start(bs, i) + H + n;
      if k < i then Header(base, bs, k)
      else if k == i then Header(base, bs, i).(sz := n, status := INUSE, next := mid)
      else if k == i + 1 then
        MemBlock(base + Start(bs, i), bs[i].sz - (H + n), mid + H, FREE, Ptr(base, bs, i + 1))
      else if k == i + 2 then Header(base, bs, i + 1).(prev := mid)
      else Header(base, bs, k - 1)
  {
    SplitStart(bs, i, n, k);
    if k > 0 { SplitStart(bs, i, n, k - 1); }
    if k < |bs| { SplitStart(bs, i, n, k + 1); }
  }

  lemma SplitLinked(s: seq<Byte>, s': seq<Byte>, base: nat, bs: seq<Block>, i: nat, n: nat, k: nat)
    requires Represents(s, base, bs) && i < |bs| && Fits(bs[i], n) && Carved(s, s', base, bs, i, n)
    requires k < |bs| + 1
    ensures k < |Split(bs, i, n)| && Linked(s', base, Split(bs, i, n), k)
  {
    SplitHeader(base, bs, i, n, k);
    SplitStart(bs, i, n, k);
    var j := if k <= i then k else k - 1;
    assert Linked(s, base, bs, j) && Linked(s, base, bs, i);
    if j < i || j > i + 1 {
      BlocksApart(bs, j, i);
      BlocksApart(bs, j, i + 1);
      if j < i { Tiling(bs, j, i); } else { Tiling(bs, i + 1, j); }
      StartNext(bs, i);
      OtherHeader(s, s', Start(bs, i), Start(bs, i) + H + n, Start(bs, i + 1), Start(bs, j));
    }
  }

  lemma SplitRepresents(s: seq<Byte>, s': seq<Byte>, base: nat, bs: seq<Block>, i: nat, n: nat)
    requires Represents(s, base, bs) && i < |bs| && Fits(bs[i], n) && Carved(s, s', base, bs, i, n)
    ensures Represents(s', base, Split(bs, i, n))
  {
    SplitExtent(bs, i, n);
    forall k | 0 <= k < |Split(bs, i, n)| ensures Linked(s', base, Split(bs, i, n), k) {
      SplitLinked(s, s', base, bs, i, n, k);
    }
  }

  lemma SplitExtent(bs: seq<Block>, i: nat, n: nat)
    requires i < |bs| && Fits(bs[i], n)
    ensures |Split(bs, i, n)| == |bs| + 1 && Extent(Split(bs, i, n)) == Extent(bs)
  {
    assert bs == bs[..i] + [bs[i]] + bs[i + 1..];
    CarveLive(bs[..i], bs[i], bs[i + 1..], n);
  }

  predicate Apart(a: int, b: int) {
    a + H <= b || b + H <= a
  }

  /** A header apart from the three that changed reads the same. */
  lemma OtherHeader(s: seq<Byte>, s': seq<Byte>, a: int, b: int, c: int, o: int)
    requires OnlyThree(s, s', a, b, c) && 0 <= o <= |s| - H
    requires Apart(a, o) && Apart(b, o) && Apart(c, o)
    ensures HeaderAt(s', o) == HeaderAt(s, o)
  {
    SameHeader(s, s', o);
  }

  lemma BlocksApart(bs: seq<Block>, i: nat, j: nat)
    requires i < |bs| && j <= |bs| && i != j
    ensures Apart(Start(bs, i), Start(bs, j))
  {
    if i < j { Tiling(bs, i, j); } else { Tiling(bs, j, i); }
  }

  /** The bytes after block i has swallowed its successor. */
  predicate Joined(s: seq<Byte>, s': seq<Byte>, base: nat, bs: seq<Block>, i: nat)
    requires i + 1 < |bs|
  {
    var at, next, after := Start(bs, i), Start(bs, i + 1), Start(bs, i + 2);
    && at + H <= next <= |s| - H
    && OnlyThree(s, s', at, after, after)
    && HeaderAt(s', at) ==
         HeaderAt(s, at).(sz := HeaderAt(s, at).sz + HeaderAt(s, next).sz + H, next := HeaderAt(s, next).next)
    && (i + 2 < |bs| ==>
          after + H <= |s| && HeaderAt(s', after) == HeaderAt(s, after).(prev := base + at))
  }

  lemma MergeHeader(base: nat, bs: seq<Block>, i: nat, k: nat)
    requires i + 1 < |bs| && k < |bs| - 1
    ensures k < |Merge(bs, i)|
    ensures Header(base, Merge(bs, i), k) ==
      if k < i then Header(base, bs, k)
      else if k == i then Header(base, bs, i).(sz := bs[i].sz + bs[i + 1].sz + H, next := Ptr(base, bs, i + 2))
      else if k == i + 1 then Header(base, bs, i + 2).(prev := base + Start(bs, i))
      else Header(base, bs, k + 1)
  {
    MergeStart(bs, i, k);
    if k > 0 { MergeStart(bs, i, k - 1); }
    if k + 1 < |bs| - 1 { MergeStart(bs, i, k + 1); }
  }

  lemma MergeLinked(s: seq<Byte>, s': seq<Byte>, base: nat, bs: seq<Block>, i: nat, k: nat)
    requires Represents(s, base, bs) && i + 1 < |bs| && Joined(s, s', base, bs, i)
    requires k < |bs| - 1
    ensures k < |Merge(bs, i)| && Linked(s', base, Merge(bs, i), k)
  {
    hide HeaderAt, Extent, Start, Merge;
    MergeHeader(base, bs, i, k);
    MergeStart(bs, i, k);
    var j := if k <= i then k else k + 1;
    assert Linked(s, base, bs, j) && Linked(s, base, bs, i + 1);
    if j != i && j != i + 2 {
      BlocksApart(bs, j, i);
      BlocksApart(bs, j, i + 2);
      OtherHeader(s, s', Start(bs, i), Start(bs, i + 2), Start(bs, i + 2), Start(bs, j));
    }
  }

  lemma MergeRepresents(s: seq<Byte>, s': seq<Byte>, base: nat, bs: seq<Block>, i: nat)
    requires Represents(s, base, bs) && i + 1 < |bs| && Joined(s, s', base, bs, i)
    ensures Represents(s', base, Merge(bs, i))
  {
    MergeExtent(bs, i);
    forall k | 0 <= k < |Merge(bs, i)| ensures Linked(s', base, Merge(bs, i), k) {
      MergeLinked(s, s', base, bs, i, k);
    }
  }

  lemma MergeExtent(bs: seq<Block>, i: nat)
    requires i + 1 < |bs|
    ensures |Merge(bs, i)| == |bs| - 1 && Extent(Merge(bs, i)) == Extent(bs)
  {
    hide Extent;
    hide Live;
    var x := Block(bs[i].sz + H + bs[i + 1].sz, bs[i].free);
    assert bs == bs[..i] + [bs[i], bs[i + 1]] + bs[i + 2..];
    SpliceParts(bs[..i], [bs[i], bs[i + 1]], bs[i + 2..]);
    SpliceParts(bs[..i], [x], bs[i + 2..]);
    LiveOfTwo(bs[i], bs[i + 1], 0);
    LiveOfOne(x, 0);
  }

  /** The bytes after the status of block i has been set to FREE. */
  predicate Marked(s: seq<Byte>, s': seq<Byte>, bs: seq<Block>, i: nat)
    requires i < |bs|
  {
    var at := Start(bs, i);
    && at + H <= |s|
    && OnlyThree(s, s', at, at, at)
    && HeaderAt(s', at) == HeaderAt(s, at).(status := FREE)
  }

  lemma MarkLinked(s: seq<Byte>, s': seq<Byte>, base: nat, bs: seq<Block>, i: nat, k: nat)
    requires Represents(s, base, bs) && i < |bs| && Marked(s, s', bs, i) && k < |bs|
    ensures Linked(s', base, bs[i := Block(bs[i].sz, true)], k)
  {
    hide HeaderAt, Extent, Start;
    var bs' := bs[i := Block(bs[i].sz, true)];
    assert Linked(s, base, bs, k);
    SameExtents(bs, bs', k);
    if k > 0 { SameExtents(bs, bs', k - 1); }
    if k + 1 < |bs| { SameExtents(bs, bs', k + 1); }
    if k != i {
      BlocksApart(bs, k, i);
      OtherHeader(s, s', Start(bs, i), Start(bs, i), Start(bs, i), Start(bs, k));
    }
  }

  lemma MarkRepresents(s: seq<Byte>, s': seq<Byte>, base: nat, bs: seq<Block>, i: nat)
    requires Represents(s, base, bs) && i < |bs| && Marked(s, s', bs, i)
    ensures Represents(s', base, bs[i := Block(bs[i].sz, true)])
  {
    var bs' := bs[i := Block(bs[i].sz, true)];
    SameExtents(bs, bs', |bs|);
    assert bs[..|bs|] == bs && bs'[..|bs|] == bs';
    forall k | 0 <= k < |bs'| ensures Linked(s', base, bs', k) {
      MarkLinked(s, s', base, bs, i, k);
    }
  }

  lemma {:induction false} SameExtents(x: seq<Block>, y: seq<Block>, k: nat)
    requires |x| == |y| && k <= |x| && forall i :: 0 <= i < |x| ==> x[i].sz == y[i].sz
    ensures Start(x, k) == Start(y, k)
  {
    if k > 0 {
      SameExtents(x, y, k - 1);
      StartNext(x, k - 1);
      StartNext(y, k - 1);
    }
  }

  // ----- the allocator -----

  class MyMemoryAllocator {
    const memory: nat              // address of the first byte of the arena
    const memorySize: int
    const arena: array<Byte>       // the bytes at memory .. memory + memorySize
    const head: nat
    ghost var blocks: seq<Block>   // the list the headers spell

    /** The arena holds a well-linked list of blocks that tile it. */
    ghost predicate Listed()
      reads this, arena
    {
      && arena.Length == memorySize < U16
      && 0 < memory == head && memory + memorySize < U32
      && Represents(arena[..], memory, blocks)
    }

    ghost predicate Valid()
      reads this, arena
    {
      Listed() && Coalesced(blocks)
    }

    /** Address p can be dereferenced as a MemBlock. */
    ghost predicate Addressable(p: int)
      reads this
    {
      arena.Length == memorySize && memory <= p <= memory + memorySize - H
    }

    function Hdr(p: int): MemBlock
      requires Addressable(p)
      reads this, arena
    {
      HeaderAt(arena[..], p - memory)
    }

    /** Nothing outside the header at p has changed: no other byte, and so no header apart from it. */
    twostate predicate OnlyHeader(p: int)
      reads this, arena
    {
      && (forall x :: 0 <= x < arena.Length && !Within(x, p - memory) ==> arena[x] == old(arena[x]))
      && (forall q {:trigger Hdr(q)} :: Addressable(q) && Apart(p, q) ==> Hdr(q) == old(Hdr(q)))
    }

    twostate lemma OthersUnchanged(p: int)
      requires Addressable(p)
      requires forall x :: 0 <= x < arena.Length && !Within(x, p - memory) ==> arena[x] == old(arena[x])
      ensures OnlyHeader(p)
    {
      forall q | Addressable(q) && Apart(p, q) ensures Hdr(q) == old(Hdr(q)) {
        SameHeader(old(arena[..]), arena[..], q - memory);
      }
    }

    method SetPrev(p: int, v: int)
      requires Addressable(p) && 0 <= v < U32
      modifies arena
      ensures Hdr(p) == old(Hdr(p)).(prev := v) && OnlyHeader(p)
    {
      Store32(arena, p - memory, v);
      OthersUnchanged(p);
    }

    method SetSz(p: int, v: int)
      requires Addressable(p) && 0 <= v < U16
      modifies arena
      ensures Hdr(p) == old(Hdr(p)).(sz := v) && OnlyHeader(p)
    {
      Store16(arena, p - memory + SZ, v);
      OthersUnchanged(p);
    }

    method SetData(p: int, v: int)
      requires Addressable(p) && 0 <= v < U32
      modifies arena
      ensures Hdr(p) == old(Hdr(p)).(data := v) && OnlyHeader(p)
    {
      Store32(arena, p - memory + DATA, v);
      OthersUnchanged(p);
    }

    method SetStatus(p: int, v: Byte)
      requires Addressable(p)
      modifies arena
      ensures Hdr(p) == old(Hdr(p)).(status := v) && OnlyHeader(p)
    {
      arena[p - memory + STATUS] := v;
      OthersUnchanged(p);
    }

    method SetNext(p: int, v: int)
      requires Addressable(p) && 0 <= v < U32
      modifies arena
      ensures Hdr(p) == old(Hdr(p)).(next := v) && OnlyHeader(p)
    {
      Store32(arena, p - memory + NEXT, v);
      OthersUnchanged(p);
    }

    constructor (m: array<Byte>, address: int, sz: int)
      requires H <= m.Length == sz < U16 && 0 < address && address + sz < U32
      modifies m
      ensures Valid() && arena == m && memory == address && memorySize == sz
      ensures blocks == Fresh(sz)
    {
      memory, memorySize, arena, head := address, sz, m, address;
      blocks := Fresh(sz);
      new;
      SetPrev(head, NULL);
      SetSz(head, memorySize - H);
      SetData(head, head + H);
      SetStatus(head, FREE);
      SetNext(head, NULL);
    }

    /** Reading the list through its pointers. */
    lemma BlockAt(i: nat)
      requires Listed() && i < |blocks|
      ensures Addressable(Ptr(memory, blocks, i)) && Hdr(Ptr(memory, blocks, i)) == Header(memory, blocks, i)
      ensures i + 1 < |blocks| ==> Apart(Ptr(memory, blocks, i), Ptr(memory, blocks, i + 1))
      ensures i + 2 < |blocks| ==> Apart(Ptr(memory, blocks, i), Ptr(memory, blocks, i + 2))
    {
      assert Linked(arena[..], memory, blocks, i);
      Tiling(blocks, i, i + 1);
      if i + 1 < |blocks| { BlocksApart(blocks, i, i + 1); }
      if i + 2 < |blocks| { BlocksApart(blocks, i, i + 2); }
    }

    /** No live payload byte has changed. */
    twostate predicate KeepsPayloads(bs: seq<Block>)
      reads this, arena
    {
      forall o :: 0 <= o < arena.Length && InLive(bs, o) ==> arena[o] == old(arena[o])
    }

    /** The block after next, as UnlinkNext has to re-point it. */
    lemma Neighbours(i: nat)
      requires Listed() && i + 1 < |blocks|
      ensures var p, q, r := Ptr(memory, blocks, i), Ptr(memory, blocks, i + 1), Ptr(memory, blocks, i + 2);
        && Addressable(p) && Addressable(q) && Apart(p, q)
        && Hdr(p).next == q && Hdr(q).next == r && Hdr(p).sz + Hdr(q).sz + H < U16
        && Hdr(p).sz == blocks[i].sz && Hdr(q).sz == blocks[i + 1].sz
        && (r != NULL <==> i + 2 < |blocks|)
        && (r != NULL ==> Addressable(r) && Apart(p, r) && Apart(q, r))
    {
      hide HeaderAt, Extent;
      BlockAt(i);
      BlockAt(i + 1);
      if i + 2 < |blocks| { BlockAt(i + 2); }
      Tiling(blocks, i, i + 1);
      Tiling(blocks, i + 1, |blocks|);
    }

    /** The three stores by which JoinNextBlock takes the successor q of p out of the list. */
    method UnlinkNext(p: int, q: int)
      requires Addressable(p) && Addressable(q) && Apart(p, q) && 0 < memory <= memory + memorySize < U32
      requires Hdr(p).next == q && Hdr(p).sz + Hdr(q).sz + H < U16
      requires var r := Hdr(q).next; r != NULL ==> Addressable(r) && Apart(p, r) && Apart(q, r)
      modifies arena
      ensures Hdr(p) == old(Hdr(p)).(sz := old(Hdr(p).sz + Hdr(q).sz + H), next := old(Hdr(q).next))
      ensures var r := old(Hdr(q).next); r != NULL ==> Hdr(r) == old(Hdr(r)).(prev := p)
      ensures var r := old(Hdr(q).next);
        var o := if r != NULL then r - memory else memorySize;
        OnlyThree(old(arena[..]), arena[..], p - memory, o, o)
    {
      hide HeaderAt;
      var r := Hdr(q).next;
      SetNext(p, r);
      if r != NULL {
        SetPrev(r, p);
      }
      SetSz(p, Hdr(p).sz + Hdr(q).sz + H);
    }

    method JoinNextBlock(pBlock: int, ghost i: nat)
      requires Listed() && i < |blocks| && pBlock == Ptr(memory, blocks, i)
      modifies arena, `blocks
      ensures Listed() && blocks == if i + 1 < |old(blocks)| then Merge(old(blocks), i) else old(blocks)
      ensures KeepsPayloads(old(blocks))
    {
      hide HeaderAt;
      BlockAt(i);
      var nextBlock := Hdr(pBlock).next;
      if nextBlock != NULL {
        Neighbours(i);
        UnlinkNext(pBlock, nextBlock);
        Tiling(blocks, i, i + 1);
        assert i + 2 == |blocks| ==> blocks[..i + 2] == blocks;
        assert Joined(old(arena[..]), arena[..], memory, blocks, i);
        MergeRepresents(old(arena[..]), arena[..], memory, blocks, i);
        JoinKeepsPayloads(old(arena[..]), arena[..], blocks, i);
        blocks := Merge(blocks, i);
      }
    }

    method JoinPrevBlock(pBlock: nat, ghost i: nat)
      requires Listed() && i < |blocks| && pBlock == Ptr(memory, blocks, i)
      modifies arena, `blocks
      ensures Listed() && blocks == if i > 0 then Merge(old(blocks), i - 1) else old(blocks)
      ensures KeepsPayloads(old(blocks))
    {
      hide HeaderAt;
      BlockAt(i);
      var prevBlock := Hdr(pBlock).prev;
      if prevBlock != NULL {
        JoinNextBlock(prevBlock, i - 1);
      }
    }

    /** The block whose data pointer is p, NULL if there is none. */
    method FindBlock(p: int) returns (pBlock: nat)
      requires Listed()
      ensures pBlock == Ptr(memory, blocks, Find(blocks, p - memory, 0))
    {
      hide HeaderAt;
      pBlock := head;
      ghost var i := 0;
      while pBlock != NULL
        invariant i <= |blocks| && pBlock == Ptr(memory, blocks, i)
        invariant Find(blocks, p - memory, 0) == Find(blocks, p - memory, i)
        decreases |blocks| - i
      {
        BlockAt(i);
        if Hdr(pBlock).data == p {
          return;
        }
        pBlock := Hdr(pBlock).next;
        i := i + 1;
      }
    }

    /** The stores by which malloc turns p, with sz + H bytes to spare, into a block of sz bytes in use
        and a FREE remainder. */
    method Fragment(p: nat, sz: nat)
      requires Addressable(p) && 0 < memory <= memory + memorySize < U32
      requires Hdr(p).data == p + H && p + H + sz + Hdr(p).sz < U16 + U32
      requires sz + H < Hdr(p).sz < U16 && Addressable(p + H + sz)
      requires var r := Hdr(p).next; r != NULL ==> Addressable(r) && Apart(p, r) && Apart(p + H + sz, r)
      modifies arena
      ensures var mid, r := p + H + sz, old(Hdr(p).next);
        && Hdr(p) == old(Hdr(p)).(sz := sz, status := INUSE, next := mid)
        && Hdr(mid) == MemBlock(p, old(Hdr(p)).sz - (H + sz), mid + H, FREE, r)
        && (r != NULL ==> Hdr(r) == old(Hdr(r)).(prev := mid))
        && var o := if r != NULL then r - memory else memorySize;
           OnlyThree(old(arena[..]), arena[..], p - memory, mid - memory, o)
    {
      hide HeaderAt;
      var nextBlock := Hdr(p).data + sz;
      if Hdr(p).next != NULL {
        SetPrev(Hdr(p).next, nextBlock);
      }
      WriteRemainder(nextBlock, Hdr(p).sz - (H + sz), p, Hdr(p).next);
      SetSz(p, sz);
      SetStatus(p, INUSE);
      SetNext(p, nextBlock);
    }

    method WriteRemainder(nextBlock: nat, sz: nat, prev: nat, next: nat)
      requires Addressable(nextBlock) && 0 < memory <= memory + memorySize < U32
      requires sz < U16 && prev < U32 && next < U32
      modifies arena
      ensures Hdr(nextBlock) == MemBlock(prev, sz, nextBlock + H, FREE, next) && OnlyHeader(nextBlock)
    {
      hide HeaderAt;
      SetSz(nextBlock, sz);
      SetData(nextBlock, nextBlock + H);
      SetStatus(nextBlock, FREE);
      SetPrev(nextBlock, prev);
      SetNext(nextBlock, next);
    }

    /** First fit from the head; NULL when no FREE block has more than sz + H bytes. */
    method Malloc(n: int) returns (p: nat)
      requires Valid() && 0 <= n < U16
      modifies arena, `blocks
      ensures Valid() && blocks == AfterMalloc(old(blocks), Rounded(n))
      ensures var i := FirstFit(old(blocks), Rounded(n), 0);
        p == if i < |old(blocks)| then memory + Start(old(blocks), i) + H else NULL
      ensures KeepsPayloads(old(blocks))
    {
      hide HeaderAt;
      var sz := (n + n % 4) % U16;
      var pBlock := head;
      ghost var i := 0;
      while pBlock != NULL
        invariant Valid() && blocks == old(blocks) && arena[..] == old(arena[..])
        invariant i <= |blocks| && pBlock == Ptr(memory, blocks, i)
        invariant FirstFit(blocks, sz, 0) == FirstFit(blocks, sz, i)
        decreases |blocks| - i
      {
        BlockAt(i);
        if Hdr(pBlock).status == FREE {
          if Hdr(pBlock).sz > sz + H {
            p := Carve(pBlock, sz, i);
            return;
          }
        }
        pBlock := Hdr(pBlock).next;
        i := i + 1;
      }
      p := NULL;
    }

    method Carve(pBlock: nat, sz: nat, ghost i: nat) returns (p: nat)
      requires Valid() && i < |blocks| && Fits(blocks[i], sz) && pBlock == Ptr(memory, blocks, i)
      modifies arena, `blocks
      ensures Valid() && blocks == Split(old(blocks), i, sz) && p == memory + Start(old(blocks), i) + H
      ensures KeepsPayloads(old(blocks))
    {
      hide HeaderAt;
      hide Extent;
      hide Live;
      BlockAt(i);
      Tiling(blocks, i, i + 1);
      if i + 1 < |blocks| { BlockAt(i + 1); }
      assert i + 1 == |blocks| ==> blocks[..i + 1] == blocks;
      Fragment(pBlock, sz);
      SplitRepresents(old(arena[..]), arena[..], memory, blocks, i, sz);
      CarveKeepsPayloads(old(arena[..]), arena[..], blocks, i, sz);
      blocks := Split(blocks, i, sz);
      BlockAt(i);
      p := Hdr(pBlock).data;
    }

    method SetFree(pBlock: nat, ghost i: nat)
      requires Listed() && i < |blocks| && pBlock == Ptr(memory, blocks, i)
      modifies arena, `blocks
      ensures Listed() && blocks == old(blocks)[i := Block(old(blocks)[i].sz, true)]
      ensures pBlock == Ptr(memory, blocks, i) && KeepsPayloads(blocks)
    {
      hide HeaderAt;
      BlockAt(i);
      SetStatus(pBlock, FREE);
      MarkRepresents(old(arena[..]), arena[..], memory, blocks, i);
      blocks := blocks[i := Block(blocks[i].sz, true)];
      assert old(blocks)[..i] == blocks[..i];
      HeaderBytesNotLive(blocks, i);
    }

    method CoalesceNext(pBlock: nat, ghost i: nat)
      requires Listed() && i < |blocks| && pBlock == Ptr(memory, blocks, i)
      modifies arena, `blocks
      ensures Listed() && blocks == MergeNext(old(blocks), i) && pBlock == Ptr(memory, blocks, i)
      ensures KeepsPayloads(old(blocks))
    {
      hide HeaderAt;
      BlockAt(i);
      var nextBlock := Hdr(pBlock).next;
      if nextBlock != NULL {
        BlockAt(i + 1);
        if Hdr(nextBlock).status == FREE {
          JoinNextBlock(pBlock, i);
        }
      }
      assert blocks[..i] == old(blocks)[..i];
    }

    method CoalescePrev(pBlock: nat, ghost i: nat)
      requires Listed() && i < |blocks| && pBlock == Ptr(memory, blocks, i)
      modifies arena, `blocks
      ensures Listed() && blocks == MergePrev(old(blocks), i)
      ensures KeepsPayloads(old(blocks))
    {
      hide HeaderAt;
      BlockAt(i);
      var prevBlock := Hdr(pBlock).prev;
      if prevBlock != NULL {
        BlockAt(i - 1);
        if Hdr(prevBlock).status == FREE {
          JoinPrevBlock(pBlock, i);
        }
      }
    }

    /** Marks the block of p FREE and joins it with its FREE neighbours; an unknown p changes nothing. */
    method Free(p: int)
      requires Valid()
      modifies arena, `blocks
      ensures Valid()
      ensures var i := Find(old(blocks), p - memory, 0);
        blocks == if i < |old(blocks)| then AfterFree(old(blocks), i) else old(blocks)
      ensures KeepsPayloads(blocks)
    {
      hide HeaderAt;
      var pBlock := FindBlock(p);
      ghost var i := Find(blocks, p - memory, 0);
      if pBlock != NULL {
        FreeFacts(blocks, i);
        SetFree(pBlock, i);
        CoalesceNext(pBlock, i);
        CoalescePrev(pBlock, i);
      }
    }

    /** The sum PrintResume prints: over all blocks it is memorySize, so its fault branch is dead. */
    method PrintResume(full: bool) returns (sum: nat)
      requires Listed()
      ensures sum == if full then memorySize else InUseExtent(blocks)
      ensures sum <= memorySize
    {
      hide HeaderAt;
      var pBlock := head;
      ghost var i := 0;
      sum := 0;
      while pBlock != NULL
        invariant i <= |blocks| && pBlock == Ptr(memory, blocks, i)
        invariant sum == if full then Start(blocks, i) else InUseExtent(blocks[..i])
        decreases |blocks| - i
      {
        BlockAt(i);
        StartNext(blocks, i);
        InUseNext(blocks, i);
        if full || Hdr(pBlock).status == INUSE {
          sum := sum + Hdr(pBlock).sz + H;
        }
        pBlock := Hdr(pBlock).next;
        i := i + 1;
      }
      assert blocks[..|blocks|] == blocks;
      InUseBound(blocks);
    }
  }

  lemma JoinKeepsPayloads(s: seq<Byte>, s': seq<Byte>, bs: seq<Block>, i: nat)
    requires i + 1 < |bs| && Extent(bs) == |s| && |s| == |s'|
    requires OnlyThree(s, s', Start(bs, i), Start(bs, i + 2), Start(bs, i + 2))
    ensures forall o :: 0 <= o < |s| && InLive(bs, o) ==> s'[o] == s[o]
  {
    assert bs[..|bs|] == bs;
    forall o | 0 <= o < |s| && InLive(bs, o) ensures s'[o] == s[o] {
      if Within(o, Start(bs, i)) { HeadersAreNotLive(bs, i, o); }
      if Within(o, Start(bs, i + 2)) {
        if i + 2 < |bs| { HeadersAreNotLive(bs, i + 2, o); }
      }
    }
  }

  lemma CarveKeepsPayloads(s: seq<Byte>, s': seq<Byte>, bs: seq<Block>, i: nat, n: nat)
    requires i < |bs| && Fits(bs[i], n) && Extent(bs) == |s|
    requires OnlyThree(s, s', Start(bs, i), Start(bs, i) + H + n, Start(bs, i + 1))
    ensures forall o :: 0 <= o < |s| && InLive(bs, o) ==> s'[o] == s[o]
  {
    assert bs[..|bs|] == bs;
    forall o | 0 <= o < |s| && InLive(bs, o) ensures s'[o] == s[o] {
      if Within(o, Start(bs, i)) || Within(o, Start(bs, i) + H + n) { FreeBytesAreNotLive(bs, i, o); }
      if Within(o, Start(bs, i + 1)) && i + 1 < |bs| { HeadersAreNotLive(bs, i + 1, o); }
    }
  }

  lemma HeaderBytesNotLive(bs: seq<Block>, i: nat)
    requires i < |bs|
    ensures forall o :: Within(o, Start(bs, i)) ==> !InLive(bs, o)
  {
    forall o | Within(o, Start(bs, i)) ensures !InLive(bs, o) { HeadersAreNotLive(bs, i, o); }
  }

  /** free leaves a coalesced list, and what is live after it was live at each of its stages. */
  lemma FreeFacts(bs: seq<Block>, i: nat)
    requires i < |bs| && Coalesced(bs)
    ensures Coalesced(AfterFree(bs, i))
    ensures var b1 := bs[i := Block(bs[i].sz, true)];
      forall o :: InLive(AfterFree(bs, i), o) ==> InLive(b1, o) && InLive(MergeNext(b1, i), o)
  {
    FreeCoalesces(bs, i);
    MergesKeepLive(bs[i := Block(bs[i].sz, true)], i);
  }

  /** Bytes taken by the blocks in use, headers included. */
  function InUseExtent(bs: seq<Block>): nat {
    if bs == [] then 0 else (if bs[0].free then 0 else H + bs[0].sz) + InUseExtent(bs[1..])
  }

  lemma {:induction false} InUseNext(bs: seq<Block>, i: nat)
    requires i < |bs|
    ensures InUseExtent(bs[..i + 1]) == InUseExtent(bs[..i]) + if bs[i].free then 0 else H + bs[i].sz
  {
    if i == 0 {
      assert bs[..1] == [bs[0]];
    } else {
      assert bs[..i + 1][1..] == bs[1..][..i] && bs[..i][1..] == bs[1..][..i - 1];
      InUseNext(bs[1..], i - 1);
    }
  }

  lemma {:induction false} InUseBound(bs: seq<Block>)
    ensures InUseExtent(bs) <= Extent(bs)
  {
    if bs != [] { InUseBound(bs[1..]); }
  }
}
