/**
 * The block list that MyMemoryAllocator keeps inside its arena, as a value: the blocks in
 * address order, each header of H bytes followed at once by its payload of sz bytes.
 */
module HeapSpec {

  const H := 20  // sizeof(MemBlock): three pointers, a uint16 and an enum, with padding

  datatype Block = Block(sz: nat, free: bool)

  /** Bytes taken by the blocks, headers included. */
  function Extent(bs: seq<Block>): nat {
    if bs == [] then 0 else H + bs[0].sz + Extent(bs[1..])
  }

  /** Offset of the header of block i. */
  function Start(bs: seq<Block>, i: nat): nat
    requires i <= |bs|
  {
    Extent(bs[..i])
  }

  datatype Payload = Payload(at: nat, sz: nat)

  /** The live payloads of a list whose first header is at a. */
  function Live(bs: seq<Block>, a: nat): set<Payload> {
    if bs == [] then {}
    else LiveOne(bs[0], a) + Live(bs[1..], a + H + bs[0].sz)
  }

  function LiveOne(b: Block, a: nat): set<Payload> {
    if b.free then {} else {Payload(a + H, b.sz)}
  }

  /** No two neighbours are both FREE. */
  predicate Coalesced(bs: seq<Block>) {
    forall i :: 0 < i < |bs| ==> !(bs[i - 1].free && bs[i].free)
  }

  /** malloc's request after `sz += sz % 4` in a uint16_t. */
  function Rounded(n: int): nat
    requires 0 <= n < 0x1_0000
  {
    (n + n % 4) % 0x1_0000
  }

  predicate Fits(b: Block, n: nat) {
    b.free && b.sz > n + H
  }

  /** The first block at or after i that can serve n bytes, |bs| when there is none. */
  function FirstFit(bs: seq<Block>, n: nat, i: nat): (k: nat)
    requires i <= |bs|
    ensures i <= k <= |bs|
    ensures forall j :: i <= j < k ==> !Fits(bs[j], n)
    ensures k < |bs| ==> Fits(bs[k], n)
    decreases |bs| - i
  {
    if i == |bs| || Fits(bs[i], n) then i else FirstFit(bs, n, i + 1)
  }

  /** Block i carved into n bytes in use and a FREE remainder. */
  function Split(bs: seq<Block>, i: nat, n: nat): seq<Block>
    requires i < |bs| && bs[i].sz >= n + H
  {
    bs[..i] + [Block(n, false), Block(bs[i].sz - n - H, true)] + bs[i + 1..]
  }

  /** Block i swallows its successor, header included. */
  function Merge(bs: seq<Block>, i: nat): seq<Block>
    requires i + 1 < |bs|
  {
    bs[..i] + [Block(bs[i].sz + H + bs[i + 1].sz, bs[i].free)] + bs[i + 2..]
  }

  function AfterMalloc(bs: seq<Block>, n: nat): seq<Block> {
    var i := FirstFit(bs, n, 0);
    if i == |bs| then bs else Split(bs, i, n)
  }

  function MergeNext(bs: seq<Block>, i: nat): seq<Block>
    requires i < |bs|
  {
    if i + 1 < |bs| && bs[i + 1].free then Merge(bs, i) else bs
  }

  function MergePrev(bs: seq<Block>, i: nat): seq<Block>
    requires i < |bs|
  {
    if i > 0 && bs[i - 1].free then Merge(bs, i - 1) else bs
  }

  function AfterFree(bs: seq<Block>, i: nat): seq<Block>
    requires i < |bs|
  {
    MergePrev(MergeNext(bs[i := Block(bs[i].sz, true)], i), i)
  }

  // ----- layout -----

  lemma {:induction false} ExtentConcat(a: seq<Block>, b: seq<Block>)
    ensures Extent(a + b) == Extent(a) + Extent(b)
  {
    if a == [] {
      assert a + b == b;
    } else {
      assert (a + b)[1..] == a[1..] + b;
      ExtentConcat(a[1..], b);
    }
  }

  lemma {:induction false} LiveConcat(a: seq<Block>, b: seq<Block>, at: nat)
    ensures Live(a + b, at) == Live(a, at) + Live(b, at + Extent(a))
  {
    if a == [] {
      assert a + b == b;
    } else {
      assert (a + b)[1..] == a[1..] + b;
      LiveConcat(a[1..], b, at + H + a[0].sz);
    }
  }

  lemma StartNext(bs: seq<Block>, i: nat)
    requires i < |bs|
    ensures Start(bs, i + 1) == Start(bs, i) + H + bs[i].sz
  {
    assert bs[..i + 1] == bs[..i] + [bs[i]];
    ExtentConcat(bs[..i], [bs[i]]);
  }

  /** Headers and payloads tile the arena: block j begins at or after the end of block i < j. */
  lemma {:induction false} Tiling(bs: seq<Block>, i: nat, j: nat)
    requires i < j <= |bs|
    ensures Start(bs, i) + H + bs[i].sz <= Start(bs, j)
    ensures j == i + 1 ==> Start(bs, i) + H + bs[i].sz == Start(bs, j)
    ensures Start(bs, j) <= Extent(bs)
    decreases j - i
  {
    assert bs[..j] + bs[j..] == bs;
    ExtentConcat(bs[..j], bs[j..]);
    StartNext(bs, j - 1);
    if i < j - 1 {
      Tiling(bs, i, j - 1);
    }
  }

  /** Every live payload is the payload of a block in use. */
  lemma {:induction false} LiveIsInUse(bs: seq<Block>, a: nat, p: Payload) returns (i: nat)
    requires p in Live(bs, a)
    ensures i < |bs| && !bs[i].free && p == Payload(a + Start(bs, i) + H, bs[i].sz)
  {
    if p in LiveOne(bs[0], a) {
      i := 0;
    } else {
      var j := LiveIsInUse(bs[1..], a + H + bs[0].sz, p);
      i := j + 1;
      assert bs[..i] == [bs[0]] + bs[1..][..j];
    }
  }

  lemma {:induction false} InUseIsLive(bs: seq<Block>, i: nat)
    requires i < |bs| && !bs[i].free
    ensures Payload(Start(bs, i) + H, bs[i].sz) in Live(bs, 0)
  {
    assert bs == bs[..i] + [bs[i]] + bs[i + 1..];
    SpliceParts(bs[..i], [bs[i]], bs[i + 1..]);
    LiveOfOne(bs[i], Start(bs, i));
  }

  /** Live payloads lie inside the arena and are separated from one another by at least a header. */
  lemma LiveDisjoint(bs: seq<Block>, p: Payload, q: Payload)
    requires p in Live(bs, 0) && q in Live(bs, 0) && p != q
    ensures H <= p.at && p.at + p.sz <= Extent(bs)
    ensures p.at + p.sz + H <= q.at || q.at + q.sz + H <= p.at
  {
    var i := LiveIsInUse(bs, 0, p);
    var j := LiveIsInUse(bs, 0, q);
    if j < i { Tiling(bs, j, i); } else { Tiling(bs, i, j); }
    Tiling(bs, i, |bs|);
  }

  // ----- malloc -----

  /** A request is served with at least the bytes asked for exactly when n + n % 4 fits a uint16_t. */
  lemma RoundedCovers(n: int)
    requires 0 <= n < 0x1_0000
    ensures Rounded(n) >= n <==> n <= 65533
  {
  }

  /** malloc adds exactly one live payload, of exactly n bytes, and keeps the rest of the list's shape. */
  lemma MallocAddsOne(bs: seq<Block>, n: nat)
    requires Coalesced(bs)
    ensures var i, bs' := FirstFit(bs, n, 0), AfterMalloc(bs, n);
      && Coalesced(bs') && Extent(bs') == Extent(bs)
      && (i == |bs| ==> bs' == bs && forall j :: 0 <= j < |bs| ==> !Fits(bs[j], n))
      && (i < |bs| ==>
            var p := Payload(Start(bs, i) + H, n);
            p !in Live(bs, 0) && Live(bs', 0) == Live(bs, 0) + {p})
  {
    hide Live;
    hide Extent;
    var i := FirstFit(bs, n, 0);
    if i < |bs| {
      FreeIsNotLive(bs, i, n);
      assert bs == bs[..i] + [bs[i]] + bs[i + 1..];
      CarveLive(bs[..i], bs[i], bs[i + 1..], n);
    }
  }

  lemma FreeIsNotLive(bs: seq<Block>, i: nat, n: nat)
    requires i < |bs| && bs[i].free
    ensures Payload(Start(bs, i) + H, n) !in Live(bs, 0)
  {
    var p := Payload(Start(bs, i) + H, n);
    if p in Live(bs, 0) {
      var j := LiveIsInUse(bs, 0, p);
      if j < i { Tiling(bs, j, i); } else { Tiling(bs, i, j); }
    }
  }

  lemma CarveLive(a: seq<Block>, b: Block, c: seq<Block>, n: nat)
    requires Fits(b, n)
    ensures var carved := a + [Block(n, false), Block(b.sz - n - H, true)] + c;
      Extent(carved) == Extent(a + [b] + c) && Live(carved, 0) == Live(a + [b] + c, 0) + {Payload(Extent(a) + H, n)}
  {
    hide Live;
    hide Extent;
    var used, rest := Block(n, false), Block(b.sz - n - H, true);
    SpliceParts(a, [b], c);
    SpliceParts(a, [used, rest], c);
    LiveOfOne(b, Extent(a));
    LiveOfTwo(used, rest, Extent(a));
  }

  lemma LiveOfOne(b: Block, a: nat)
    ensures Extent([b]) == H + b.sz && Live([b], a) == LiveOne(b, a)
  {
  }

  lemma LiveOfTwo(x: Block, y: Block, a: nat)
    ensures Extent([x, y]) == 2 * H + x.sz + y.sz
    ensures Live([x, y], a) == LiveOne(x, a) + LiveOne(y, a + H + x.sz)
  {
    assert [x, y] == [x] + [y];
    LiveConcat([x], [y], a);
    ExtentConcat([x], [y]);
  }

  /** Layout of three consecutive runs of blocks. */
  lemma SpliceParts(a: seq<Block>, b: seq<Block>, c: seq<Block>)
    ensures Extent(a + b + c) == Extent(a) + Extent(b) + Extent(c)
    ensures Extent(a + b) == Extent(a) + Extent(b)
    ensures Live(a + b + c, 0) == Live(a, 0) + Live(b, Extent(a)) + Live(c, Extent(a) + Extent(b))
  {
    ExtentConcat(a, b);
    ExtentConcat(a + b, c);
    LiveConcat(a, b, 0);
    LiveConcat(a + b, c, 0);
  }

  // ----- free -----

  /** The block whose payload begins at offset p, at or after i; |bs| when there is none. */
  function Find(bs: seq<Block>, p: int, i: nat): (k: nat)
    requires i <= |bs|
    ensures i <= k <= |bs|
    ensures k < |bs| ==> Start(bs, k) + H == p
    ensures forall j :: i <= j < k ==> Start(bs, j) + H != p
    decreases |bs| - i
  {
    if i == |bs| || Start(bs, i) + H == p then i else Find(bs, p, i + 1)
  }

  /** Marking a block in use FREE takes its payload, and nothing else, out of the live ones. */
  lemma MarkFree(bs: seq<Block>, i: nat)
    requires i < |bs| && !bs[i].free
    ensures var bs', p := bs[i := Block(bs[i].sz, true)], Payload(Start(bs, i) + H, bs[i].sz);
      p in Live(bs, 0) && Live(bs', 0) == Live(bs, 0) - {p} && Extent(bs') == Extent(bs)
  {
    hide Live;
    hide Extent;
    var x := Block(bs[i].sz, true);
    var bs' := bs[i := x];
    assert bs == bs[..i] + [bs[i]] + bs[i + 1..];
    assert bs' == bs[..i] + [x] + bs[i + 1..];
    assert bs'[..i] == bs[..i];
    SpliceParts(bs[..i], [bs[i]], bs[i + 1..]);
    SpliceParts(bs[..i], [x], bs[i + 1..]);
    LiveOfOne(bs[i], Start(bs, i));
    LiveOfOne(x, Start(bs, i));
    FreeIsNotLive(bs', i, bs[i].sz);
  }

  /** Joining two FREE neighbours moves no live payload. */
  lemma MergeKeepsLive(bs: seq<Block>, i: nat)
    requires i + 1 < |bs| && bs[i].free && bs[i + 1].free
    ensures Live(Merge(bs, i), 0) == Live(bs, 0) && Extent(Merge(bs, i)) == Extent(bs)
  {
    hide Live;
    hide Extent;
    var x := Block(bs[i].sz + H + bs[i + 1].sz, true);
    assert bs == bs[..i] + [bs[i], bs[i + 1]] + bs[i + 2..];
    SpliceParts(bs[..i], [bs[i], bs[i + 1]], bs[i + 2..]);
    SpliceParts(bs[..i], [x], bs[i + 2..]);
    LiveOfTwo(bs[i], bs[i + 1], Start(bs, i));
    LiveOfOne(x, Start(bs, i));
  }

  lemma FreeCoalesces(bs: seq<Block>, i: nat)
    requires Coalesced(bs) && i < |bs|
    ensures Coalesced(AfterFree(bs, i))
  {
    var b1 := bs[i := Block(bs[i].sz, true)];
    var b2 := MergeNext(b1, i);
    assert i + 1 < |b2| ==> !b2[i + 1].free;
    assert forall k :: 0 < k < |b2| && k != i ==> !(b2[k - 1].free && b2[k].free);
  }

  /** free removes exactly the payload it was given and leaves no two FREE neighbours. */
  lemma FreeRemovesOne(bs: seq<Block>, i: nat)
    requires Coalesced(bs) && i < |bs| && !bs[i].free
    ensures var bs', p := AfterFree(bs, i), Payload(Start(bs, i) + H, bs[i].sz);
      && Coalesced(bs') && Extent(bs') == Extent(bs)
      && p in Live(bs, 0) && Live(bs', 0) == Live(bs, 0) - {p}
  {
    FreeCoalesces(bs, i);
    MarkFree(bs, i);
    MergesKeepLive(bs[i := Block(bs[i].sz, true)], i);
  }

  lemma MergesKeepLive(bs: seq<Block>, i: nat)
    requires i < |bs| && bs[i].free
    ensures var bs' := MergePrev(MergeNext(bs, i), i);
      Live(bs', 0) == Live(bs, 0) && Extent(bs') == Extent(bs)
    ensures Live(MergeNext(bs, i), 0) == Live(bs, 0)
  {
    var b2 := MergeNext(bs, i);
    if i + 1 < |bs| && bs[i + 1].free { MergeKeepsLive(bs, i); }
    if i > 0 && b2[i - 1].free { MergeKeepsLive(b2, i - 1); }
  }

  /** free of a block already FREE is no change at all. */
  lemma FreeTwice(bs: seq<Block>, i: nat)
    requires Coalesced(bs) && i < |bs| && bs[i].free
    ensures AfterFree(bs, i) == bs
  {
    assert bs[i := Block(bs[i].sz, true)] == bs;
  }

  /** free of a pointer that owns no live payload changes nothing. */
  lemma FreeOfDeadPointer(bs: seq<Block>, p: int)
    requires Coalesced(bs) && forall x :: x in Live(bs, 0) ==> x.at != p
    ensures Step(bs, Free(p)) == bs
  {
    var i := Find(bs, p, 0);
    if i < |bs| {
      if bs[i].free { FreeTwice(bs, i); } else { InUseIsLive(bs, i); }
    }
  }

  // ----- canonical form -----

  /** Everything below a, where the list begins, is outside of its live payloads. */
  lemma LiveAbove(bs: seq<Block>, a: nat, p: Payload)
    requires p in Live(bs, a)
    ensures a + H <= p.at
  {
    var i := LiveIsInUse(bs, a, p);
  }

  lemma CoalescedTail(bs: seq<Block>)
    requires Coalesced(bs) && bs != []
    ensures Coalesced(bs[1..])
  {
    forall i | 0 < i < |bs[1..]| ensures !(bs[1..][i - 1].free && bs[1..][i].free) {
      assert bs[1..][i] == bs[i + 1] && bs[1..][i - 1] == bs[i];
    }
  }

  /** A list that opens with a block in use: its first payload and the others. */
  lemma FirstInUse(bs: seq<Block>, a: nat)
    requires bs != [] && !bs[0].free
    ensures Payload(a + H, bs[0].sz) in Live(bs, a)
    ensures forall p :: p in Live(bs, a) && p.at == a + H ==> p.sz == bs[0].sz
    ensures Live(bs[1..], a + H + bs[0].sz) == Live(bs, a) - {Payload(a + H, bs[0].sz)}
  {
    forall p | p in Live(bs[1..], a + H + bs[0].sz) ensures a + H < p.at {
      LiveAbove(bs[1..], a + H + bs[0].sz, p);
    }
  }

  /** A coalesced list that opens with a FREE block: the block ends where the first live payload's
      header begins, or at the end of the arena. */
  lemma FirstFree(bs: seq<Block>, a: nat)
    requires bs != [] && bs[0].free && Coalesced(bs)
    ensures forall p :: p in Live(bs, a) ==> a + 2 * H + bs[0].sz <= p.at
    ensures if |bs| == 1 then Live(bs, a) == {} && bs[0].sz + H == Extent(bs)
            else Payload(a + 2 * H + bs[0].sz, bs[1].sz) in Live(bs, a)
  {
    var at := a + H + bs[0].sz;
    forall p | p in Live(bs, a) ensures at + H <= p.at { LiveAbove(bs[1..], at, p); }
    if |bs| > 1 {
      FirstInUse(bs[1..], at);
    }
  }

  /** The live payloads and the size of the arena determine a coalesced block list completely. */
  lemma {:induction false} CanonicalForm(x: seq<Block>, y: seq<Block>, a: nat)
    requires Coalesced(x) && Coalesced(y) && Extent(x) == Extent(y) && Live(x, a) == Live(y, a)
    ensures x == y
  {
    if x != [] && y != [] {
      CanonicalHead(x, y, a);
      CoalescedTail(x);
      CoalescedTail(y);
      if !x[0].free {
        FirstInUse(x, a);
        FirstInUse(y, a);
      }
      CanonicalForm(x[1..], y[1..], a + H + x[0].sz);
      assert x == [x[0]] + x[1..] && y == [y[0]] + y[1..];
    }
  }

  lemma CanonicalHead(x: seq<Block>, y: seq<Block>, a: nat)
    requires x != [] && y != []
    requires Coalesced(x) && Coalesced(y) && Extent(x) == Extent(y) && Live(x, a) == Live(y, a)
    ensures x[0] == y[0]
  {
    if x[0].free { FirstFree(x, a); } else { FirstInUse(x, a); }
    if y[0].free { FirstFree(y, a); } else { FirstInUse(y, a); }
  }

  // ----- whole runs -----

  datatype Call = Malloc(n: int) | Free(p: int)

  predicate Legal(c: Call) {
    c.Malloc? ==> 0 <= c.n < 0x1_0000
  }

  function Step(bs: seq<Block>, c: Call): seq<Block>
    requires Legal(c)
  {
    match c
    case Malloc(n) => AfterMalloc(bs, Rounded(n))
    case Free(p) => var i := Find(bs, p, 0); if i == |bs| then bs else AfterFree(bs, i)
  }

  /** The list the constructor makes in an arena of m bytes. */
  function Fresh(m: nat): seq<Block>
    requires m >= H
  {
    [Block(m - H, true)]
  }

  function Run(bs: seq<Block>, calls: seq<Call>): seq<Block>
    requires forall c :: c in calls ==> Legal(c)
    decreases |calls|
  {
    if calls == [] then bs else Run(Step(bs, calls[0]), calls[1..])
  }

  lemma StepKeeps(bs: seq<Block>, c: Call)
    requires Legal(c) && Coalesced(bs)
    ensures Coalesced(Step(bs, c)) && Extent(Step(bs, c)) == Extent(bs)
  {
    match c
    case Malloc(n) => MallocAddsOne(bs, Rounded(n));
    case Free(p) =>
      var i := Find(bs, p, 0);
      if i < |bs| && !bs[i].free {
        FreeRemovesOne(bs, i);
      } else if i < |bs| {
        FreeTwice(bs, i);
      }
  }

  /** Conservation and maximal coalescing over every run. */
  lemma {:induction false} RunKeeps(bs: seq<Block>, calls: seq<Call>)
    requires Coalesced(bs) && forall c :: c in calls ==> Legal(c)
    ensures Coalesced(Run(bs, calls)) && Extent(Run(bs, calls)) == Extent(bs)
    decreases |calls|
  {
    if calls != [] {
      StepKeeps(bs, calls[0]);
      RunKeeps(Step(bs, calls[0]), calls[1..]);
    }
  }

  /** Any two histories of one arena that end with the same live payloads end with the same heap:
      fragmentation leaves no trace. */
  lemma RunsAreCanonical(m: nat, c: seq<Call>, d: seq<Call>)
    requires m >= H && (forall x :: x in c ==> Legal(x)) && forall x :: x in d ==> Legal(x)
    requires Live(Run(Fresh(m), c), 0) == Live(Run(Fresh(m), d), 0)
    ensures Run(Fresh(m), c) == Run(Fresh(m), d)
  {
    RunKeeps(Fresh(m), c);
    RunKeeps(Fresh(m), d);
    CanonicalForm(Run(Fresh(m), c), Run(Fresh(m), d), 0);
  }

  /** Once every live payload has been freed, in whatever order, one FREE block spans the arena again. */
  lemma AllFreedIsFresh(m: nat, calls: seq<Call>)
    requires m >= H && forall x :: x in calls ==> Legal(x)
    ensures Live(Run(Fresh(m), calls), 0) == {} <==> Run(Fresh(m), calls) == [Block(m - H, true)]
  {
    LiveOfOne(Block(m - H, true), 0);
    if Live(Run(Fresh(m), calls), 0) == {} {
      RunsAreCanonical(m, calls, []);
    }
  }

  /** findBlock recovers block i from the address of its payload. */
  lemma FindsStart(bs: seq<Block>, i: nat)
    requires i < |bs|
    ensures Find(bs, Start(bs, i) + H, 0) == i
  {
    var j := Find(bs, Start(bs, i) + H, 0);
    if j < i { Tiling(bs, j, i); }
  }

  /** Freeing what malloc has just returned restores the identical block list. */
  lemma FreeUndoesMalloc(bs: seq<Block>, n: int)
    requires 0 <= n < 0x1_0000 && Coalesced(bs) && FirstFit(bs, Rounded(n), 0) < |bs|
    ensures Step(Step(bs, Malloc(n)), Free(Start(bs, FirstFit(bs, Rounded(n), 0)) + H)) == bs
  {
    hide Live;
    hide Extent;
    hide AfterFree;
    hide Coalesced;
    var i := FirstFit(bs, Rounded(n), 0);
    var used := AfterMalloc(bs, Rounded(n));
    SplitAt(bs, i, Rounded(n));
    FindsStart(used, i);
    MallocAddsOne(bs, Rounded(n));
    UndoCarve(bs, used, i);
  }

  lemma SplitAt(bs: seq<Block>, i: nat, n: nat)
    requires i < |bs| && bs[i].sz >= n + H
    ensures i < |Split(bs, i, n)| && Split(bs, i, n)[i] == Block(n, false) && Start(Split(bs, i, n), i) == Start(bs, i)
  {
    assert Split(bs, i, n)[..i] == bs[..i];
  }

  lemma UndoCarve(bs: seq<Block>, used: seq<Block>, i: nat)
    requires Coalesced(bs) && Coalesced(used) && Extent(used) == Extent(bs) && i < |used| && !used[i].free
    requires var p := Payload(Start(used, i) + H, used[i].sz);
      p !in Live(bs, 0) && Live(used, 0) == Live(bs, 0) + {p}
    ensures AfterFree(used, i) == bs
  {
    FreeRemovesOne(used, i);
    CanonicalForm(AfterFree(used, i), bs, 0);
  }
}
