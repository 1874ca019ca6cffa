/**
 * Which response lines survive every way of cutting the stream into reads (ATCommandsInterface::tryReadLine):
 * exactly those that fit the buffer and in which nothing follows a '>'.
 */
module ATLimits {
  import opened ATFraming
  import opened ATSpec
  import opened Wrappers

  // ----- cuts -----

  /** n reads of one character each. */
  function Ones(n: nat): seq<nat> {
    if n == 0 then [] else [1] + Ones(n - 1)
  }

  function Sum(cuts: seq<nat>): nat {
    if cuts == [] then 0 else cuts[0] + Sum(cuts[1..])
  }

  lemma {:induction false} SumOnes(n: nat)
    ensures Sum(Ones(n)) == n
  {
    if n > 0 {
      assert Ones(n)[1..] == Ones(n - 1);
      SumOnes(n - 1);
    }
  }

  /** What the next read takes of s. */
  function Bite(m: Machine, s: string, cut: nat): nat
    requires |m.f.buf| < SIZE - 1
  {
    Min(Min(cut, |s|), SIZE - 1 - |m.f.buf|)
  }

  lemma UnfoldFeed(m: Machine, s: string, cut: nat, cuts: seq<nat>, h: Handlers, n: nat)
    requires |m.f.buf| < SIZE - 1
    ensures var k := Bite(m, s, cut);
      var o := ReadLine(m, s[..k], h, n);
      var rest := Feed(o.m, s[k..], cuts, h, n + |o.events|);
      Feed(m, s, [cut] + cuts, h, n) == Fed(rest.m, o.events + rest.events, k + rest.taken)
  {
    hide ReadLine;
    assert ([cut] + cuts)[1..] == cuts;
  }

  lemma FeedNothing(m: Machine, s: string, h: Handlers, n: nat)
    requires |m.f.buf| < SIZE - 1
    ensures Feed(m, s, [], h, n) == Fed(m, [], 0)
  {
  }

  /** Reads that offer no more than p do not see what follows it. */
  lemma {:induction false} FeedPrefix(m: Machine, p: string, q: string, cuts: seq<nat>, h: Handlers, n: nat)
    requires |m.f.buf| < SIZE - 1 && Sum(cuts) <= |p|
    ensures Feed(m, p + q, cuts, h, n) == Feed(m, p, cuts, h, n)
    decreases |cuts|
  {
    hide ReadLine, Feed;
    FeedNothing(m, p, h, n);
    FeedNothing(m, p + q, h, n);
    if cuts != [] {
      var k := Bite(m, p, cuts[0]);
      assert k == Bite(m, p + q, cuts[0]) && cuts == [cuts[0]] + cuts[1..];
      assert (p + q)[..k] == p[..k] && (p + q)[k..] == p[k..] + q;
      UnfoldFeed(m, p, cuts[0], cuts[1..], h, n);
      UnfoldFeed(m, p + q, cuts[0], cuts[1..], h, n);
      var o := ReadLine(m, p[..k], h, n);
      FeedPrefix(o.m, p[k..], q, cuts[1..], h, n + |o.events|);
    }
  }

  lemma {:induction false} FeedConcat(m: Machine, s: string, c: seq<nat>, d: seq<nat>, h: Handlers, n: nat)
    requires |m.f.buf| < SIZE - 1
    ensures var x := Feed(m, s, c, h, n);
      var y := Feed(x.m, s[x.taken..], d, h, n + |x.events|);
      Feed(m, s, c + d, h, n) == Fed(y.m, x.events + y.events, x.taken + y.taken)
    decreases |c|
  {
    hide ReadLine, Feed;
    FeedNothing(m, s, h, n);
    if c == [] {
      assert c + d == d && s[0..] == s;
      var y := Feed(m, s, d, h, n);
      assert [] + y.events == y.events;
    } else {
      var k := Bite(m, s, c[0]);
      assert c == [c[0]] + c[1..] && c + d == [c[0]] + (c[1..] + d);
      UnfoldFeed(m, s, c[0], c[1..], h, n);
      UnfoldFeed(m, s, c[0], c[1..] + d, h, n);
      var o := ReadLine(m, s[..k], h, n);
      FeedConcat(o.m, s[k..], c[1..], d, h, n + |o.events|);
      var x := Feed(o.m, s[k..], c[1..], h, n + |o.events|);
      assert s[k..][x.taken..] == s[k + x.taken..];
      var y := Feed(x.m, s[k + x.taken..], d, h, n + |o.events + x.events|);
      assert o.events + (x.events + y.events) == (o.events + x.events) + y.events;
    }
  }

  /** Reads of one character take everything. */
  lemma {:induction false} OnesTakeAll(m: Machine, s: string, k: nat, h: Handlers, n: nat)
    requires |m.f.buf| < SIZE - 1 && |s| <= k
    ensures Feed(m, s, Ones(k), h, n).taken == |s|
    decreases k
  {
    hide ReadLine;
    if k > 0 {
      UnfoldFeed(m, s, 1, Ones(k - 1), h, n);
      var j := Bite(m, s, 1);
      var o := ReadLine(m, s[..j], h, n);
      OnesTakeAll(o.m, s[j..], k - 1, h, n + |o.events|);
    }
  }

  /** One read of c, if there is room for it. */
  lemma FeedOne(m: Machine, c: string, s: string, h: Handlers, n: nat)
    requires |m.f.buf| < SIZE - 1 && |m.f.buf| + |c| <= SIZE - 1
    ensures Feed(m, c + s, [|c|], h, n) == Fed(ReadLine(m, c, h, n).m, ReadLine(m, c, h, n).events, |c|)
  {
    hide ReadLine;
    assert (c + s)[..|c|] == c;
    var o := ReadLine(m, c, h, n);
    assert Feed(o.m, (c + s)[|c|..], [], h, n + |o.events|) == Fed(o.m, [], 0);
    assert [|c|][1..] == [] && o.events + [] == o.events;
  }

  // ----- what goes wrong -----

  /** The start of a frame in one read: with a character behind the first '>', the line is given up. Behind a
      blank everything is thrown away as the text of a prompt, otherwise what follows the '>' stays. */
  lemma GivesUpLine(m: Machine, l: string, g: nat, h: Handlers, n: nat)
    requires Quiet(h) && m.f == Framer("", false) && Clean(l) && g + 4 <= SIZE - 1
    requires g + 1 < |l| && l[g] == GD && GD !in l[..g]
    ensures ReadLine(m, [CR, LF] + l[..g + 2], h, n) ==
      if l[g + 1] == ' ' then Outputs(m, [Prompt], 0) else Outputs(m.(f := Framer([l[g + 1]], false)), [], 0)
  {
    hide Pump, Iterate, ReadLine;
    var x := l[..g + 2];
    var c := [CR, LF] + x;
    assert m.f.buf + c == c;
    var m1, m2 := m.(f := Framer(c, false)), m.(f := Framer(x, true));
    FirstPrompt(l, x, g);
    SeekBegins(m1, x, h, n);
    FinishesGivingUp(m2, g, h, n);
    IterateFrom(m1, m2, h, n);
    hide Seek, Finish;
    assert x[g + 1..] == [l[g + 1]];
    Settles(m1, h, n);
    PumpIsRead(m, c, h, n);
  }

  lemma FirstPrompt(l: string, x: string, g: nat)
    requires Clean(l) && g + 1 < |l| && l[g] == GD && GD !in l[..g] && x == l[..g + 2]
    ensures Stop(x, GD) == g && !Found(x, CR)
  {
    assert forall i :: 0 <= i < g ==> x[i] == l[..g][i] != GD;
    var i := Stop(x, GD);
    assert x[g] == GD;
    assert !(i < g) && !(g < i);
    StopAfterClean(x, x, CR);
  }

  /** CR LF and the first character of a line. */
  lemma SeekBegins(m: Machine, x: string, h: Handlers, n: nat)
    requires m.f == Framer([CR, LF] + x, false) && x != "" && x[0] != CR
    ensures Seek(m, h, n) == Stage(m.(f := Framer(x, true)), None, 0)
  {
    var c := [CR, LF] + x;
    assert c[2..] == x && c[0] == CR && c[2] == x[0];
    assert Stop(c, CR) == 0;
  }

  lemma IterateFrom(m: Machine, m2: Machine, h: Handlers, n: nat)
    requires !m.f.detected && m2.f.detected && Seek(m, h, n) == Stage(m2, None, 0)
    ensures Iterate(m, h, n) == Finish(m2, h, n)
  {
  }

  lemma FinishesGivingUp(m: Machine, g: nat, h: Handlers, n: nat)
    requires Quiet(h) && m.f.detected && |m.f.buf| == g + 2 && Stop(m.f.buf, GD) == g && m.f.buf[g] == GD
    requires !Found(m.f.buf, CR)
    ensures Finish(m, h, n) ==
      if m.f.buf[g + 1] == ' ' then Stage(m.(f := Framer("", false)), Some(Prompt), 0)
      else Stage(m.(f := Framer(m.f.buf[g + 1..], false)), None, 0)
  {
  }

  /** The loop is over when it has emptied the buffer, or found nothing to do. */
  lemma Settles(m: Machine, h: Handlers, n: nat)
    requires var s := Iterate(m, h, n);
      s.event.None? || (s.ret == 0 && s.m.f == Framer("", false))
    ensures var s := Iterate(m, h, n);
      Pump(m, h, n) == Outputs(s.m, if s.event.Some? then [s.event.value] else [], 0)
  {
    UnfoldPump(m, h, n);
    var s := Iterate(m, h, n);
    if s.event.Some? {
      UnfoldPump(s.m, h, n + 1);
      assert Iterate(s.m, h, n + 1) == Stage(s.m, None, 0);
      assert [s.event.value] + [] == [s.event.value];
    }
  }

  /** Text up to a CR that does not begin the buffer counts as an echo. */
  lemma EndsAsEcho(m: Machine, buf: string, c: string, y: string, h: Handlers, n: nat)
    requires Quiet(h) && m.f == Framer(buf, false) && buf + c == y + [CR] && c != ""
    requires Clean(y) && y != "" && |y| + 1 < SIZE - 1
    ensures ReadLine(m, c, h, n) == Outputs(Machine(Framer("", false), ProcessLine(m.t, y)), [Line(y)], 0)
  {
    var b := y + [CR];
    StopAfterClean(y, b, CR);
    var m1 := m.(f := m.f.(buf := b));
    assert b[..|y|] == y && b[|y| + 1..] == "";
    assert Iterate(m1, h, n) == Stage(Machine(Framer("", false), ProcessLine(m.t, y)), Some(Line(y)), 0);
    Settles(m1, h, n);
  }

  /** A response line that fills the buffer with its CR is thrown away before its LF can be read. */
  lemma FullBufferIsLost(m: Machine, l: string, c: string, h: Handlers, n: nat)
    requires Clean(l) && |l| == SIZE - 2
    requires m.f.detected && c != "" && m.f.buf + c == l + [CR]
    ensures ReadLine(m, c, h, n) == Outputs(m.(f := Framer("", false)), [], 0)
  {
    StopAfterClean(l, l + [CR], CR);
  }

  /** No line over 190 characters is delivered, whatever the input. */
  lemma {:induction false} FeedIsShort(m: Machine, s: string, cuts: seq<nat>, h: Handlers, n: nat, l: string)
    requires |m.f.buf| < SIZE - 1 && Line(l) in Feed(m, s, cuts, h, n).events
    ensures |l| <= SIZE - 2
    decreases |cuts|
  {
    hide ReadLine, Feed;
    FeedNothing(m, s, h, n);
    var k := Bite(m, s, cuts[0]);
    var o := ReadLine(m, s[..k], h, n);
    assert cuts == [cuts[0]] + cuts[1..];
    UnfoldFeed(m, s, cuts[0], cuts[1..], h, n);
    if Line(l) in o.events {
      ReadIsShort(m, s[..k], h, n, l);
    } else {
      FeedIsShort(o.m, s[k..], cuts[1..], h, n + |o.events|, l);
    }
  }

  lemma ReadIsShort(m: Machine, c: string, h: Handlers, n: nat, l: string)
    requires |m.f.buf| + |c| <= SIZE - 1 && Line(l) in ReadLine(m, c, h, n).events
    ensures |l| <= SIZE - 2
  {
    hide Pump;
    if c != "" { LinesAreShort(m.(f := m.f.(buf := m.f.buf + c)), h, n, l); }
  }

  // ----- a line in a stream -----

  function Started(t: Transaction): Machine {
    Machine(Framer("", false), t)
  }

  /** However the stream is cut, echo and lines come out once each, in order. */
  ghost predicate Survives(t: Transaction, e: string, ls: seq<string>, h: Handlers) {
    forall cuts ::
      var fed := Feed(Started(t), Stream(e, ls), cuts, h, 0);
      fed.taken == |Stream(e, ls)| ==> fed.events == Texts([e] + ls)
  }

  lemma {:induction false} FramesConcat(pre: seq<string>, post: seq<string>)
    ensures Frames(pre + post) == Frames(pre) + Frames(post)
  {
    hide Frame;
    if pre == [] {
      assert pre + post == post;
    } else {
      assert (pre + post)[1..] == pre[1..] + post;
      FramesConcat(pre[1..], post);
      assert Frame(pre[0]) + (Frames(pre[1..]) + Frames(post)) == (Frame(pre[0]) + Frames(pre[1..])) + Frames(post);
    }
  }

  lemma StreamParts(e: string, pre: seq<string>, l: string, post: seq<string>)
    ensures Stream(e, pre + [l] + post) == Stream(e, pre) + (Frame(l) + Frames(post))
  {
    hide Frame;
    assert pre + [l] + post == pre + ([l] + post);
    FramesConcat(pre, [l] + post);
    assert ([l] + post)[1..] == post;
    assert e + [CR] + (Frames(pre) + (Frame(l) + Frames(post))) == (e + [CR] + Frames(pre)) + (Frame(l) + Frames(post));
  }

  /** Character by character through p. */
  function Through(t: Transaction, p: string, h: Handlers): Fed {
    Feed(Started(t), p, Ones(|p|), h, 0)
  }

  /** Through the good lines, and then as d says. */
  lemma BehindGood(t: Transaction, e: string, pre: seq<string>, q: string, d: seq<nat>, h: Handlers)
    requires Quiet(h) && GoodEcho(e) && GoodLines(pre)
    ensures Through(t, Stream(e, pre), h).m.f == Framer("", false)
    ensures var p := Stream(e, pre);
      var x := Through(t, p, h);
      var y := Feed(x.m, q, d, h, |x.events|);
      Feed(Started(t), p + q, Ones(|p|) + d, h, 0) == Fed(y.m, Texts([e] + pre) + y.events, |p| + y.taken)
  {
    hide Feed, ReadLine, Stream, GoodEcho, GoodLines, Quiet, ProcessAll;
    var p := Stream(e, pre);
    var m0 := Started(t);
    SumOnes(|p|);
    FeedPrefix(m0, p, q, Ones(|p|), h, 0);
    OnesTakeAll(m0, p, |p|, h, 0);
    FramingIgnoresChunking(t, e, pre, Ones(|p|), h);
    FeedConcat(m0, p + q, Ones(|p|), d, h, 0);
    assert (p + q)[|p|..] == q && p[..|p|] == p;
  }

  /** A '>' that is not the last character: the reads d make something else come out first. */
  lemma BadStart(m: Machine, l: string, rest: string, h: Handlers, n: nat) returns (d: seq<nat>)
    requires Quiet(h) && m.f == Framer("", false) && Clean(l) && 0 < |l| <= SIZE - 3 && GD in l[..|l| - 1]
    ensures var y := Feed(m, Frame(l) + rest, d, h, n);
      y.events != [] && y.events[0] != Line(l)
  {
    hide Feed, ReadLine;
    var g := FirstGd(l);
    var c, more := [CR, LF] + l[..g + 2], l[g + 2..] + [CR, LF] + rest;
    assert Frame(l) + rest == c + more by { assert l == l[..g + 2] + l[g + 2..]; }
    GivesUpLine(m, l, g, h, n);
    FeedOne(m, c, more, h, n);
    d := [|c|];
    if l[g + 1] != ' ' {
      var c2, rest2 := l[g + 2..] + [CR], [LF] + rest;
      var x := Feed(m, c + more, d, h, n);
      assert more == c2 + rest2 && (c + more)[|c|..] == more && [l[g + 1]] + c2 == l[g + 1..] + [CR];
      EndsAsEcho(x.m, [l[g + 1]], c2, l[g + 1..], h, n);
      FeedOne(x.m, c2, rest2, h, n);
      FeedConcat(m, c + more, d, [|c2|], h, n);
      d := d + [|c2|];
    }
  }

  lemma FirstGd(l: string) returns (g: nat)
    requires |l| > 0 && GD in l[..|l| - 1]
    ensures g + 1 < |l| && l[g] == GD && GD !in l[..g]
  {
    var i :| 0 <= i < |l| - 1 && l[..|l| - 1][i] == GD;
    g := i;
    while GD in l[..g]
      invariant g + 1 < |l| && l[g] == GD
      decreases g
    {
      var j :| 0 <= j < g && l[..g][j] == GD;
      g := j;
    }
  }

  /** A line of 190 characters, read in three pieces, leaves no trace. */
  lemma LeavesNoTrace(m: Machine, l: string, rest: string, h: Handlers, n: nat)
    requires m.f == Framer("", false) && Clean(l) && |l| == SIZE - 2
    ensures Feed(m, Frame(l) + rest, [3, SIZE - 2, 1], h, n) == Fed(m, [], |Frame(l)|)
  {
    hide Feed, ReadLine, Pump;
    var a, b := [CR, LF, l[0]], l[1..] + [CR];
    assert l == [l[0]] + l[1..];
    var s := Frame(l) + rest;
    assert s == a + (b + ([LF] + rest));
    BeginsLine(m, l[0], h, n);
    var m1 := m.(f := Framer([l[0]], true));
    assert [l[0]] + b == l + [CR];
    FullBufferIsLost(m1, l, b, h, n);
    DropsLf(m, h, n);
    FeedOne(m, a, b + ([LF] + rest), h, n);
    FeedOne(m1, b, [LF] + rest, h, n);
    FeedOne(m, [LF], rest, h, n);
    assert s[3..] == b + ([LF] + rest) && (b + ([LF] + rest))[|b|..] == [LF] + rest;
    FeedConcat(m1, b + ([LF] + rest), [|b|], [1], h, n);
    FeedConcat(m, s, [3], [|b|] + [1], h, n);
    assert [3, SIZE - 2, 1] == [3] + ([|b|] + [1]);
  }

  lemma BeginsLine(m: Machine, c: char, h: Handlers, n: nat)
    requires m.f == Framer("", false) && c != CR && c != NUL
    ensures ReadLine(m, [CR, LF, c], h, n) == Outputs(m.(f := Framer([c], true)), [], 0)
  {
    hide Pump;
    var m1, m2 := m.(f := Framer([CR, LF] + [c], false)), m.(f := Framer([c], true));
    assert "" + [CR, LF, c] == [CR, LF] + [c];
    SeekBegins(m1, [c], h, n);
    IterateFrom(m1, m2, h, n);
    assert Finish(m2, h, n) == Stage(m2, None, 0);
    Settles(m1, h, n);
  }

  lemma DropsLf(m: Machine, h: Handlers, n: nat)
    requires m.f == Framer("", false)
    ensures ReadLine(m, [LF], h, n) == Outputs(m, [], 0)
  {
    var m1 := m.(f := Framer([LF], false));
    assert "" + [LF] == [LF];
    assert Iterate(m1, h, n) == Stage(m, None, 0);
    Settles(m1, h, n);
  }

  /** Good lines come out of a machine that is not in the middle of one. */
  lemma GoodTail(m: Machine, e: string, pre: seq<string>, post: seq<string>, h: Handlers, n: nat)
    requires Quiet(h) && GoodEcho(e) && GoodLines(pre) && GoodLines(post) && m.f == Framer("", false)
    ensures Feed(m, Frames(post), Ones(|Frames(post)|), h, n).events == Texts(post)
  {
    hide Feed, ReadLine, Quiet, GoodEcho, GoodLine, ProcessAll, CutStream, StateAfter, Stream, Frames;
    var r, s, ls := Stream(e, pre), Frames(post), pre + post;
    BetweenLines(e, pre, post);
    var lines := FeedFrom(m, e, ls, r, s, Ones(|s|), h, n);
    OnesTakeAll(m, s, |s|, h, n);
    assert s[..|s|] == s && [e] + ls == ([e] + pre) + lines;
    assert lines == ([e] + ls)[1 + |pre|..] == post;
  }

  /** Where the framer stands between two lines, and what it has delivered. */
  lemma BetweenLines(e: string, pre: seq<string>, post: seq<string>)
    ensures var r, s, ls := Stream(e, pre), Frames(post), pre + post;
      && r + s == Stream(e, ls) && StateAfter(e, ls, r) == Framer("", false)
      && CutStream(e, ls, r).lines == [e] + pre && CutStream(e, ls, r + s).lines == [e] + ls
  {
    hide CutFrames, Frames;
    var r, s, ls := Stream(e, pre), Frames(post), pre + post;
    FramesConcat(pre, post);
    CutsBefore(pre, post);
    CutWhole(ls);
    assert e + [CR] + (Frames(pre) + s) == (e + [CR] + Frames(pre)) + s;
    assert r[|e| + 1..] == Frames(pre) && (r + s)[|e| + 1..] == Frames(ls);
  }

  lemma {:induction false} CutsBefore(pre: seq<string>, post: seq<string>)
    ensures CutFrames(pre + post, Frames(pre)) == Cut(pre, "")
  {
    hide Frame;
    if pre == [] {
      assert pre + post == post;
      if post != [] { FrameIsLong(post[0]); }
    } else {
      assert (pre + post)[1..] == pre[1..] + post && (pre + post)[0] == pre[0];
      assert Frames(pre)[|Frame(pre[0])|..] == Frames(pre[1..]);
      CutsBefore(pre[1..], post);
      assert [pre[0]] + pre[1..] == pre;
    }
  }

  lemma FrameIsLong(l: string)
    ensures |Frame(l)| == |l| + 4
  {
  }

  /** For every line that is not good there is a way of cutting the stream in which it does not come out. */
  lemma BreaksLine(t: Transaction, e: string, pre: seq<string>, l: string, post: seq<string>, h: Handlers)
    requires Quiet(h) && GoodEcho(e) && GoodLines(pre) && GoodLines(post) && Clean(l) && l != "" && !GoodLine(l)
    ensures !Survives(t, e, pre + [l] + post, h)
  {
    hide Feed, Stream, Frame, Quiet, GoodEcho, GoodLines, ReadLine;
    var ls := pre + [l] + post;
    var s := Stream(e, ls);
    StreamParts(e, pre, l, post);
    if |l| > SIZE - 2 {
      OnesTakeAll(Started(t), s, |s|, h, 0);
      var fed := Feed(Started(t), s, Ones(|s|), h, 0);
      assert Texts([e] + ls)[1 + |pre|] == Line(l);
      if fed.events == Texts([e] + ls) { FeedIsShort(Started(t), s, Ones(|s|), h, 0, l); }
    } else if |l| == SIZE - 2 {
      BreaksLongLine(t, e, pre, l, post, h);
    } else {
      BreaksAtPrompt(t, e, pre, l, post, h);
    }
  }

  lemma BreaksLongLine(t: Transaction, e: string, pre: seq<string>, l: string, post: seq<string>, h: Handlers)
    requires Quiet(h) && GoodEcho(e) && GoodLines(pre) && GoodLines(post) && Clean(l) && |l| == SIZE - 2
    ensures !Survives(t, e, pre + [l] + post, h)
  {
    hide Feed, Stream, Quiet, GoodEcho, GoodLines, ReadLine, Frames;
    var ls := pre + [l] + post;
    var p, q := Stream(e, pre), Frame(l) + Frames(post);
    StreamParts(e, pre, l, post);
    var three, ones := [3, SIZE - 2, 1], Ones(|Frames(post)|);
    BehindGood(t, e, pre, q, three + ones, h);
    var m, n := Through(t, p, h).m, |Through(t, p, h).events|;
    LeavesNoTrace(m, l, Frames(post), h, n);
    FeedConcat(m, q, three, ones, h, n);
    assert q[|Frame(l)|..] == Frames(post);
    GoodTail(m, e, pre, post, h, n);
    OnesTakeAll(m, Frames(post), |Frames(post)|, h, n);
    assert [] + Texts(post) == Texts(post);
    var fed := Feed(Started(t), p + q, Ones(|p|) + (three + ones), h, 0);
    assert fed.taken == |p + q| && fed.events == Texts([e] + pre) + Texts(post);
    assert |fed.events| < |Texts([e] + ls)|;
  }

  lemma BreaksAtPrompt(t: Transaction, e: string, pre: seq<string>, l: string, post: seq<string>, h: Handlers)
    requires Quiet(h) && GoodEcho(e) && GoodLines(pre) && GoodLines(post)
    requires Clean(l) && 0 < |l| <= SIZE - 3 && GD in l[..|l| - 1]
    ensures !Survives(t, e, pre + [l] + post, h)
  {
    hide Feed, Stream, Quiet, GoodEcho, GoodLines, ReadLine, Frames;
    var ls := pre + [l] + post;
    var p, q := Stream(e, pre), Frame(l) + Frames(post);
    StreamParts(e, pre, l, post);
    var m, n := Through(t, p, h).m, |Through(t, p, h).events|;
    BehindGood(t, e, pre, q, [], h);
    var d := BadStart(m, l, Frames(post), h, n);
    var ones := Ones(|q|);
    BehindGood(t, e, pre, q, d + ones, h);
    var y := Feed(m, q, d, h, n);
    FeedConcat(m, q, d, ones, h, n);
    OnesTakeAll(y.m, q[y.taken..], |q|, h, n + |y.events|);
    var fed := Feed(Started(t), p + q, Ones(|p|) + (d + ones), h, 0);
    assert fed.taken == |p + q|;
    assert fed.events[|Texts([e] + pre)|] == y.events[0] != Line(l);
    assert Texts([e] + ls)[1 + |pre|] == Line(l);
  }

  /** A line among good ones comes out under every way of cutting the stream exactly if it has at most 189
      characters and none of them follows a '>'. */
  lemma LineSurvivesIff(t: Transaction, e: string, pre: seq<string>, l: string, post: seq<string>, h: Handlers)
    requires Quiet(h) && GoodEcho(e) && GoodLines(pre) && GoodLines(post) && Clean(l) && l != ""
    ensures Survives(t, e, pre + [l] + post, h) <==> |l| <= 189 && GD !in l[..|l| - 1]
  {
    hide Feed, Stream, Quiet, GoodEcho;
    var ls := pre + [l] + post;
    if GoodLine(l) {
      forall cuts
        ensures var fed := Feed(Started(t), Stream(e, ls), cuts, h, 0);
          fed.taken == |Stream(e, ls)| ==> fed.events == Texts([e] + ls)
      {
        FramingIgnoresChunking(t, e, ls, cuts, h);
      }
    } else {
      BreaksLine(t, e, pre, l, post, h);
    }
  }

  /** The line x>_y, cut behind the blank, comes out as a prompt and the line y. */
  lemma PromptSplitsLine(t: Transaction, x: string, y: string, h: Handlers)
    requires Quiet(h) && Clean(x) && Clean(y) && GD !in x && y != "" && |x| + 2 + |y| <= SIZE - 3
    ensures Feed(Started(t), Frame(x + "> " + y), [|x| + 4, |y| + 1], h, 0).events == [Prompt, Line(y)]
  {
    hide Feed, ReadLine;
    var l, g, m := x + "> " + y, |x|, Started(t);
    var c, c2 := [CR, LF] + l[..g + 2], y + [CR];
    assert l[..g] == x && l[g + 2..] == y && Frame(l) == c + (c2 + [LF]) && (c + (c2 + [LF]))[|c|..] == c2 + [LF];
    GivesUpLine(m, l, g, h, 0);
    FeedOne(m, c, c2 + [LF], h, 0);
    EndsAsEcho(m, "", c2, y, h, 1);
    FeedOne(m, c2, [LF], h, 1);
    FeedConcat(m, c + (c2 + [LF]), [|c|], [|c2|], h, 0);
    assert [|c|] + [|c2|] == [|x| + 4, |y| + 1] && [Prompt] + [Line(y)] == [Prompt, Line(y)];
  }

  // ----- a line that is too long, whatever the callbacks do -----

  /** The framer's state once k characters of s = Frame(l) have been read: not begun, in the line from its first
      character on, or past that with some of the last characters read. */
  predicate InFrame(f: Framer, s: string, k: nat)
    requires k <= |s|
  {
    || (!f.detected && f.buf == s[..k])
    || (f.detected && k >= 2 && f.buf == s[2..k])
    || (|f.buf| + 3 <= k && f.buf == s[k - |f.buf|..k])
  }

  /** What s leaves is the end of buf, from j on, and the text of its line is part of buf, from i on, in front
      of a CR. */
  predicate KeepsEnd(buf: string, s: Stage, j: nat, i: nat) {
    && j <= |buf| && s.m.f.buf == buf[j..]
    && (s.event.Some? && s.event.value.Line? ==>
          var x := s.event.value.text; i + |x| < |buf| && buf[i..i + |x|] == x && buf[i + |x|] == CR)
  }

  lemma DeliverKeepsEnd(m: Machine, cr: nat, used: nat, h: Handlers, n: nat)
    requires cr < used <= |m.f.buf| && m.f.buf[cr] == CR
    ensures var s := Deliver(m, m.f.buf[..cr], used, h, n);
      |s.m.f.buf| <= |m.f.buf| && KeepsEnd(m.f.buf, s, |m.f.buf| - |s.m.f.buf|, 0)
  {
    hide ProcessLine, Consults;
  }

  lemma SilentKeepsEnd(buf: string, m: Machine, j: nat)
    requires j <= |buf| && m.f.buf == buf[j..]
    ensures |m.f.buf| <= |buf| && KeepsEnd(buf, Stage(m, None, 0), |buf| - |m.f.buf|, 0)
  {
  }

  lemma SeekText(m: Machine, h: Handlers, n: nat) returns (used: nat)
    requires Found(m.f.buf, CR) && Stop(m.f.buf, CR) > 0
    ensures Stop(m.f.buf, CR) < used <= |m.f.buf|
    ensures Seek(m, h, n) == Deliver(m, m.f.buf[..Stop(m.f.buf, CR)], used, h, n)
  {
    hide Deliver, Stop;
    var buf, cr := m.f.buf, Stop(m.f.buf, CR);
    used := cr + (if cr + 1 < |buf| && buf[cr + 1] == LF then 1 else 0) + 1;
  }

  lemma SeekSilent(m: Machine, h: Handlers, n: nat) returns (j: nat)
    requires !(Found(m.f.buf, CR) && Stop(m.f.buf, CR) > 0)
    ensures var s := Seek(m, h, n);
      j <= |m.f.buf| && s == Stage(s.m, None, 0) && s.m.f.buf == m.f.buf[j..]
  {
    hide Deliver, Stop;
    var buf := m.f.buf;
    assert buf[0..] == buf;
    if Found(buf, CR) {
      j := if |buf| < 3 then 0 else if buf[1] == LF then 2 else 1;
    } else {
      j := if buf != [] && buf[0] == LF then 1 else 0;
    }
  }

  lemma SeekKeepsEnd(m: Machine, h: Handlers, n: nat)
    ensures var s := Seek(m, h, n);
      |s.m.f.buf| <= |m.f.buf| && KeepsEnd(m.f.buf, s, |m.f.buf| - |s.m.f.buf|, 0)
  {
    hide Deliver, Stop, KeepsEnd, Seek;
    if Found(m.f.buf, CR) && Stop(m.f.buf, CR) > 0 {
      var used := SeekText(m, h, n);
      DeliverKeepsEnd(m, Stop(m.f.buf, CR), used, h, n);
    } else {
      var j := SeekSilent(m, h, n);
      SilentKeepsEnd(m.f.buf, Seek(m, h, n).m, j);
    }
  }

  lemma FinishKeepsEnd(m: Machine, h: Handlers, n: nat)
    ensures var s := Finish(m, h, n);
      |s.m.f.buf| <= |m.f.buf| && KeepsEnd(m.f.buf, s, |m.f.buf| - |s.m.f.buf|, 0)
  {
    hide Deliver, Stop;
    var buf, cr := m.f.buf, Stop(m.f.buf, CR);
    if Found(buf, CR) && |buf| - cr >= 2 { DeliverKeepsEnd(m, cr, cr + 2, h, n); }
  }

  lemma IterateKeepsEnd(m: Machine, h: Handlers, n: nat) returns (j: nat, i: nat)
    ensures KeepsEnd(m.f.buf, Iterate(m, h, n), j, i)
  {
    hide Seek, Finish;
    var buf, s := m.f.buf, Iterate(m, h, n);
    SeekKeepsEnd(m, h, n);
    var m2 := Seek(m, h, n).m;
    FinishKeepsEnd(m, h, n);
    FinishKeepsEnd(m2, h, n);
    j, i := |buf| - |s.m.f.buf|, if !m.f.detected && m2.f.detected then |buf| - |m2.f.buf| else 0;
  }

  lemma IterateInFrame(m: Machine, l: string, k: nat, h: Handlers, n: nat)
    requires Clean(l) && |l| >= SIZE - 2 && k <= |Frame(l)| && |m.f.buf| <= SIZE - 1 && InFrame(m.f, Frame(l), k)
    ensures var s := Iterate(m, h, n);
      InFrame(s.m.f, Frame(l), k) && s.event != Some(Line(l))
  {
    var s := Frame(l);
    if |m.f.buf| + 3 <= k && m.f.buf == s[k - |m.f.buf|..k] {
      IterateLost(m, l, k, h, n);
    } else if m.f.detected {
      FinishLong(m, l, k, h, n);
    } else if k >= 3 {
      assert s[..k] == [CR, LF] + s[2..k] && s[2..k][0] == l[0];
      var m2 := m.(f := Framer(s[2..k], true));
      SeekBegins(m, s[2..k], h, n);
      IterateFrom(m, m2, h, n);
      FinishLong(m2, l, k, h, n);
    } else {
      assert k >= 1 ==> Stop(s[..k], CR) == 0;
    }
  }

  lemma IterateLost(m: Machine, l: string, k: nat, h: Handlers, n: nat)
    requires Clean(l) && k <= |Frame(l)| && |m.f.buf| + 3 <= k && m.f.buf == Frame(l)[k - |m.f.buf|..k]
    ensures var s := Iterate(m, h, n);
      InFrame(s.m.f, Frame(l), k) && s.event != Some(Line(l))
  {
    hide Iterate;
    var s, b := Frame(l), k - |m.f.buf|;
    var j, i := IterateKeepsEnd(m, h, n);
    assert m.f.buf[j..] == s[b + j..k];
    assert s[|l| + 3] == LF && forall x :: 3 <= x < |l| + 2 ==> s[x] == l[x - 2] != CR;
  }

  lemma FinishLong(m: Machine, l: string, k: nat, h: Handlers, n: nat)
    requires Clean(l) && |l| >= SIZE - 2 && 2 <= k <= |Frame(l)| && |m.f.buf| <= SIZE - 1
    requires m.f == Framer(Frame(l)[2..k], true)
    ensures var s := Finish(m, h, n);
      InFrame(s.m.f, Frame(l), k) && s.event != Some(Line(l))
  {
    var s, buf := Frame(l), m.f.buf;
    if |buf| <= |l| {
      assert buf == l[..|buf|];
      StopAfterClean(buf, buf, CR);
      var gd := Stop(buf, GD);
      if gd < |buf| { assert buf[gd + 1..] == s[2 + gd + 1..k]; }
    } else {
      assert buf == l + [CR];
      StopAfterClean(l, buf, CR);
    }
  }

  lemma {:induction false} PumpInFrame(m: Machine, l: string, k: nat, h: Handlers, n: nat)
    requires Clean(l) && |l| >= SIZE - 2 && k <= |Frame(l)| && |m.f.buf| <= SIZE - 1 && InFrame(m.f, Frame(l), k)
    ensures var o := Pump(m, h, n);
      InFrame(o.m.f, Frame(l), k) && Line(l) !in o.events
    decreases |m.f.buf|
  {
    hide Iterate, Pump, InFrame, Frame;
    IterateInFrame(m, l, k, h, n);
    UnfoldPump(m, h, n);
    var s := Iterate(m, h, n);
    if s.event.Some? && s.ret == 0 { PumpInFrame(s.m, l, k, h, n + 1); }
  }

  lemma ReadInFrame(m: Machine, l: string, k: nat, c: string, h: Handlers, n: nat)
    requires Clean(l) && |l| >= SIZE - 2 && InFrameAt(m.f, l, k) && |m.f.buf| + |c| <= SIZE - 1
    requires k + |c| <= |Frame(l)| && c == Frame(l)[k..k + |c|]
    ensures var o := ReadLine(m, c, h, n);
      InFrameAt(o.m.f, l, k + |c|) && Line(l) !in o.events
  {
    hide Pump, Frame, InFrame;
    if c == "" {
    } else {
      var m1 := m.(f := m.f.(buf := m.f.buf + c));
      InFrameMore(m.f, Frame(l), k, c);
      PumpInFrame(m1, l, k + |c|, h, n);
      if k + |c| >= 3 { EmptyInFrame(Frame(l), k + |c|); }
    }
  }

  lemma EmptyInFrame(s: string, k: nat)
    requires 3 <= k <= |s|
    ensures InFrame(Framer("", false), s, k)
  {
  }

  predicate InFrameAt(f: Framer, l: string, k: nat) {
    k <= |Frame(l)| && |f.buf| <= k && InFrame(f, Frame(l), k)
  }

  lemma InFrameMore(f: Framer, s: string, k: nat, c: string)
    requires k + |c| <= |s| && c == s[k..k + |c|] && InFrame(f, s, k)
    ensures InFrame(f.(buf := f.buf + c), s, k + |c|)
  {
    assert s[..k] + c == s[..k + |c|];
    if k >= 2 { assert s[2..k] + c == s[2..k + |c|]; }
    if |f.buf| <= k { assert s[k - |f.buf|..k] + c == s[k - |f.buf|..k + |c|]; }
  }

  /** A response line of 190 characters or more is never delivered, however it is cut and whatever the
      callbacks do. */
  lemma LongLineIsLost(t: Transaction, l: string, cuts: seq<nat>, h: Handlers)
    requires Clean(l) && |l| >= 190
    ensures Line(l) !in Feed(Started(t), Frame(l), cuts, h, 0).events
  {
    assert Frame(l)[0..] == Frame(l) && Frame(l)[..0] == "";
    FeedInFrame(Started(t), l, 0, cuts, h, 0);
  }

  lemma {:induction false} FeedInFrame(m: Machine, l: string, k: nat, cuts: seq<nat>, h: Handlers, n: nat)
    requires Clean(l) && |l| >= SIZE - 2 && InFrameAt(m.f, l, k) && |m.f.buf| < SIZE - 1
    ensures Line(l) !in Feed(m, Frame(l)[k..], cuts, h, n).events
    decreases |cuts|
  {
    hide Feed, ReadLine, Frame, InFrame;
    var s := Frame(l)[k..];
    FeedNothing(m, s, h, n);
    if cuts != [] {
      assert cuts == [cuts[0]] + cuts[1..];
      UnfoldFeed(m, s, cuts[0], cuts[1..], h, n);
      var j := Bite(m, s, cuts[0]);
      assert s[..j] == Frame(l)[k..k + j] && s[j..] == Frame(l)[k + j..];
      ReadInFrame(m, l, k, s[..j], h, n);
      var o := ReadLine(m, s[..j], h, n);
      FeedInFrame(o.m, l, k + j, cuts[1..], h, n + |o.events|);
    }
  }

  // ----- an echo that ends in CR LF -----

  /** Text in front of CR LF, with no line begun: it is delivered, and both characters go with it. */
  lemma TakesLf(m: Machine, x: string, rest: string, h: Handlers, n: nat)
    requires Quiet(h) && Clean(x) && x != "" && m.f == Framer(x + [CR, LF] + rest, false)
    ensures Iterate(m, h, n) == Stage(Machine(Framer(rest, false), ProcessLine(m.t, x)), Some(Line(x)), 0)
  {
    var r := m.f.buf;
    StopAfterClean(x, r, CR);
    assert r[..|x|] == x && r[|x|] == CR && r[|x| + 1] == LF && r[|x| + 2..] == rest;
  }

  /** All lines of a run of frames. */
  lemma WholeFrames(t: Transaction, ls: seq<string>, h: Handlers, n: nat)
    requires Quiet(h) && GoodLines(ls)
    ensures Pump(Machine(Framer(Frames(ls), false), t), h, n) ==
      Outputs(Machine(Framer("", false), ProcessAll(t, ls)), Texts(ls), 0)
  {
    hide Pump, ProcessAll, CutFrames;
    PumpFrames(Machine(Framer(Frames(ls), false), t), ls, Frames(ls), h, n);
    CutWhole(ls);
  }

  /** One more line in front. */
  lemma PumpOneMore(m: Machine, x: string, rest: string, ls: seq<string>, h: Handlers, n: nat)
    requires Quiet(h) && Clean(x) && x != "" && m.f == Framer(x + [CR, LF] + rest, false)
    requires var t1 := ProcessLine(m.t, x);
      Pump(Machine(Framer(rest, false), t1), h, n + 1) ==
        Outputs(Machine(Framer("", false), ProcessAll(t1, ls)), Texts(ls), 0)
    ensures Pump(m, h, n) == Outputs(Machine(Framer("", false), ProcessAll(m.t, [x] + ls)), Texts([x] + ls), 0)
  {
    hide Pump, ProcessAll, Iterate, ProcessLine;
    UnfoldPump(m, h, n);
    TakesLf(m, x, rest, h, n);
    UnfoldProcessCons(m.t, x, ls);
    assert [Line(x)] + Texts(ls) == Texts([x] + ls);
  }

  /** Read at once, an echo that ends in CR LF comes out like any other. */
  lemma EchoWithLf(t: Transaction, e: string, ls: seq<string>, h: Handlers, n: nat)
    requires Quiet(h) && GoodEcho(e) && GoodLines(ls)
    ensures Pump(Machine(Framer(e + [CR, LF] + Frames(ls), false), t), h, n) ==
      Outputs(Machine(Framer("", false), ProcessAll(t, [e] + ls)), Texts([e] + ls), 0)
  {
    hide Pump, ProcessAll, ProcessLine, Frames;
    WholeFrames(ProcessLine(t, e), ls, h, n + 1);
    PumpOneMore(Machine(Framer(e + [CR, LF] + Frames(ls), false), t), e, Frames(ls), ls, h, n);
  }

  /** If a read ends between the CR and the LF of the echo, and the response comes with the LF, a line that consists
      of the LF is delivered, in front of the lines of the response: for such echoes the cut does matter. */
  lemma EchoCutBeforeLf(t: Transaction, e: string, ls: seq<string>, h: Handlers, n: nat)
    requires Quiet(h) && GoodEcho(e) && GoodLines(ls) && ls != []
    ensures var t1 := ProcessLine(t, e);
      && Pump(Machine(Framer(e + [CR], false), t), h, n) == Outputs(Machine(Framer("", false), t1), [Line(e)], 0)
      && Pump(Machine(Framer([LF] + Frames(ls), false), t1), h, n + 1) ==
           Outputs(Machine(Framer("", false), ProcessAll(t1, [[LF]] + ls)), Texts([[LF]] + ls), 0)
  {
    hide Pump, ProcessAll, ProcessLine, Frames, Iterate;
    EchoAlone(t, e, h, n);
    var t1 := ProcessLine(t, e);
    var t2, l := ProcessLine(t1, [LF]), ls[0];
    assert GoodLine(l);
    var rest := Frames(ls[1..]);
    WholeFrames(ProcessLine(t2, l), ls[1..], h, n + 3);
    var m2 := Machine(Framer(l + [CR, LF] + rest, false), t2);
    PumpOneMore(m2, l, rest, ls[1..], h, n + 2);
    assert [l] + ls[1..] == ls;
    FrameAhead(ls);
    PumpOneMore(Machine(Framer([LF] + Frames(ls), false), t1), [LF], l + [CR, LF] + rest, ls, h, n + 1);
  }

  lemma FrameAhead(ls: seq<string>)
    requires ls != []
    ensures [LF] + Frames(ls) == [LF] + [CR, LF] + (ls[0] + [CR, LF] + Frames(ls[1..]))
  {
    assert Frames(ls) == Frame(ls[0]) + Frames(ls[1..]);
    Regrouped([CR, LF], ls[0], Frames(ls[1..]));
  }

  lemma Regrouped(e: string, l: string, rest: string)
    ensures [LF] + (e + l + e + rest) == [LF] + e + (l + e + rest)
  {
    assert e + l + e + rest == e + (l + e + rest);
  }

  lemma EchoAlone(t: Transaction, e: string, h: Handlers, n: nat)
    requires Quiet(h) && GoodEcho(e)
    ensures Pump(Machine(Framer(e + [CR], false), t), h, n) ==
      Outputs(Machine(Framer("", false), ProcessLine(t, e)), [Line(e)], 0)
  {
    hide Pump, Iterate, ProcessLine;
    var m := Machine(Framer(e + [CR], false), t);
    assert e + [CR] == e + [CR] + "";
    IterateEcho(m, e, "", h, n);
    UnfoldPump(m, h, n);
    var m1 := Machine(Framer("", false), ProcessLine(t, e));
    UnfoldPump(m1, h, n + 1);
    assert Iterate(m1, h, n + 1) == Stage(m1, None, 0) by { NothingLeft(m1, h, n + 1); }
    assert [Line(e)] + [] == [Line(e)];
  }

  lemma NothingLeft(m: Machine, h: Handlers, n: nat)
    requires m.f == Framer("", false)
    ensures Iterate(m, h, n) == Stage(m, None, 0)
  {
  }

  // ----- stray characters -----

  /** A CR that no LF follows is dropped and begins no line; what is behind it waits for the next read. */
  lemma StrayCrWaits(t: Transaction, e: string, ls: seq<string>, h: Handlers, n: nat)
    requires GoodEcho(e)
    ensures Pump(Machine(Framer([CR] + e + [CR] + Frames(ls), false), t), h, n) ==
      Outputs(Machine(Framer(e + [CR] + Frames(ls), false), t), [], 0)
  {
    hide Frames;
    var buf, rest := [CR] + e + [CR] + Frames(ls), e + [CR] + Frames(ls);
    assert buf == [CR] + rest && buf[1..] == rest;
    assert buf[1] == e[0];
  }

  /** A line broken off by a CR that no LF follows is dropped with it. */
  lemma BrokenLine(t: Transaction, x: string, c: char, rest: string, h: Handlers, n: nat)
    requires Clean(x) && c != LF
    ensures Pump(Machine(Framer(x + [CR, c] + rest, true), t), h, n) ==
      Outputs(Machine(Framer([c] + rest, false), t), [], 0)
  {
    var buf := x + [CR, c] + rest;
    StopAfterClean(x, buf, CR);
    assert buf[|x| + 1..] == [c] + rest;
  }
}
