/**
 * Framing does not depend on how the stream is cut into reads (ATCommandsInterface::tryReadLine): the echo
 * of the command and every response line framed by CR LF on both sides (ITU-T V.250, section 5.7.1) come
 * out once each, in order, as soon as their last character has been read.
 */
module ATFraming {
  import opened ATSpec
  import opened Wrappers

  /** Callbacks that return OK and do not call sendData. */
  ghost predicate Quiet(h: Handlers) {
    forall n: nat, e: Event :: h(n, e) == Outcome(0, false)
  }

  /** No character of s ends, breaks or prompts a line. */
  predicate Clean(s: string) {
    forall i :: 0 <= i < |s| ==> s[i] != CR && s[i] != NUL
  }

  predicate GoodEcho(e: string) {
    Clean(e) && 0 < |e| <= SIZE - 2 && LF !in e
  }

  /** A line that fits the buffer with its CR LF, and in which nothing follows a '>'. */
  predicate GoodLine(l: string) {
    Clean(l) && 0 < |l| <= SIZE - 3 && GD !in l[..|l| - 1]
  }

  predicate GoodLines(ls: seq<string>) {
    forall l :: l in ls ==> GoodLine(l)
  }

  function Frame(l: string): string {
    [CR, LF] + l + [CR, LF]
  }

  function Frames(ls: seq<string>): string {
    if ls == [] then "" else Frame(ls[0]) + Frames(ls[1..])
  }

  /** What the modem sends: the echo, and the response lines. */
  function Stream(e: string, ls: seq<string>): string {
    e + [CR] + Frames(ls)
  }

  // ----- the reference: lines complete within a prefix of the stream, and what is left over -----

  datatype Cut = Cut(lines: seq<string>, rest: string)

  function CutFrames(ls: seq<string>, r: string): Cut {
    if ls != [] && |Frame(ls[0])| <= |r| then
      var c := CutFrames(ls[1..], r[|Frame(ls[0])|..]);
      Cut([ls[0]] + c.lines, c.rest)
    else Cut([], r)
  }

  function CutStream(e: string, ls: seq<string>, r: string): Cut {
    if |r| <= |e| then Cut([], r)
    else
      var c := CutFrames(ls, r[|e| + 1..]);
      Cut([e] + c.lines, c.rest)
  }

  /** The framer's state for the characters left over behind the echo. */
  function Resting(rest: string): Framer {
    if |rest| < 3 then Framer(rest, false) else Framer(rest[2..], true)
  }

  function StateAfter(e: string, ls: seq<string>, r: string): Framer {
    if |r| <= |e| then Framer(r, false) else Resting(CutStream(e, ls, r).rest)
  }

  function Texts(ls: seq<string>): (es: seq<Event>)
    ensures |es| == |ls| && forall i :: 0 <= i < |ls| ==> es[i] == Line(ls[i])
  {
    seq(|ls|, i requires 0 <= i < |ls| => Line(ls[i]))
  }

  function ProcessAll(t: Transaction, ls: seq<string>): Transaction
    decreases |ls|
  {
    if ls == [] then t else ProcessAll(ProcessLine(t, ls[0]), ls[1..])
  }

  // ----- one run of the loop -----

  /** strchr in text followed by a CR. */
  lemma StopAfterClean(x: string, s: string, c: char)
    requires Clean(x) && c !in x && |x| <= |s| && s[..|x|] == x && (|s| > |x| ==> s[|x|] == CR)
    ensures if |s| > |x| && c == CR then Found(s, CR) && Stop(s, CR) == |x| else !Found(s, c) || Stop(s, c) > |x|
  {
    assert forall k :: 0 <= k < |x| ==> s[k] == x[k] && s[k] != c;
  }

  lemma FramePrefix(ls: seq<string>, r: string)
    requires ls != [] && r <= Frames(ls)
    ensures if |r| < |Frame(ls[0])| then r <= Frame(ls[0])
            else r[..|Frame(ls[0])|] == Frame(ls[0]) && r[|Frame(ls[0])|..] <= Frames(ls[1..])
  {
    var f := Frame(ls[0]);
    assert Frames(ls) == f + Frames(ls[1..]);
    if |r| >= |f| {
      assert r == Frames(ls)[..|r|];
      assert r[..|f|] == f;
      assert r[|f|..] == Frames(ls[1..])[..|r| - |f|];
    }
  }

  /** With a line begun and not yet complete, the loop waits. */
  lemma WaitsInLine(m: Machine, l: string, h: Handlers, n: nat)
    requires GoodLine(l) && m.f.detected && m.f.buf <= l + [CR, LF] && |m.f.buf| < |l| + 2
    ensures Finish(m, h, n) == Stage(m, None, 0)
  {
    var buf := m.f.buf;
    if |buf| <= |l| {
      assert buf == l[..|buf|];
      var k := if |buf| < |l| then |buf| else |l| - 1;
      StopAfterClean(buf, buf, CR);
      assert buf[..k] == l[..|l| - 1][..k];
      assert forall i :: 0 <= i < k ==> buf[i] == l[..|l| - 1][i] != GD;
    } else {
      StopAfterClean(l, buf, CR);
    }
  }

  /** A complete line at the front of the buffer is delivered and taken out. */
  lemma DeliversLine(m: Machine, l: string, rest: string, h: Handlers, n: nat)
    requires Quiet(h) && GoodLine(l) && m.f == Framer(l + [CR, LF] + rest, true)
    ensures Finish(m, h, n) ==
      Stage(Machine(Framer(rest, false), ProcessLine(m.t, l)), Some(Line(l)), 0)
  {
    var buf := m.f.buf;
    StopAfterClean(l, buf, CR);
    assert buf[..|l|] == l && buf[|l| + 2..] == rest;
  }

  /** Before a line, the loop needs CR, LF and one more character to begin it. */
  lemma SeekLine(m: Machine, l: string, more: string, h: Handlers, n: nat)
    requires GoodLine(l) && !m.f.detected && m.f.buf != "" && m.f.buf <= Frame(l) + more
    ensures Seek(m, h, n) == Stage(m.(f := Resting(m.f.buf)), None, 0)
  {
    var r, f := m.f.buf, Frame(l) + more;
    assert f[0] == CR && f[1] == LF && f[2] == l[0];
    assert forall i :: 0 <= i < |r| ==> r[i] == f[i];
  }

  /** One iteration from either form of the state that a begun or unbegun line can have. */
  lemma IterateFrames(m: Machine, ls: seq<string>, r: string, h: Handlers, n: nat)
    requires Quiet(h) && GoodLines(ls) && r <= Frames(ls)
    requires m.f == Framer(r, false) || (|r| >= 3 && m.f == Framer(r[2..], true))
    ensures Iterate(m, h, n) ==
      if ls != [] && |Frame(ls[0])| <= |r| then
        Stage(Machine(Framer(r[|Frame(ls[0])|..], false), ProcessLine(m.t, ls[0])), Some(Line(ls[0])), 0)
      else Stage(m.(f := Resting(r)), None, 0)
  {
    if r != "" {
      hide Finish;
      var l, f := ls[0], Frame(ls[0]);
      FramePrefix(ls, r);
      assert Frames(ls) == f + Frames(ls[1..]);
      if !m.f.detected {
        SeekLine(m, l, Frames(ls[1..]), h, n);
      }
      hide Seek;
      if |r| >= 3 {
        FinishFrame(m.(f := Framer(r[2..], true)), l, r, h, n);
      }
    }
  }

  lemma FinishFrame(m: Machine, l: string, r: string, h: Handlers, n: nat)
    requires Quiet(h) && GoodLine(l) && |r| >= 3 && m.f == Framer(r[2..], true)
    requires if |r| < |Frame(l)| then r <= Frame(l) else Frame(l) <= r
    ensures Finish(m, h, n) ==
      if |r| < |Frame(l)| then Stage(m, None, 0)
      else Stage(Machine(Framer(r[|Frame(l)|..], false), ProcessLine(m.t, l)), Some(Line(l)), 0)
  {
    hide Finish;
    var f := Frame(l);
    if |r| < |f| {
      assert r == f[..|r|] && f[2..] == l + [CR, LF];
      assert r[2..] == (l + [CR, LF])[..|r| - 2];
      WaitsInLine(m, l, h, n);
    } else {
      assert r == f + r[|f|..];
      assert r[2..] == l + [CR, LF] + r[|f|..];
      DeliversLine(m, l, r[|f|..], h, n);
    }
  }

  /** The loop hands on exactly the complete lines of r and rests with what follows them. */
  lemma {:induction false} PumpFrames(m: Machine, ls: seq<string>, r: string, h: Handlers, n: nat)
    requires Quiet(h) && GoodLines(ls) && r <= Frames(ls)
    requires m.f == Framer(r, false) || (|r| >= 3 && m.f == Framer(r[2..], true))
    ensures var c := CutFrames(ls, r);
      Pump(m, h, n) == Outputs(Machine(Resting(c.rest), ProcessAll(m.t, c.lines)), Texts(c.lines), 0)
    decreases |ls|
  {
    hide *;
    IterateFrames(m, ls, r, h, n);
    UnfoldPump(m, h, n);
    UnfoldCut(ls, r);
    UnfoldProcess(m.t);
    if ls != [] && |Frame(ls[0])| <= |r| {
      var rest := r[|Frame(ls[0])|..];
      FramePrefix(ls, r);
      AllGoodTail(ls);
      var next := Machine(Framer(rest, false), ProcessLine(m.t, ls[0]));
      PumpFrames(next, ls[1..], rest, h, n + 1);
      var c := CutFrames(ls[1..], rest);
      UnfoldProcessCons(m.t, ls[0], c.lines);
      assert [Line(ls[0])] + Texts(c.lines) == Texts([ls[0]] + c.lines);
    } else {
      assert Texts([]) == [];
    }
  }

  lemma AllGoodTail(ls: seq<string>)
    requires GoodLines(ls) && ls != []
    ensures GoodLines(ls[1..])
  {
  }

  lemma UnfoldPump(m: Machine, h: Handlers, n: nat)
    ensures var s := Iterate(m, h, n);
      Pump(m, h, n) ==
        if s.event.None? then Outputs(s.m, [], 0)
        else if s.ret != 0 then Outputs(s.m, [s.event.value], s.ret)
        else var rest := Pump(s.m, h, n + 1); Outputs(rest.m, [s.event.value] + rest.events, rest.ret)
  {
  }

  lemma UnfoldCut(ls: seq<string>, r: string)
    ensures CutFrames(ls, r) ==
      if ls != [] && |Frame(ls[0])| <= |r| then
        var c := CutFrames(ls[1..], r[|Frame(ls[0])|..]); Cut([ls[0]] + c.lines, c.rest)
      else Cut([], r)
  {
  }

  lemma UnfoldProcess(t: Transaction)
    ensures ProcessAll(t, []) == t
  {
  }

  lemma UnfoldProcessCons(t: Transaction, l: string, ls: seq<string>)
    ensures ProcessAll(t, [l] + ls) == ProcessAll(ProcessLine(t, l), ls)
  {
    assert ([l] + ls)[1..] == ls;
  }

  /** One iteration on an untouched buffer. */
  lemma IterateEcho(m: Machine, e: string, rest: string, h: Handlers, n: nat)
    requires Quiet(h) && GoodEcho(e) && m.f == Framer(e + [CR] + rest, false) && (rest != "" ==> rest[0] == CR)
    ensures Iterate(m, h, n) == Stage(Machine(Framer(rest, false), ProcessLine(m.t, e)), Some(Line(e)), 0)
  {
    var r := m.f.buf;
    StopAfterClean(e, r, CR);
    assert r[..|e|] == e && r[|e| + 1..] == rest;
    assert rest != "" ==> r[|e| + 1] == CR;
  }

  lemma IterateNoEcho(m: Machine, e: string, h: Handlers, n: nat)
    requires GoodEcho(e) && !m.f.detected && m.f.buf <= e
    ensures Iterate(m, h, n) == Stage(m, None, 0)
  {
    assert m.f.buf == e[..|m.f.buf|];
    StopAfterClean(m.f.buf, m.f.buf, CR);
  }

  /** From an untouched buffer the echo comes out first, as soon as its CR is there. */
  lemma PumpStream(m: Machine, e: string, ls: seq<string>, r: string, h: Handlers, n: nat)
    requires Quiet(h) && GoodEcho(e) && GoodLines(ls) && r <= Stream(e, ls) && m.f == Framer(r, false)
    ensures var c := CutStream(e, ls, r);
      Pump(m, h, n) == Outputs(Machine(StateAfter(e, ls, r), ProcessAll(m.t, c.lines)), Texts(c.lines), 0)
  {
    hide Iterate, ProcessLine, Pump, ProcessAll;
    assert r == Stream(e, ls)[..|r|];
    UnfoldPump(m, h, n);
    if |r| <= |e| {
      assert r == e[..|r|] && Texts([]) == [];
      IterateNoEcho(m, e, h, n);
      UnfoldProcess(m.t);
    } else {
      var rest := r[|e| + 1..];
      assert r == e + [CR] + rest && rest == Frames(ls)[..|rest|];
      IterateEcho(m, e, rest, h, n);
      var next := Machine(Framer(rest, false), ProcessLine(m.t, e));
      PumpFrames(next, ls, rest, h, n + 1);
      hide CutFrames;
      var c := CutFrames(ls, rest);
      UnfoldProcessCons(m.t, e, c.lines);
      assert [Line(e)] + Texts(c.lines) == Texts([e] + c.lines);
    }
  }

  /** Cutting a longer prefix: first the lines already cut, then those that c completes. */
  lemma {:induction false} CutExtends(ls: seq<string>, r: string, c: string)
    requires r + c <= Frames(ls)
    ensures var was, j := CutFrames(ls, r), |CutFrames(ls, r).lines|;
      && j <= |ls| && was.rest + c <= Frames(ls[j..]) && was.lines == ls[..j]
      && CutFrames(ls, r + c) ==
           Cut(was.lines + CutFrames(ls[j..], was.rest + c).lines, CutFrames(ls[j..], was.rest + c).rest)
    decreases |ls|
  {
    hide CutFrames, Frames, Frame;
    UnfoldCut(ls, r);
    if ls != [] && |Frame(ls[0])| <= |r| {
      var k := |Frame(ls[0])|;
      UnfoldCut(ls, r + c);
      FramePrefix(ls, r + c);
      assert (r + c)[k..] == r[k..] + c;
      CutExtends(ls[1..], r[k..], c);
      var was, j := CutFrames(ls[1..], r[k..]), |CutFrames(ls[1..], r[k..]).lines|;
      assert ls[1..][j..] == ls[j + 1..] && ls[..j + 1] == [ls[0]] + ls[1..][..j];
      var more := CutFrames(ls[j + 1..], was.rest + c).lines;
      assert [ls[0]] + (was.lines + more) == ([ls[0]] + was.lines) + more;
    } else {
      assert ls[0..] == ls && ls[..0] == [] && [] + CutFrames(ls, r + c).lines == CutFrames(ls, r + c).lines;
    }
  }

  /** What is left over never fills the buffer. */
  lemma {:induction false} RestIsShort(ls: seq<string>, r: string)
    requires GoodLines(ls) && r <= Frames(ls)
    ensures |Resting(CutFrames(ls, r).rest).buf| < SIZE - 1
    decreases |ls|
  {
    if ls != [] {
      assert GoodLine(ls[0]);
      FramePrefix(ls, r);
      if |Frame(ls[0])| <= |r| { RestIsShort(ls[1..], r[|Frame(ls[0])|..]); }
    }
  }

  // ----- any sequence of reads -----

  /** The lines that chunk c completes behind the prefix r of the stream. */
  function NewLines(e: string, ls: seq<string>, r: string, c: string): seq<string> {
    if |r| <= |e| then CutStream(e, ls, r + c).lines
    else
      var was := CutFrames(ls, r[|e| + 1..]);
      CutFrames(ls[if |was.lines| <= |ls| then |was.lines| else 0..], was.rest + c).lines
  }

  /** What one read that brings c does, from the state behind the prefix r of the stream. */
  predicate Reads(m: Machine, e: string, ls: seq<string>, r: string, c: string, o: Outputs) {
    var added := NewLines(e, ls, r, c);
    && o == Outputs(Machine(StateAfter(e, ls, r + c), ProcessAll(m.t, added)), Texts(added), 0)
    && CutStream(e, ls, r + c).lines == CutStream(e, ls, r).lines + added
  }

  lemma PumpIsRead(m: Machine, c: string, h: Handlers, n: nat)
    requires |m.f.buf| + |c| <= SIZE - 1 && c != ""
    ensures var o := Pump(m.(f := m.f.(buf := m.f.buf + c)), h, n);
      o.ret == 0 && |o.m.f.buf| < SIZE - 1 ==> ReadLine(m, c, h, n) == o
  {
  }

  lemma StateIsShort(e: string, ls: seq<string>, r: string)
    requires GoodEcho(e) && GoodLines(ls) && r <= Stream(e, ls)
    ensures |StateAfter(e, ls, r).buf| < SIZE - 1
    ensures |r| > |e| ==> r[|e| + 1..] <= Frames(ls)
  {
    assert r == Stream(e, ls)[..|r|];
    if |r| > |e| {
      assert r[|e| + 1..] == Frames(ls)[..|r| - |e| - 1];
      RestIsShort(ls, r[|e| + 1..]);
    }
  }

  lemma ReadInEcho(m: Machine, e: string, ls: seq<string>, r: string, c: string, h: Handlers, n: nat)
    requires Quiet(h) && GoodEcho(e) && GoodLines(ls) && r + c <= Stream(e, ls) && c != "" && |r| <= |e|
    requires m.f == Framer(r, false) && |m.f.buf| + |c| <= SIZE - 1
    ensures Reads(m, e, ls, r, c, ReadLine(m, c, h, n))
  {
    hide Pump;
    PumpStream(m.(f := Framer(r + c, false)), e, ls, r + c, h, n);
    StateIsShort(e, ls, r + c);
    PumpIsRead(m, c, h, n);
  }

  lemma ReadBehindEcho(m: Machine, e: string, ls: seq<string>, r: string, c: string, h: Handlers, n: nat)
    requires Quiet(h) && GoodEcho(e) && GoodLines(ls) && r + c <= Stream(e, ls) && c != "" && |r| > |e|
    requires m.f == StateAfter(e, ls, r) && |m.f.buf| + |c| <= SIZE - 1
    ensures Reads(m, e, ls, r, c, ReadLine(m, c, h, n))
  {
    hide Pump;
    hide CutFrames;
    hide Frames;
    StateIsShort(e, ls, r + c);
    var r0 := r[|e| + 1..];
    assert (r + c)[|e| + 1..] == r0 + c;
    CutExtends(ls, r0, c);
    var rest, j := CutFrames(ls, r0).rest, |CutFrames(ls, r0).lines|;
    if |rest| >= 3 { assert (rest + c)[2..] == rest[2..] + c; }
    PumpFrames(m.(f := m.f.(buf := m.f.buf + c)), ls[j..], rest + c, h, n);
    PumpIsRead(m, c, h, n);
    var old_lines, more := CutFrames(ls, r0).lines, CutFrames(ls[j..], rest + c).lines;
    assert [e] + (old_lines + more) == ([e] + old_lines) + more;
  }

  lemma ReadNothing(m: Machine, e: string, ls: seq<string>, r: string, h: Handlers, n: nat)
    requires m.f == StateAfter(e, ls, r) && |m.f.buf| < SIZE - 1
    ensures Reads(m, e, ls, r, "", ReadLine(m, "", h, n))
  {
    assert r + "" == r && Texts([]) == [];
    if |r| > |e| {
      var r0 := r[|e| + 1..];
      IdleCut(ls, r0);
      assert CutFrames(ls, r0).rest + "" == CutFrames(ls, r0).rest;
    }
  }

  lemma ReadStep(m: Machine, e: string, ls: seq<string>, r: string, c: string, h: Handlers, n: nat)
    requires Quiet(h) && GoodEcho(e) && GoodLines(ls) && r + c <= Stream(e, ls)
    requires m.f == StateAfter(e, ls, r) && |m.f.buf| < SIZE - 1 && |m.f.buf| + |c| <= SIZE - 1
    ensures Reads(m, e, ls, r, c, ReadLine(m, c, h, n))
    ensures |StateAfter(e, ls, r + c).buf| < SIZE - 1
  {
    hide Reads;
    hide ReadLine;
    StateIsShort(e, ls, r + c);
    if c == "" {
      ReadNothing(m, e, ls, r, h, n);
    } else if |r| <= |e| {
      ReadInEcho(m, e, ls, r, c, h, n);
    } else {
      ReadBehindEcho(m, e, ls, r, c, h, n);
    }
  }

  /** Nothing is complete in what is left over. */
  lemma {:induction false} IdleCut(ls: seq<string>, r: string)
    ensures var c := CutFrames(ls, r);
      |c.lines| <= |ls| && CutFrames(ls[|c.lines|..], c.rest) == Cut([], c.rest)
    decreases |ls|
  {
    if ls != [] && |Frame(ls[0])| <= |r| {
      var k := |Frame(ls[0])|;
      IdleCut(ls[1..], r[k..]);
      assert ls[1..][|CutFrames(ls[1..], r[k..]).lines|..] == ls[|CutFrames(ls, r).lines|..];
    }
  }

  /** taken: how many characters of the stream have been read. */
  datatype Fed = Fed(m: Machine, events: seq<Event>, taken: nat)

  function Min(a: nat, b: nat): nat {
    if a < b then a else b
  }

  /** tryReadLine over and over: each read gets at most what the cut offers, and what the buffer has room for. */
  function Feed(m: Machine, s: string, cuts: seq<nat>, h: Handlers, n: nat): (fed: Fed)
    requires |m.f.buf| < SIZE - 1
    ensures fed.taken <= |s| && |fed.m.f.buf| < SIZE - 1
    decreases |cuts|
  {
    if cuts == [] then Fed(m, [], 0)
    else
      var k := Min(Min(cuts[0], |s|), SIZE - 1 - |m.f.buf|);
      var o := ReadLine(m, s[..k], h, n);
      var rest := Feed(o.m, s[k..], cuts[1..], h, n + |o.events|);
      Fed(rest.m, o.events + rest.events, k + rest.taken)
  }

  /** fed is what feeding s does behind the prefix r of the stream, and lines are those delivered. */
  predicate Delivers(m: Machine, e: string, ls: seq<string>, r: string, s: string, fed: Fed, lines: seq<string>) {
    && fed.taken <= |s|
    && fed.m.f == StateAfter(e, ls, r + s[..fed.taken])
    && fed.events == Texts(lines) && fed.m.t == ProcessAll(m.t, lines)
    && CutStream(e, ls, r + s[..fed.taken]).lines == CutStream(e, ls, r).lines + lines
  }

  lemma {:induction false} FeedFrom(m: Machine, e: string, ls: seq<string>, r: string, s: string,
                                    cuts: seq<nat>, h: Handlers, n: nat) returns (lines: seq<string>)
    requires Quiet(h) && GoodEcho(e) && GoodLines(ls) && r + s == Stream(e, ls)
    requires m.f == StateAfter(e, ls, r) && |m.f.buf| < SIZE - 1
    ensures Delivers(m, e, ls, r, s, Feed(m, s, cuts, h, n), lines)
    decreases |cuts|
  {
    hide StateAfter, CutStream, ReadLine, ProcessAll, Stream, Quiet, GoodEcho, GoodLines, Delivers;
    if cuts == [] {
      lines := [];
      DeliversNothing(m, e, ls, r, s);
    } else {
      var k := Min(Min(cuts[0], |s|), SIZE - 1 - |m.f.buf|);
      var c, later := s[..k], s[k..];
      var o := ReadLine(m, c, h, n);
      Regroup(r, s, k, k);
      assert r + c == (r + s)[..|r| + k];
      ReadStep(m, e, ls, r, c, h, n);
      var lines' := FeedFrom(o.m, e, ls, r + c, later, cuts[1..], h, n + |o.events|);
      var rest := Feed(o.m, later, cuts[1..], h, n + |o.events|);
      JoinDeliveries(m, e, ls, r, s, k, o, rest, lines');
      lines := NewLines(e, ls, r, c) + lines';
    }
  }

  lemma DeliversNothing(m: Machine, e: string, ls: seq<string>, r: string, s: string)
    requires m.f == StateAfter(e, ls, r)
    ensures Delivers(m, e, ls, r, s, Fed(m, [], 0), [])
  {
    hide StateAfter, CutStream;
    assert r + s[..0] == r && Texts([]) == [];
    assert CutStream(e, ls, r).lines == CutStream(e, ls, r).lines + [];
  }

  lemma JoinDeliveries(m: Machine, e: string, ls: seq<string>, r: string, s: string, k: nat, o: Outputs, rest: Fed,
                       lines: seq<string>)
    requires k <= |s| && Reads(m, e, ls, r, s[..k], o) && Delivers(o.m, e, ls, r + s[..k], s[k..], rest, lines)
    ensures Delivers(m, e, ls, r, s, Fed(rest.m, o.events + rest.events, k + rest.taken),
                     NewLines(e, ls, r, s[..k]) + lines)
  {
    hide StateAfter, CutStream, ProcessAll, NewLines;
    Regroup(r, s, k, k + rest.taken);
    var added, before := NewLines(e, ls, r, s[..k]), CutStream(e, ls, r).lines;
    Together(m.t, added, lines);
    assert (before + added) + lines == before + (added + lines);
  }

  lemma Regroup(r: string, s: string, k: nat, j: nat)
    requires k <= j <= |s|
    ensures (r + s[..k]) + s[k..] == r + s
    ensures (r + s[..k]) + s[k..][..j - k] == r + s[..j]
  {
    assert s[k..][..j - k] == s[k..j];
    assert s[..k] + s[k..j] == s[..j];
  }

  lemma {:induction false} Together(t: Transaction, x: seq<string>, y: seq<string>)
    ensures Texts(x) + Texts(y) == Texts(x + y)
    ensures ProcessAll(ProcessAll(t, x), y) == ProcessAll(t, x + y)
    decreases |x|
  {
    if x == [] {
      assert x + y == y;
    } else {
      assert (x + y)[1..] == x[1..] + y;
      Together(ProcessLine(t, x[0]), x[1..], y);
    }
  }

  /** The framing theorem: however the stream is cut into reads, the lines delivered are those that the
      characters read so far complete, in order and once each; after the whole stream, all of them. */
  lemma FramingIgnoresChunking(t: Transaction, e: string, ls: seq<string>, cuts: seq<nat>, h: Handlers)
    requires Quiet(h) && GoodEcho(e) && GoodLines(ls)
    ensures var s, fed := Stream(e, ls), Feed(Machine(Framer("", false), t), Stream(e, ls), cuts, h, 0);
      var lines := CutStream(e, ls, s[..fed.taken]).lines;
      && fed.events == Texts(lines) && fed.m.t == ProcessAll(t, lines)
      && (fed.taken == |s| ==> lines == [e] + ls && fed.m.f == Framer("", false))
  {
    var s := Stream(e, ls);
    assert "" + s == s && CutStream(e, ls, "").lines == [];
    var lines := FeedFrom(Machine(Framer("", false), t), e, ls, "", s, cuts, h, 0);
    var fed := Feed(Machine(Framer("", false), t), s, cuts, h, 0);
    assert "" + s[..fed.taken] == s[..fed.taken] && [] + lines == lines;
    assert s[..|s|] == s && s[|e| + 1..] == Frames(ls);
    CutWhole(ls);
  }

  lemma {:induction false} CutWhole(ls: seq<string>)
    ensures CutFrames(ls, Frames(ls)) == Cut(ls, "")
  {
    if ls != [] {
      assert Frames(ls)[|Frame(ls[0])|..] == Frames(ls[1..]);
      CutWhole(ls[1..]);
      assert [ls[0]] + ls[1..] == ls;
    }
  }

  /** A command answered: whatever the cut, once its echo and its response lines have been read, of which the
      last is its final result code and no other is one, the result has been announced and the machine is idle. */
  lemma CommandIsAnswered(t: Transaction, ls: seq<string>, last: string, code: Code, cuts: seq<nat>, h: Handlers)
    requires Quiet(h) && GoodEcho(t.command) && GoodLines(ls) && GoodLine(last)
    requires t.state == COMMAND_SENT && Means(last, code) && forall l :: l in ls ==> Ordinary(l)
    ensures var s := Stream(t.command, ls + [last]);
      var fed := Feed(Machine(Framer("", false), t), s, cuts, h, 0);
      fed.taken == |s| ==>
        && fed.events == Texts([t.command] + (ls + [last]))
        && fed.m.t == Transaction(IDLE, t.command, t.posted + [code])
  {
    ResultCodeIff(last, code);
    hide ResultCode, Means;
    FramingIgnoresChunking(t, t.command, ls + [last], cuts, h);
    UnfoldProcessCons(t, t.command, ls + [last]);
    var t1 := t.(state := READING_RESULT);
    Together(t1, ls, [last]);
    ReadsOn(t1, ls);
    UnfoldProcessCons(t1, last, []);
    UnfoldProcess(ProcessLine(t1, last));
    assert [last] + [] == [last];
  }

  /** While results are read, lines that are no result code change nothing. */
  lemma {:induction false} ReadsOn(t: Transaction, ls: seq<string>)
    requires t.state == READING_RESULT && forall l :: l in ls ==> Ordinary(l)
    ensures ProcessAll(t, ls) == t
  {
    if ls != [] {
      OrdinaryIff(ls[0]);
      ReadsOn(t, ls[1..]);
    }
  }

  lemma IterateFails(m: Machine, h: Handlers, n: nat)
    ensures var s := Iterate(m, h, n);
      s.ret != 0 ==>
        s.event.Some? && s.event.value.Line? && s.ret == h(n, s.event.value).ret && s.m.f == Framer("", false)
  {
    hide Stop, ProcessLine;
  }

  /** An error is that of the processor on the last line, and leaves an empty buffer and no line begun. */
  predicate FailsAtLast(o: Outputs, h: Handlers, n: nat) {
    o.ret != 0 ==>
      && o.events != [] && o.events[|o.events| - 1].Line? && o.m.f == Framer("", false)
      && o.ret == h(n + |o.events| - 1, o.events[|o.events| - 1]).ret
  }

  lemma {:induction false} PumpFails(m: Machine, h: Handlers, n: nat)
    ensures FailsAtLast(Pump(m, h, n), h, n)
    decreases |m.f.buf|
  {
    hide Iterate, Pump;
    UnfoldPump(m, h, n);
    IterateFails(m, h, n);
    var s := Iterate(m, h, n);
    if s.event.Some? && s.ret == 0 { PumpFails(s.m, h, n + 1); }
  }

  /** The limits on echo and lines are the buffer's: nothing longer is ever delivered, whatever the input. */
  lemma {:induction false} LinesAreShort(m: Machine, h: Handlers, n: nat, l: string)
    requires |m.f.buf| <= SIZE - 1 && Line(l) in Pump(m, h, n).events
    ensures |l| <= 190
    decreases |m.f.buf|
  {
    var s := Iterate(m, h, n);
    hide Iterate;
    OneShortLine(m, h, n);
    if s.event != Some(Line(l)) {
      assert Pump(m, h, n).events == [s.event.value] + Pump(s.m, h, n + 1).events;
      LinesAreShort(s.m, h, n + 1, l);
    }
  }

  lemma OneShortLine(m: Machine, h: Handlers, n: nat)
    requires |m.f.buf| <= SIZE - 1
    ensures var e := Iterate(m, h, n).event; e.Some? && e.value.Line? ==> |e.value.text| <= SIZE - 2
  {
  }
}
