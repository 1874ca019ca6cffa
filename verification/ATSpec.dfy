/**
 * The line framer and command state machine of Pyrn3GModem/ATCommandsInterface.cpp, as functions on values:
 * what one read does to the input buffer, which lines it hands on, and what those do to the transaction.
 */
module ATSpec {
  import opened Wrappers

  const CR := '\r'
  const LF := '\n'
  const GD := '>'
  const NUL := '\0'
  const SIZE := 192  // AT_INPUT_BUF_SIZE

  /** Index of the first c or NUL: where strchr stops. */
  function Stop(s: string, c: char): (i: nat)
    ensures i <= |s| && forall k :: 0 <= k < i ==> s[k] != c && s[k] != NUL
    ensures i < |s| ==> s[i] == c || s[i] == NUL
  {
    if s == [] || s[0] == c || s[0] == NUL then 0
    else
      var i := Stop(s[1..], c);
      assert forall k :: 1 <= k < i + 1 ==> s[k] == s[1..][k - 1];
      i + 1
  }

  predicate Found(s: string, c: char) {
    Stop(s, c) < |s| && s[Stop(s, c)] == c
  }

  // ----- transactions -----

  datatype TState = IDLE | COMMAND_SENT | READING_RESULT
  datatype Code = AT_OK | AT_ERROR | AT_CONNECT | AT_CMS_ERROR | AT_CME_ERROR

  /** posted: the results announced by AT_RESULT_READY so far. */
  datatype Transaction = Transaction(state: TState, command: string, posted: seq<Code>)

  predicate IsPrefix(p: string, s: string) {
    p <= s
  }

  /** The final result code a line stands for, if it is one. */
  function ResultCode(line: string): Option<Code> {
    if line == "OK" then Some(AT_OK)
    else if line == "ERROR" then Some(AT_ERROR)
    else if IsPrefix("CONNECT", line) then Some(AT_CONNECT)
    else if line == "COMMAND NOT SUPPORT" then Some(AT_ERROR)
    else if IsPrefix("+CME ERROR:", line) then Some(AT_CME_ERROR)
    else if IsPrefix("+CMS ERROR:", line) then Some(AT_CMS_ERROR)
    else None
  }

  /** The lines that end a result, and what they announce. */
  predicate Means(line: string, code: Code) {
    match code
    case AT_OK => line == "OK"
    case AT_ERROR => line == "ERROR" || line == "COMMAND NOT SUPPORT"
    case AT_CONNECT => "CONNECT" <= line
    case AT_CME_ERROR => "+CME ERROR:" <= line
    case AT_CMS_ERROR => "+CMS ERROR:" <= line
  }

  lemma PrefixAt(p: string, line: string, i: nat)
    requires p <= line && i < |p|
    ensures i < |line| && line[i] == p[i]
  {
  }

  /** A line announces exactly what it means, and no line means two things. */
  lemma ResultCodeIff(line: string, code: Code)
    ensures ResultCode(line) == Some(code) <==> Means(line, code)
  {
    if "CONNECT" <= line { PrefixAt("CONNECT", line, 0); }
    if "+CME ERROR:" <= line { PrefixAt("+CME ERROR:", line, 3); }
    if "+CMS ERROR:" <= line { PrefixAt("+CMS ERROR:", line, 3); }
    if "CONNECT" <= line && line == "COMMAND NOT SUPPORT" { PrefixAt("CONNECT", line, 2); }
    if "+CME ERROR:" <= line { PrefixAt("+CME ERROR:", line, 0); }
    if "+CMS ERROR:" <= line { PrefixAt("+CMS ERROR:", line, 0); }
  }

  /** No final result: the line is the running command's business. */
  predicate Ordinary(line: string) {
    forall code :: !Means(line, code)
  }

  lemma OrdinaryIff(line: string)
    ensures ResultCode(line).None? <==> Ordinary(line)
  {
    hide ResultCode, Means;
    forall code ensures ResultCode(line) == Some(code) <==> Means(line, code) { ResultCodeIff(line, code); }
    if ResultCode(line).Some? { assert Means(line, ResultCode(line).value); }
  }

  /** processReadLine up to the point where the command's own processor is consulted. */
  function ProcessLine(t: Transaction, line: string): Transaction {
    if t.state == COMMAND_SENT && line == t.command then t.(state := READING_RESULT)
    else if t.state == READING_RESULT && ResultCode(line).Some? then
      t.(state := IDLE, posted := t.posted + [ResultCode(line).value])
    else t
  }

  /** Lines that go to the processor of the running command. */
  predicate Consults(t: Transaction, line: string) {
    t.state == READING_RESULT && ResultCode(line).None?
  }

  // ----- framing -----

  /** buf: the m_inputPos characters read and not yet consumed. */
  datatype Framer = Framer(buf: string, detected: bool)
  datatype Machine = Machine(f: Framer, t: Transaction)

  datatype Event = Line(text: string) | Prompt

  /** What a callback did: its return code, and whether it called sendData, which empties the buffer. */
  datatype Outcome = Outcome(ret: int, cleared: bool)

  const NET_MOREINFO := 11

  /** A prompt is answered by the handler's own sendData, or closed by processEntryPrompt's. */
  predicate PromptClears(o: Outcome) {
    o.cleared || o.ret != NET_MOREINFO
  }

  /** The behaviour of the callbacks, call by call. */
  type Handlers = (nat, Event) -> Outcome

  datatype Stage = Stage(m: Machine, event: Option<Event>, ret: int)

  /** A line of text is processed, and the first used characters of the buffer are consumed. */
  function Deliver(m: Machine, text: string, used: nat, h: Handlers, n: nat): Stage
    requires used <= |m.f.buf|
  {
    var o := if Consults(m.t, text) then h(n, Line(text)) else Outcome(0, false);
    var left := if o.ret != 0 || o.cleared then "" else m.f.buf[used..];
    Stage(Machine(Framer(left, false), ProcessLine(m.t, text)), Some(Line(text)), o.ret)
  }

  /** First half of an iteration: look for the start of a line, or for an echoed command. */
  function Seek(m: Machine, h: Handlers, n: nat): Stage {
    var buf := m.f.buf;
    var cr := Stop(buf, CR);
    if Found(buf, CR) then
      if cr == 0 then
        if |buf| >= 3 then
          if buf[1] == LF then Stage(m.(f := Framer(buf[2..], buf[2] != CR)), None, 0)
          else Stage(m.(f := Framer(buf[1..], false)), None, 0)
        else Stage(m, None, 0)
      else
        var lfOff := if cr + 1 < |buf| && buf[cr + 1] == LF then 1 else 0;
        Deliver(m, buf[..cr], cr + lfOff + 1, h, n)
    else if buf != [] && buf[0] == LF then Stage(m.(f := Framer(buf[1..], false)), None, 0)
    else Stage(m, None, 0)
  }

  /** Second half, with a line begun: look for its end, or for an entry prompt. */
  function Finish(m: Machine, h: Handlers, n: nat): Stage {
    var buf := m.f.buf;
    var cr, gd := Stop(buf, CR), Stop(buf, GD);
    if Found(buf, CR) then
      if |buf| - cr >= 2 then
        if buf[cr + 1] == LF then Deliver(m, buf[..cr], cr + 2, h, n)
        else Stage(m.(f := Framer(buf[cr + 1..], false)), None, 0)
      else Stage(m, None, 0)
    else if Found(buf, GD) && |buf| - gd >= 2 then
      if buf[gd + 1] == ' ' then
        var left := if PromptClears(h(n, Prompt)) then "" else buf[gd + 1..];
        Stage(m.(f := Framer(left, false)), Some(Prompt), 0)
      else Stage(m.(f := Framer(buf[gd + 1..], false)), None, 0)
    else Stage(m, None, 0)
  }

  /** One iteration of the do-while loop; it is repeated when it produced an event and no error. */
  function Iterate(m: Machine, h: Handlers, n: nat): (s: Stage)
    ensures |s.m.f.buf| <= |m.f.buf| && (s.event.Some? ==> |s.m.f.buf| < |m.f.buf|)
    ensures s.event.None? ==> s.ret == 0
  {
    if m.f.detected then Finish(m, h, n)
    else
      var s := Seek(m, h, n);
      if s.m.f.detected then Finish(s.m, h, n) else s
  }

  /** What the thread writes on its own account for an event, n of them having come before: control-Z for a prompt
      whose handler does not ask for more, nothing else. */
  function Break(event: Option<Event>, h: Handlers, n: nat): string {
    if event == Some(Prompt) && h(n, Prompt).ret != 11 then ['\U{1A}'] else ""
  }

  function Breaks(events: seq<Event>, h: Handlers, n: nat): string {
    if events == [] then ""
    else
      var k := |events| - 1;
      Breaks(events[..k], h, n) + Break(Some(events[k]), h, n + k)
  }

  lemma BreaksSnoc(events: seq<Event>, e: Event, h: Handlers, n: nat)
    ensures Breaks(events + [e], h, n) == Breaks(events, h, n) + Break(Some(e), h, n + |events|)
  {
    assert (events + [e])[..|events|] == events;
  }

  datatype Outputs = Outputs(m: Machine, events: seq<Event>, ret: int)

  /** The whole do-while loop, n events having been delivered before. */
  function Pump(m: Machine, h: Handlers, n: nat): (o: Outputs)
    ensures |o.m.f.buf| <= |m.f.buf|
    decreases |m.f.buf|
  {
    var s := Iterate(m, h, n);
    if s.event.None? then Outputs(s.m, [], 0)
    else if s.ret != 0 then Outputs(s.m, [s.event.value], s.ret)
    else
      var rest := Pump(s.m, h, n + 1);
      rest.(events := [s.event.value] + rest.events)
  }

  /** One tryReadLine that received chunk: a buffer that stays full without a line in it is discarded. */
  function ReadLine(m: Machine, chunk: string, h: Handlers, n: nat): (o: Outputs)
    requires |m.f.buf| + |chunk| <= SIZE - 1
    ensures |m.f.buf| < SIZE - 1 ==> |o.m.f.buf| < SIZE - 1
  {
    if chunk == [] then Outputs(m, [], 0)
    else
      var o := Pump(m.(f := m.f.(buf := m.f.buf + chunk)), h, n);
      if o.ret == 0 && |o.m.f.buf| == SIZE - 1 then o.(m := o.m.(f := Framer("", false))) else o
  }
}
