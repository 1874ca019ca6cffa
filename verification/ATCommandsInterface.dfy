/**
 * The processing thread of Pyrn3GModem/ATCommandsInterface.cpp on its 192-byte input buffer. The stream, the
 * mailboxes and the callbacks are parameters: a read delivers chunk, handlers say what each callback does.
 */
module ATCommandsInterface {
  import opened ATSpec
  import opened Wrappers
  import F = ATFraming
  import T = ATTransactions

  const OK := 0
  const BRK := '\U{1A}'

  class ATCommandsInterface {
    const m_inputBuf: array<char>
    var m_inputPos: nat
    var lineDetected: bool
    var m_transactionState: TState
    var m_transactionCommand: string
    var m_AT2Env: seq<Code>     // results announced with AT_RESULT_READY
    var written: string         // characters written to the stream
    var calls: nat              // lines and prompts processed so far

    ghost predicate Valid()
      reads this, m_inputBuf
    {
      m_inputBuf.Length == SIZE && m_inputPos < SIZE && m_inputBuf[m_inputPos] == NUL
    }

    ghost function Buf(): (s: string)
      requires m_inputPos <= m_inputBuf.Length
      reads this, m_inputBuf
      ensures |s| == m_inputPos
    {
      m_inputBuf[..m_inputPos]
    }

    ghost function Abs(): Machine
      requires m_inputPos <= m_inputBuf.Length
      reads this, m_inputBuf
    {
      Machine(Framer(Buf(), lineDetected), Transaction(m_transactionState, m_transactionCommand, m_AT2Env))
    }

    constructor ()
      ensures Valid() && Abs() == Machine(Framer("", false), Transaction(IDLE, "", [])) && calls == 0 && written == ""
      ensures fresh(m_inputBuf)
    {
      m_inputBuf := new char[SIZE](_ => NUL);
      m_inputPos, lineDetected, m_transactionState, m_transactionCommand := 0, false, IDLE, "";
      m_AT2Env, written, calls := [], "", 0;
    }

    /** strchr: index of the first c, or of the NUL before it. */
    method Strchr(c: char) returns (i: nat, found: bool)
      requires Valid() && c != NUL
      ensures i == Stop(Buf(), c) && found == Found(Buf(), c)
    {
      i := 0;
      while m_inputBuf[i] != NUL && m_inputBuf[i] != c
        invariant i <= m_inputPos && forall k :: 0 <= k < i ==> m_inputBuf[k] != NUL && m_inputBuf[k] != c
        decreases m_inputPos - i
      {
        i := i + 1;
      }
      found := m_inputBuf[i] == c;
      StopIs(Buf(), c, i);
    }

    /** The memmove that discards the first k characters, NUL included. */
    method Shift(k: nat)
      requires Valid() && k <= m_inputPos
      modifies m_inputBuf, `m_inputPos
      ensures Valid() && m_inputPos == old(m_inputPos) - k && Buf() == old(Buf())[k..]
    {
      var i := 0;
      while i < m_inputPos + 1 - k
        invariant m_inputPos == old(m_inputPos) && i <= m_inputPos + 1 - k
        invariant forall x :: 0 <= x < i ==> m_inputBuf[x] == old(m_inputBuf[x + k])
        invariant forall x :: i <= x < SIZE ==> m_inputBuf[x] == old(m_inputBuf[x])
      {
        m_inputBuf[i] := m_inputBuf[i + k];
        i := i + 1;
      }
      m_inputPos := m_inputPos - k;
    }

    method Clear()
      requires m_inputBuf.Length == SIZE
      modifies m_inputBuf, `m_inputPos
      ensures Valid() && m_inputPos == 0 && Buf() == ""
    {
      m_inputPos := 0;
      m_inputBuf[0] := NUL;
    }

    method PostResult(code: Code)
      modifies `m_transactionState, `m_AT2Env
      ensures m_transactionState == IDLE && m_AT2Env == old(m_AT2Env) + [code]
    {
      m_transactionState := IDLE;
      m_AT2Env := m_AT2Env + [code];
    }

    /** One line, which lies in front of a NUL in the buffer. Dispatch to the handlers of unsolicited codes
        changes neither the buffer nor the transaction. */
    method ProcessReadLine(line: string, h: Handlers) returns (ret: int)
      requires Valid() && |line| < m_inputPos && m_inputBuf[..|line|] == line && m_inputBuf[|line|] == NUL
      modifies this, m_inputBuf
      ensures Valid() && lineDetected == old(lineDetected) && calls == old(calls) + 1 && written == old(written)
      ensures var t := old(Abs().t);
        var o := if Consults(t, line) then h(old(calls), Line(line)) else Outcome(0, false);
        && Abs().t == ProcessLine(t, line) && ret == o.ret
        && (if o.cleared then m_inputPos == 0 && Buf() == ""
            else m_inputPos == old(m_inputPos) && m_inputBuf[..] == old(m_inputBuf[..]))
      ensures old(m_transactionState) == READING_RESULT ==>
        var was := old(m_AT2Env);
        && (line == "OK" ==> m_AT2Env == was + [AT_OK])
        && (line == "ERROR" || line == "COMMAND NOT SUPPORT" ==> m_AT2Env == was + [AT_ERROR])
        && ("CONNECT" <= line ==> m_AT2Env == was + [AT_CONNECT])
        && ("+CME ERROR:" <= line ==> m_AT2Env == was + [AT_CME_ERROR])
        && ("+CMS ERROR:" <= line ==> m_AT2Env == was + [AT_CMS_ERROR])
        && (Ordinary(line) ==>
              m_AT2Env == was && m_transactionState == READING_RESULT && ret == h(old(calls), Line(line)).ret)
        && (!Ordinary(line) ==> m_transactionState == IDLE && ret == OK)
      ensures old(m_transactionState) != READING_RESULT ==>
        && m_AT2Env == old(m_AT2Env) && ret == OK
        && m_transactionState == if old(m_transactionState) == COMMAND_SENT && line == old(m_transactionCommand)
                                 then READING_RESULT else old(m_transactionState)
    {
      if m_transactionState == READING_RESULT { T.ReadingMeans(Abs().t, line); }
      hide Means, Ordinary;
      calls := calls + 1;
      ret := OK;
      if m_transactionState == COMMAND_SENT {
        if m_transactionCommand == line {
          m_transactionState := READING_RESULT;
          return OK;
        }
      }
      if m_transactionState == READING_RESULT {
        if line == "OK" {
          PostResult(AT_OK);
        } else if line == "ERROR" {
          PostResult(AT_ERROR);
        } else if "CONNECT" <= line {
          PostResult(AT_CONNECT);
        } else if line == "COMMAND NOT SUPPORT" {
          PostResult(AT_ERROR);
        } else if "+CME ERROR:" <= line {
          PostResult(AT_CME_ERROR);
        } else if "+CMS ERROR:" <= line {
          PostResult(AT_CMS_ERROR);
        } else {
          var o := h(calls - 1, Line(line));
          if o.cleared {
            Clear();
          }
          ret := o.ret;
        }
      }
    }

    /** processReadLine on the first crPos characters, then the bookkeeping both halves of the loop share. */
    method DeliverLine(crPos: nat, used: nat, h: Handlers) returns (ret: int)
      requires Valid() && crPos < m_inputPos && crPos < used <= m_inputPos
      requires forall k :: 0 <= k < crPos ==> m_inputBuf[k] != NUL
      modifies this, m_inputBuf
      ensures Valid() && calls == old(calls) + 1 && written == old(written) && !lineDetected
      ensures var s := Deliver(old(Abs()), old(Buf())[..crPos], used, h, old(calls));
        Abs() == s.m && ret == s.ret && s.event == Some(Line(old(Buf())[..crPos]))
    {
      hide ResultCode;
      hide ProcessLine;
      m_inputBuf[crPos] := NUL;
      assert m_inputBuf[..crPos] == old(Buf())[..crPos];
      ret := ProcessReadLine(m_inputBuf[..crPos], h);
      lineDetected := false;
      if ret != 0 {
        Clear();
        return;
      }
      assert m_inputPos > 0 ==> Buf()[used..] == old(Buf())[used..];
      if m_inputPos > 0 {
        Shift(used);
      }
    }

    /** First half of an iteration. */
    method SeekLine(h: Handlers) returns (ret: int, event: Option<Event>)
      requires Valid() && !lineDetected
      modifies this, m_inputBuf
      ensures Valid()
      ensures var s := Seek(old(Abs()), h, old(calls)); Abs() == s.m && event == s.event && ret == s.ret
      ensures calls == old(calls) + (if event.Some? then 1 else 0) && written == old(written) && event != Some(Prompt)
    {
      hide Deliver;
      hide Stop;
      ret, event := OK, None;
      var crPos, crFound := Strchr(CR);
      if crFound {
        if crPos == 0 {
          SeekAtCr();
        } else {
          ret, event := SeekEcho(crPos, h);
        }
      } else if m_inputBuf[0] == LF {
        Shift(1);
      }
    }

    /** The buffer begins with CR: with LF and a third character, either a line begins or one has ended. */
    method SeekAtCr()
      requires Valid() && !lineDetected && m_inputPos > 0 && m_inputBuf[0] == CR
      modifies m_inputBuf, `m_inputPos, `lineDetected
      ensures Valid()
      ensures Framer(Buf(), lineDetected) ==
        var buf := old(Buf());
        if |buf| < 3 then Framer(buf, false)
        else if buf[1] == LF then Framer(buf[2..], buf[2] != CR) else Framer(buf[1..], false)
    {
      if m_inputPos >= 3 {
        if m_inputBuf[1] == LF {
          if m_inputBuf[2] != CR {
            lineDetected := true;
          }
          Shift(2);
        } else {
          Shift(1);
        }
      }
    }

    method SeekEcho(crPos: nat, h: Handlers) returns (ret: int, event: Option<Event>)
      requires Valid() && crPos < m_inputPos && forall k :: 0 <= k < crPos ==> m_inputBuf[k] != NUL
      modifies this, m_inputBuf
      ensures Valid() && calls == old(calls) + 1 && event.Some? && !lineDetected
      ensures written == old(written) && event != Some(Prompt)
      ensures var buf := old(Buf());
        var lfOff := if crPos + 1 < |buf| && buf[crPos + 1] == LF then 1 else 0;
        var s := Deliver(old(Abs()), buf[..crPos], crPos + lfOff + 1, h, old(calls));
        Abs() == s.m && event == s.event && ret == s.ret
    {
      hide Deliver;
      var lfOff := 0;
      if m_inputPos - crPos >= 1 {
        if m_inputBuf[crPos + 1] == LF {
          lfOff := lfOff + 1;
        }
      }
      assert m_inputBuf[..crPos] == old(Buf())[..crPos];
      event := Some(Line(m_inputBuf[..crPos]));
      ret := DeliverLine(crPos, crPos + lfOff + 1, h);
    }

    /** sendData on a working stream: the data goes out, and its echo overwrites the input buffer, which is
        left empty. */
    method SendData(data: string)
      requires m_inputBuf.Length == SIZE
      modifies m_inputBuf, `m_inputPos, `written
      ensures Valid() && m_inputPos == 0 && Buf() == "" && written == old(written) + data
    {
      written := written + data;
      Clear();
    }

    method ProcessEntryPrompt(h: Handlers) returns (ret: int)
      requires Valid()
      modifies m_inputBuf, `m_inputPos, `written, `calls
      ensures Valid() && calls == old(calls) + 1 && ret == OK
      ensures Buf() == if PromptClears(h(old(calls), Prompt)) then "" else old(Buf())
      ensures written == old(written) + if h(old(calls), Prompt).ret != 11 then ['\U{1A}'] else ""
    {
      var o := h(calls, Prompt);
      calls := calls + 1;
      if o.cleared {
        Clear();
      }
      if o.ret != NET_MOREINFO {
        SendData([BRK]);
      }
      ret := OK;
    }

    /** Second half of an iteration. */
    method FinishLine(h: Handlers) returns (ret: int, event: Option<Event>)
      requires Valid() && lineDetected
      modifies this, m_inputBuf
      ensures Valid()
      ensures var s := Finish(old(Abs()), h, old(calls)); Abs() == s.m && event == s.event && ret == s.ret
      ensures calls == old(calls) + (if event.Some? then 1 else 0) && written == old(written) + Break(event, h, old(calls))
    {
      hide Deliver, Stop, Break;
      NoBreak(h, calls);
      ret, event := OK, None;
      var crPos, crFound := Strchr(CR);
      var gdPos, gdFound := Strchr(GD);
      if crFound {
        ret, event := FinishAtCr(crPos, h);
      } else if gdFound {
        event := FinishAtPrompt(gdPos, h);
      }
    }

    /** CR LF ends the line; CR and anything else is discarded with what precedes it. */
    method FinishAtCr(crPos: nat, h: Handlers) returns (ret: int, event: Option<Event>)
      requires Valid() && lineDetected && crPos < m_inputPos && forall k :: 0 <= k < crPos ==> m_inputBuf[k] != NUL
      modifies this, m_inputBuf
      ensures Valid() && calls == old(calls) + if event.Some? then 1 else 0
      ensures written == old(written) && event != Some(Prompt)
      ensures var buf := old(Buf());
        var s := if |buf| - crPos < 2 then Stage(old(Abs()), None, 0)
          else if buf[crPos + 1] == LF then Deliver(old(Abs()), buf[..crPos], crPos + 2, h, old(calls))
          else Stage(old(Abs()).(f := Framer(buf[crPos + 1..], false)), None, 0);
        Abs() == s.m && event == s.event && ret == s.ret
    {
      hide Deliver;
      ret, event := OK, None;
      if m_inputPos - crPos >= 2 {
        if m_inputBuf[crPos + 1] == LF {
          assert m_inputBuf[..crPos] == old(Buf())[..crPos];
          event := Some(Line(m_inputBuf[..crPos]));
          ret := DeliverLine(crPos, crPos + 2, h);
        } else {
          Shift(crPos + 1);
        }
        lineDetected := false;
      }
    }

    /** '>' and a space are an entry prompt; '>' and anything else is discarded with what precedes it. */
    method FinishAtPrompt(gdPos: nat, h: Handlers) returns (event: Option<Event>)
      requires Valid() && lineDetected && gdPos < m_inputPos
      modifies this, m_inputBuf
      ensures Valid() && calls == old(calls) + (if event.Some? then 1 else 0) && written == old(written) + Break(event, h, old(calls))
      ensures var buf := old(Buf());
        && Abs().t == old(Abs().t)
        && event == (if |buf| - gdPos >= 2 && buf[gdPos + 1] == ' ' then Some(Prompt) else None)
        && Abs().f == (if |buf| - gdPos < 2 then old(Abs().f)
                       else if event.Some? && PromptClears(h(old(calls), Prompt)) then Framer("", false)
                       else Framer(buf[gdPos + 1..], false))
    {
      event := None;
      if m_inputPos - gdPos >= 2 {
        if m_inputBuf[gdPos + 1] == ' ' {
          event := Some(Prompt);
          var ret := DeliverPrompt(gdPos, h);
        } else {
          Shift(gdPos + 1);
        }
        lineDetected := false;
      }
    }

    method DeliverPrompt(gdPos: nat, h: Handlers) returns (ret: int)
      requires Valid() && gdPos < m_inputPos
      modifies m_inputBuf, `m_inputPos, `written, `calls
      ensures Valid() && calls == old(calls) + 1 && ret == OK
      ensures Buf() == if PromptClears(h(old(calls), Prompt)) then "" else old(Buf())[gdPos + 1..]
      ensures written == old(written) + Break(Some(Prompt), h, old(calls))
    {
      Shift(gdPos + 1);
      ret := ProcessEntryPrompt(h);
    }

    /** The body of the loop: the end of one line or prompt is looked for, and its beginning before that. */
    method OneIteration(h: Handlers) returns (ret: int, event: Option<Event>)
      requires Valid()
      modifies this, m_inputBuf
      ensures Valid() && Iterate(old(Abs()), h, old(calls)) == Stage(Abs(), event, ret)
      ensures calls == old(calls) + (if event.Some? then 1 else 0) && written == old(written) + Break(event, h, old(calls))
    {
      hide Seek;
      hide Finish;
      NoBreak(h, calls);
      hide Break;
      ret, event := OK, None;
      if !lineDetected {
        SeekEither(Abs(), h, calls);
        ret, event := SeekLine(h);
      }
      if ret == OK && lineDetected {
        ret, event := FinishLine(h);
      }
    }

    /** One read of the stream and everything that can be processed after it; chunk is what it delivered,
        empty when there was nothing or it was interrupted. Terminates for arbitrary input. */
    method TryReadLine(chunk: string, h: Handlers) returns (ret: int, events: seq<Event>)
      requires Valid() && m_inputPos + |chunk| <= SIZE - 1
      modifies this, m_inputBuf
      ensures Valid() && calls == old(calls) + |events|
      ensures ReadLine(old(Abs()), chunk, h, old(calls)) == Outputs(Abs(), events, ret)
      ensures old(m_inputPos) < SIZE - 1 ==> m_inputPos < SIZE - 1
      ensures written == old(written) + Breaks(events, h, old(calls))
      ensures ret != OK ==>
        && m_inputPos == 0 && !lineDetected && events != []
        && ret == h(old(calls) + |events| - 1, events[|events| - 1]).ret
    {
      hide Pump, Breaks;
      NothingWritten(h, calls);
      ret, events := OK, [];
      if chunk == [] {
        return;
      }
      Append(chunk);
      F.PumpFails(Abs(), h, calls);
      ret, events := ProcessLines(h);
      if ret != OK {
        return;
      }
      if m_inputPos == SIZE - 1 {
        Clear();
        lineDetected := false;
      }
    }

    /** The loop. */
    method ProcessLines(h: Handlers) returns (ret: int, events: seq<Event>)
      requires Valid()
      modifies this, m_inputBuf
      ensures Valid() && calls == old(calls) + |events|
      ensures Pump(old(Abs()), h, old(calls)) == Outputs(Abs(), events, ret)
      ensures written == old(written) + Breaks(events, h, old(calls))
    {
      hide Iterate, Pump, Continues, Break, Breaks;
      NothingWritten(h, calls);
      ret, events := OK, [];
      ghost var start, n := Abs(), calls;
      ContinuesAll(Pump(start, h, n));
      var lineProcessed := true;
      while lineProcessed
        invariant Valid() && ret == OK && calls == n + |events| && written == old(written) + Breaks(events, h, n)
        invariant lineProcessed ==> Continues(Pump(start, h, n), events, Pump(Abs(), h, calls))
        invariant !lineProcessed ==> Pump(start, h, n) == Outputs(Abs(), events, OK)
        decreases lineProcessed, m_inputPos
      {
        ghost var m, k := Abs(), calls;
        lineProcessed := false;
        var event: Option<Event>;
        ret, event := OneIteration(h);
        PumpGoesOn(Pump(start, h, n), events, m, h, k);
        NoBreak(h, k);
        if event.Some? {
          BreaksSnoc(events, event.value, h, n);
          events := events + [event.value];
          if ret != OK {
            return;
          }
          lineProcessed := true;
        }
      }
    }

    method Append(chunk: string)
      requires Valid() && m_inputPos + |chunk| <= SIZE - 1
      modifies m_inputBuf, `m_inputPos
      ensures Valid() && Buf() == old(Buf()) + chunk
    {
      for i := 0 to |chunk|
        invariant m_inputPos == old(m_inputPos) && m_inputBuf[..m_inputPos + i] == old(Buf()) + chunk[..i]
      {
        m_inputBuf[m_inputPos + i] := chunk[i];
      }
      m_inputPos := m_inputPos + |chunk|;
      m_inputBuf[m_inputPos] := NUL;
    }

    /** What the mailbox holds when it is asked. */
    method TrySendCommand(mail: T.Mail)
      modifies `m_transactionState, `m_transactionCommand, `written
      ensures Transaction(m_transactionState, m_transactionCommand, m_AT2Env) ==
        T.Received(old(Transaction(m_transactionState, m_transactionCommand, m_AT2Env)), mail)
      ensures written == old(written) + if mail.CommandReady? then mail.command + [CR] else ""
    {
      match mail
      case NoMail =>
      case CommandReady(command) =>
        m_transactionCommand := command;
        written := written + (command + [CR]);
        m_transactionState := COMMAND_SENT;
      case OtherMail => m_transactionState := IDLE;
    }
  }

  lemma NothingWritten(h: Handlers, n: nat)
    ensures Breaks([], h, n) == ""
  {
  }

  lemma NoBreak(h: Handlers, n: nat)
    ensures forall e: Option<Event> :: e != Some(Prompt) ==> Break(e, h, n) == ""
  {
  }

  /** The outputs all are those of rest, with events in front. */
  predicate Continues(all: Outputs, events: seq<Event>, rest: Outputs) {
    all == Outputs(rest.m, events + rest.events, rest.ret)
  }

  lemma ContinuesAll(all: Outputs)
    ensures Continues(all, [], all)
  {
    assert [] + all.events == all.events;
  }

  lemma ContinuesMore(all: Outputs, events: seq<Event>, e: Event, rest: Outputs)
    requires Continues(all, events, Outputs(rest.m, [e] + rest.events, rest.ret))
    ensures Continues(all, events + [e], rest)
  {
    assert events + ([e] + rest.events) == (events + [e]) + rest.events;
  }

  lemma ContinuesNone(all: Outputs, events: seq<Event>, m: Machine, es: seq<Event>, ret: int)
    requires Continues(all, events, Outputs(m, es, ret))
    ensures all == Outputs(m, events + es, ret) && events + [] == events
  {
  }

  lemma SeekEither(m: Machine, h: Handlers, n: nat)
    ensures var s := Seek(m, h, n);
      (s.event.Some? ==> !s.m.f.detected) && (s.event.None? ==> s.ret == 0)
  {
  }

  /** One more iteration of the loop. */
  lemma PumpGoesOn(all: Outputs, events: seq<Event>, m: Machine, h: Handlers, n: nat)
    requires Continues(all, events, Pump(m, h, n))
    ensures var s := Iterate(m, h, n);
      if s.event.None? then all == Outputs(s.m, events, 0)
      else if s.ret != 0 then all == Outputs(s.m, events + [s.event.value], s.ret)
      else Continues(all, events + [s.event.value], Pump(s.m, h, n + 1))
  {
    hide *;
    F.UnfoldPump(m, h, n);
    var s := Iterate(m, h, n);
    if s.event.None? {
      ContinuesNone(all, events, s.m, [], 0);
    } else if s.ret == 0 {
      ContinuesMore(all, events, s.event.value, Pump(s.m, h, n + 1));
    } else {
      ContinuesNone(all, events, s.m, [s.event.value], s.ret);
    }
  }

  lemma StopIs(s: string, c: char, i: nat)
    requires i <= |s| && (forall k :: 0 <= k < i ==> s[k] != c && s[k] != NUL) && (i < |s| ==> s[i] == c || s[i] == NUL)
    ensures Stop(s, c) == i
  {
    var j := Stop(s, c);
    assert !(j < i) && !(i < j);
  }
}
