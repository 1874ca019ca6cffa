/**
 * The two communicators of CAN/CANCommunicator6A.cpp. The bus is a list of messages in and a list of messages
 * out; the command database of the simulated calculator is a parameter.
 */
module CANCommunicator6A {
  import opened Bytes
  import opened Wrappers
  import opened Can6A

  class CANCommunicator6A {
    var state: MState
    var sent: seq<Frame>        // what canItf->Send was given
    const ack: Option<Frame>    // the calculator's CMD_ACK command

    constructor (acknowledge: Option<Frame>)
      ensures state == IDLE && sent == [] && ack == acknowledge
    {
      state, sent, ack := IDLE, [], acknowledge;
    }

    /** Sends a command and, unless msTmo is 0, collects the response from the messages that arrive in time.
        The messages must be long enough for what they announce. */
    method ExecuteCommand(data: Frame, response: array<Byte>, msTmo: nat, inbox: seq<Frame>) returns (respLen: nat)
      requires response.Length >= 255 && !MasterRun(START, inbox, ack).0.Fault?
      requires forall f :: f in inbox ==> |f| <= 8
      modifies this, response
      ensures msTmo == 0 ==> respLen == 0 && sent == old(sent) + [data] && response[..] == old(response[..])
      ensures msTmo != 0 ==>
        var (m, out) := MasterRun(START, inbox, ack);
        && sent == old(sent) + [data] + out && respLen == m.respLen
        && |m.resp| <= response.Length && response[..|m.resp|] == m.resp
      ensures state == IDLE
    {
      hide MasterStep, MasterRun;
      state := IDLE;
      var currLen := 0;
      var endCmd := false;
      respLen := 0;
      sent := sent + [data];
      if msTmo == 0 {
        return;
      }
      var i := 0;
      ghost var m, out := START, [];
      ghost var goal := MasterRun(START, inbox, ack);
      assert [] + goal.1 == goal.1;
      while !endCmd && i < |inbox|
        invariant i <= |inbox| && Tracks(m, respLen, currLen, response) && (m.Running? <==> !endCmd)
        invariant state == if m.Running? then m.state else IDLE
        invariant !goal.0.Fault? && sent == old(sent) + [data] + out
        invariant var (m', more) := MasterRun(m, inbox[i..], ack); goal == (m', out + more)
      {
        var msg := inbox[i];
        ghost var (m1, acks) := MasterStep(m, msg, ack);
        RunUnfolds(m, inbox[i..], ack);
        assert inbox[i..][1..] == inbox[i + 1..];
        assert (out + acks) + MasterRun(m1, inbox[i + 1..], ack).1 == out + (acks + MasterRun(m1, inbox[i + 1..], ack).1);
        respLen, currLen, endCmd := OnMessage(msg, response, respLen, currLen, m);
        m, out := m1, out + acks;
        i := i + 1;
      }
      RunEnds(m, inbox[i..], ack);
      state := IDLE;
    }

    /** The switch of the receive loop. */
    method OnMessage(msg: Frame, response: array<Byte>, respLen: nat, currLen: nat, ghost m: Master)
      returns (respLen': nat, currLen': nat, endCmd: bool)
      requires m.Running? && Tracks(m, respLen, currLen, response) && state == m.state
      requires !MasterStep(m, msg, ack).0.Fault? && |msg| <= 8
      modifies this, response
      ensures var (m', acks) := MasterStep(m, msg, ack);
        && Tracks(m', respLen', currLen', response) && (endCmd <==> m'.Done?) && sent == old(sent) + acks
        && state == if m'.Running? then m'.state else IDLE
    {
      match state
      case IDLE => respLen', currLen', endCmd := OnFirst(msg, response, respLen, currLen, m);
      case EXT_CMD =>
        currLen', endCmd := OnConsecutive(msg, response, respLen, currLen, m);
        respLen' := respLen;
    }

    method OnFirst(msg: Frame, response: array<Byte>, respLen: nat, currLen: nat, ghost m: Master)
      returns (respLen': nat, currLen': nat, endCmd: bool)
      requires m.Running? && Tracks(m, respLen, currLen, response) && state == m.state == IDLE
      requires !MasterStep(m, msg, ack).0.Fault? && |msg| <= 8
      modifies this, response
      ensures var (m', acks) := MasterStep(m, msg, ack);
        && Tracks(m', respLen', currLen', response) && (endCmd <==> m'.Done?) && sent == old(sent) + acks
        && state == if m'.Running? then m'.state else IDLE
    {
      respLen', currLen', endCmd := respLen, currLen, false;
      if msg[0] / 0x10 == 0 {
        respLen' := msg[0];
        Memcpy(response, 0, msg[1..1 + respLen']);
        currLen' := respLen';
        endCmd := true;
      } else if msg[0] == 0x10 {
        respLen' := msg[1];
        Memcpy(response, 0, msg[2..8]);
        currLen' := 6;
        if ack.Some? {
          sent := sent + [ack.value];
          state := EXT_CMD;
        }
      }
    }

    method OnConsecutive(msg: Frame, response: array<Byte>, respLen: nat, currLen: nat, ghost m: Master)
      returns (currLen': nat, endCmd: bool)
      requires m.Running? && Tracks(m, respLen, currLen, response) && state == m.state == EXT_CMD
      requires !MasterStep(m, msg, ack).0.Fault? && |msg| <= 8
      modifies this, response
      ensures var (m', acks) := MasterStep(m, msg, ack);
        && Tracks(m', respLen, currLen', response) && (endCmd <==> m'.Done?) && sent == old(sent) + acks
        && state == if m'.Running? then m'.state else IDLE
    {
      currLen', endCmd := currLen, false;
      if msg[0] / 0x10 == 2 {
        var payloadSz := if respLen - currLen < 7 then (respLen - currLen) % 0x100 else 7;
        Memcpy(response, currLen, msg[1..1 + payloadSz]);
        currLen' := currLen + payloadSz;
        if currLen' >= respLen {
          state := IDLE;
          endCmd := true;
        }
      }
    }
  }

  /** The local variables of the loop and the caller's buffer hold the master's state. */
  ghost predicate Tracks(m: Master, respLen: nat, currLen: nat, response: array<Byte>)
    reads response
  {
    && !m.Fault? && respLen == m.respLen < 0x100 && currLen == |m.resp| && 255 <= response.Length
    && (m.Running? && m.state == EXT_CMD ==> currLen <= respLen || currLen == 6)
    && currLen <= response.Length && response[..currLen] == m.resp
  }

  lemma RunUnfolds(m: Master, fs: seq<Frame>, ack: Option<Frame>)
    requires m.Running? && fs != []
    ensures var (m1, out) := MasterStep(m, fs[0], ack);
      MasterRun(m, fs, ack) == (MasterRun(m1, fs[1..], ack).0, out + MasterRun(m1, fs[1..], ack).1)
    ensures !MasterRun(m, fs, ack).0.Fault? ==> !MasterStep(m, fs[0], ack).0.Fault?
  {
  }

  lemma RunEnds(m: Master, fs: seq<Frame>, ack: Option<Frame>)
    requires !m.Running? || fs == []
    ensures MasterRun(m, fs, ack) == (m, [])
  {
  }

  lemma MoreFrames(n: nat, k: nat)
    requires SHORT < n && (k <= 1 || k <= Count(n))
    ensures 7 * k < n <==> k < Count(n)
  {
  }

  lemma ShortFrame(r: seq<Byte>, it: nat)
    requires |r| <= SHORT
    ensures Can6A.FormatResponse(r, it) == r
  {
  }

  class CANCommunicatorSim6A {
    var state: MState
    var iteration: nat
    const response: array<Byte>   // 32 bytes in the firmware
    var rLen: nat

    ghost predicate Valid()
      reads this, response
    {
      && rLen <= response.Length && rLen <= 252
      && (state == EXT_CMD ==> rLen > SHORT && iteration == 1)
    }

    ghost function Abs(): Slave
      requires rLen <= response.Length
      reads this, response
    {
      Slave(state, iteration, response[..rLen])
    }

    constructor (size: nat)
      ensures Valid() && response.Length == size && Abs() == Slave(IDLE, 0, []) && fresh(response)
    {
      state, iteration, rLen := IDLE, 0, 0;
      response := new Byte[size](_ => 0);
    }

    /** Writes frame number it of the first responseSz bytes of response into payload. */
    method FormatResponse(responseSz: nat, payload: array<Byte>, it: nat) returns (payloadSz: nat)
      requires responseSz <= response.Length && responseSz < 0x100 && payload.Length == 8 && payload != response
      requires responseSz > SHORT ==> it < Count(responseSz)
      modifies payload
      ensures payloadSz <= 8 && payload[..payloadSz] == Can6A.FormatResponse(response[..responseSz], it)
    {
      hide Can6A.FormatResponse, Count;
      ghost var r := response[..responseSz];
      if responseSz <= SHORT {
        ShortFrame(r, it);
        Memcpy(payload, 0, response[..responseSz]);
        payloadSz := responseSz;
      } else {
        FrameAt(r, it);
        if it == 0 {
          payload[0] := 0x10;
        } else {
          payload[0] := 0x20 + it % 0x10;
        }
        var l := if (it + 1) * 7 <= responseSz then 7 else responseSz % 7;
        Memcpy(payload, 1, response[it * 7..it * 7 + l]);
        payloadSz := l + 1;
        assert payload[..payloadSz] == [payload[0]] + response[it * 7..it * 7 + l];
        assert response[it * 7..it * 7 + l] == r[7 * it..7 * it + l];
      }
    }

    /** One message from the bus; sent is what goes back. */
    method Event(msg: Frame, db: seq<Byte> -> seq<Byte>) returns (sent: seq<Frame>)
      requires Valid() && Receivable(state, msg)
      requires forall c :: |db(c)| <= response.Length && |db(c)| <= 252
      modifies this, response
      ensures Valid() && (Abs(), sent) == SlaveStep(old(Abs()), msg, db)
      ensures old(state) == IDLE && msg[0] % 0x10 == 0 ==> sent == [] && Abs() == old(Abs())
      ensures old(state) == IDLE && msg[0] % 0x10 != 0 && msg[0..2] != [0x01, 0x3E] ==>
        var r := db(msg[1..1 + msg[0]]);
        && sent == (if r == [] then [] else [Can6A.FormatResponse(r, 0)]) && response[..rLen] == r
        && state == if |r| > 7 then EXT_CMD else IDLE
      ensures msg[0] == 0x01 && msg[1] == 0x3E ==> sent == [[0x01, 0x7E]] && Abs() == old(Abs())
      ensures old(state) == EXT_CMD && msg[0] != 0x01 ==>
        state == IDLE && sent == if msg[0] == 0x30 && msg[1] == 0x00 && msg[2] == 0x0A
                                 then Segments(old(response[..rLen]))[1..] else []
    {
      sent := [];
      if msg[0] == 0x01 && msg[1] == 0x3E {
        sent := [[0x01, 0x7E]];
      } else {
        match state
        case IDLE =>
          if msg[0] % 0x10 != 0 {
            iteration := 0;
            var r := db(msg[1..1 + msg[0]]);
            Memcpy(response, 0, r);
            rLen := |r|;
            assert response[..rLen] == r;
            if rLen != 0 {
              var payload := new Byte[8];
              var payloadSz := FormatResponse(rLen, payload, iteration);
              sent := [payload[..payloadSz]];
              if rLen > SHORT {
                iteration := iteration + 1;
                state := EXT_CMD;
              }
            }
          }
        case EXT_CMD =>
          if msg[0] == 0x30 && msg[1] == 0x00 && msg[2] == 0x0A {
            sent := SendRest();
            rLen := 0;
          }
          state := IDLE;
      }
    }

    /** The loop over the consecutive frames; its counter is a uint8_t. */
    method SendRest() returns (sent: seq<Frame>)
      requires Valid() && state == EXT_CMD
      modifies `iteration
      ensures sent == Segments(response[..rLen])[1..]
      ensures iteration == old(iteration) + Count(rLen) - 1
    {
      hide Can6A.FormatResponse, Segments, Count;
      MoreFrames(rLen, 1);
      sent := [];
      var i := 7;
      var payload := new Byte[8];
      ghost var fs, k := Segments(response[..rLen]), 1;
      while i < rLen
        invariant fresh(payload) && payload.Length == 8
        invariant 1 <= k <= Count(rLen) && i == 7 * k && iteration == old(iteration) + k - 1
        invariant sent == fs[1..k] && (i < rLen <==> k < Count(rLen))
        decreases rLen - i
      {
        var payloadSz := FormatResponse(rLen, payload, iteration);
        assert fs[1..k] + [fs[k]] == fs[1..k + 1];
        sent := sent + [payload[..payloadSz]];
        iteration := iteration + 1;
        k := k + 1;
        MoreFrames(rLen, k);
        i := (i + 7) % 0x100;
      }
    }
  }
}
