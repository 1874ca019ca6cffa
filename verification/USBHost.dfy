/**
 * Endpoint queues, transfer descriptors and the done list of the USB host (USBHost/USBHost/USBHost.cpp and
 * USBEndpoint.cpp). Descriptors are the controller's: endpoint descriptors (OpenHCI 1.0a, section 4.2), general
 * transfer descriptors (4.3.1) and the done head of the HCCA (4.4).
 */
module USBHost {

  const WORD := 0x1_0000_0000  // addresses and lengths are 32 bits wide

  const IDLE := 16        // USB_TYPE_IDLE
  const PROCESSING := 17  // USB_TYPE_PROCESSING
  const FREE := 15        // USB_TYPE_FREE
  const ERROR := 18       // USB_TYPE_ERROR

  datatype EndpointType = CONTROL | ISOCHRONOUS | BULK | INTERRUPT

  class HCTD {
    var control: nat
    var currBufPtr: nat
    var bufEnd: nat
    var nextTD: HCTD?
    var ep: USBEndpoint?

    constructor ()
      ensures control == currBufPtr == bufEnd == 0 && nextTD == null && ep == null
    {
      control, currBufPtr, bufEnd, nextTD, ep := 0, 0, 0, null, null;
    }
  }

  /** carry and halted are the toggle carry bit and the halted bit that share a word with headTD. */
  class HCED {
    var headTD: HCTD?
    var tailTD: HCTD?
    var carry: bool
    var halted: bool
    var nextED: HCED?

    constructor ()
      ensures headTD == tailTD == null && !carry && !halted && nextED == null
    {
      headTD, tailTD, carry, halted, nextED := null, null, false, false, null;
    }
  }

  class USBEndpoint {
    const hced: HCED
    const etype: EndpointType
    const td0: HCTD
    const td1: HCTD
    var nextEp: USBEndpoint?
    var td_current: HCTD
    var td_next: HCTD
    var state: int
    var transfer_len: int
    var transferred: int
    var buf_start: nat

    constructor (ed: HCED, kind: EndpointType, a: HCTD, b: HCTD)
      requires a != b
      modifies ed, a, b
      ensures hced == ed && etype == kind && td0 == a && td1 == b && nextEp == null && ed.nextED == null
      ensures Idle() && state == IDLE
    {
      hced, etype, td0, td1 := ed, kind, a, b;
      td_current, td_next := a, b;
      new;
      Init();
    }

    /** Afresh: the two descriptors are empty and belong to the endpoint, whose queue is empty, and which is in
        no list. An endpoint that has been removed is set up in this way before it is added again. */
    method Init()
      requires td0 != td1
      modifies this, hced, td0, td1
      ensures nextEp == null && hced.nextED == null && Idle() && state == IDLE && td_current == td0
      ensures !hced.carry && transfer_len == transferred == buf_start == 0
      ensures forall td :: td == td0 || td == td1 ==> td.control == td.currBufPtr == td.bufEnd == 0 && td.nextTD == null
    {
      td0.control, td0.currBufPtr, td0.bufEnd, td0.nextTD, td0.ep := 0, 0, 0, null, this;
      td1.control, td1.currBufPtr, td1.bufEnd, td1.nextTD, td1.ep := 0, 0, 0, null, this;
      hced.tailTD, hced.headTD, hced.carry, hced.halted, hced.nextED := td0, td0, false, false, null;
      transfer_len, transferred, buf_start := 0, 0, 0;
      nextEp, td_current, td_next := null, td0, td1;
      state := IDLE;
    }

    /** td_current and td_next are always the two descriptors allocated for the endpoint. */
    ghost predicate OwnTds()
      reads this, td0, td1
    {
      && td0 != td1 && td0.ep == this && td1.ep == this
      && ((td_current == td0 && td_next == td1) || (td_current == td1 && td_next == td0))
    }

    /** No transfer: the controller's queue is empty, stands at td_current, and is not halted. */
    ghost predicate Idle()
      reads this, hced, td0, td1
    {
      OwnTds() && hced.headTD == hced.tailTD == td_current && !hced.halted
    }

    /** td_current is queued, td_next is the empty descriptor behind it. */
    ghost predicate Queued()
      reads this, hced, td0, td1
    {
      OwnTds() && hced.headTD == td_current && td_current.nextTD == td_next == hced.tailTD && !hced.halted
    }

    /** The controller has taken td_current off the queue; where it has put it is the done list's business. */
    ghost predicate Retired()
      reads this, hced, td0, td1
    {
      OwnTds() && hced.headTD == hced.tailTD == td_next
    }

    /** addTransfer's part of the descriptor, and queueTransfer. */
    method QueueTransfer(control: nat, buf: nat, len: nat)
      requires Idle() && buf < WORD && len < WORD
      modifies this, hced, td_current
      ensures Queued() && state == PROCESSING && td_current == old(td_current)
      ensures transferred == transfer_len == len && buf_start == buf && td_current.control == control
      ensures td_current.currBufPtr == buf && td_current.bufEnd == (buf + len - 1) % WORD
      ensures nextEp == old(nextEp) && hced.nextED == old(hced.nextED) && hced.carry == old(hced.carry)
    {
      td_current.control := control;
      td_current.currBufPtr := buf;
      td_current.bufEnd := (buf + (len - 1)) % WORD;
      transfer_len := (td_current.bufEnd - td_current.currBufPtr + 1) % WORD;
      transferred := transfer_len;
      buf_start := td_current.currBufPtr;
      state := PROCESSING;
      td_current.nextTD := td_next;
      hced.tailTD := td_next;
    }

    /** What the controller does with a finished descriptor: off the queue, which an error halts, and to the front of
        the done list. */
    method Retire(control: nat, currBufPtr: nat, doneHead: HCTD?) returns (newDoneHead: HCTD)
      requires Queued()
      modifies hced, td_current
      ensures Retired() && newDoneHead == td_current && td_current.nextTD == doneHead
      ensures td_current.control == control && td_current.currBufPtr == currBufPtr
      ensures hced.nextED == old(hced.nextED) && hced.halted == (control / 0x1000_0000 != 0)
    {
      hced.headTD := td_current.nextTD;
      hced.halted := control / 0x1000_0000 != 0;
      td_current.control := control;
      td_current.currBufPtr := currBufPtr;
      td_current.nextTD := doneHead;
      newDoneHead := td_current;
    }

    /** Clears td and swaps the roles of the two descriptors; of the bits of the head pointer the carry bit survives
        and the halted bit does not. */
    method UnqueueTransfer(td: HCTD)
      requires Retired() && td == td_current
      modifies this`td_current, this`td_next, hced`headTD, hced`halted, td
      ensures Idle() && td_current == old(td_next) && td_next == td
      ensures td.control == td.currBufPtr == td.bufEnd == 0 && td.nextTD == null && td.ep == this
    {
      td.control := 0;
      td.currBufPtr := 0;
      td.bufEnd := 0;
      td.nextTD := null;
      hced.headTD, hced.halted := hced.tailTD, false;
      td_current := td_next;
      td_next := td;
    }

    method QueueEndpoint(ed: USBEndpoint?)
      modifies this`nextEp, hced`nextED
      ensures nextEp == ed && hced.nextED == if ed == null then null else ed.hced
    {
      nextEp := ed;
      hced.nextED := if ed == null then null else ed.hced;
    }
  }

  // ----- endpoint queues -----

  /** Head, tail and controller head register of one of the host's lists. */
  class EndpointQueue {
    var head: USBEndpoint?
    var tail: USBEndpoint?
    var headED: HCED?            // the controller's register
    ghost var eps: seq<USBEndpoint>
    ghost var Repr: set<object>  // the endpoints and their descriptors

    ghost predicate Valid()
      reads this, Repr
    {
      && this !in Repr
      && (forall i :: 0 <= i < |eps| ==> eps[i] in Repr && eps[i].hced in Repr)
      && Injective(eps)
      && (forall i :: 0 <= i < |eps| - 1 ==> eps[i].nextEp == eps[i + 1])
      && (forall i :: 0 <= i < |eps| - 1 ==> eps[i].hced.nextED == eps[i + 1].hced)
      && if eps == [] then head == null && headED == null
         else
           var last := eps[|eps| - 1];
           head == eps[0] && headED == eps[0].hced && tail == last && last.nextEp == null && last.hced.nextED == null
    }

    constructor ()
      ensures Valid() && eps == [] && Repr == {}
    {
      head, tail, headED, eps, Repr := null, null, null, [], {};
    }

    /** Appends an endpoint that is in no list. */
    method Append(ep: USBEndpoint)
      requires Valid() && ep !in Repr && ep.hced !in Repr
      requires ep.nextEp == null && ep.hced.nextED == null
      modifies this, Repr
      ensures Valid() && eps == old(eps) + [ep] && Repr == old(Repr) + {ep, ep.hced}
      ensures ep.state == old(ep.state) && forall e :: e in old(eps) ==> e.state == old(e.state)
    {
      if headED == null {
        headED := ep.hced;
        head := ep;
        tail := ep;
      } else {
        tail.QueueEndpoint(ep);
        tail := ep;
      }
      eps := eps + [ep];
      Repr := Repr + {ep, ep.hced};
    }

    /** The stores that take current, element i, out of the list; prec is its predecessor, or itself. */
    method Unlink(prec: USBEndpoint, current: USBEndpoint, ghost i: nat)
      requires Valid() && i < |eps| && current == eps[i] && prec == eps[if i == 0 then 0 else i - 1]
      modifies this, prec`nextEp, prec.hced`nextED, current`state
      ensures Valid() && eps == Without(old(eps), i) && Repr == old(Repr) - {current, current.hced}
      ensures current.state == FREE
    {
      assert current.nextEp == if i + 1 < |eps| then eps[i + 1] else null;
      if current.nextEp != null {
        UnlinkInner(prec, current, i);
      } else {
        UnlinkLast(prec, current, i);
      }
      current.state := FREE;
    }

    method UnlinkInner(prec: USBEndpoint, current: USBEndpoint, ghost i: nat)
      requires Valid() && i + 1 < |eps| && current == eps[i] && prec == eps[if i == 0 then 0 else i - 1]
      modifies this, prec`nextEp, prec.hced`nextED
      ensures Valid() && eps == Without(old(eps), i) && Repr == old(Repr) - {current, current.hced}
    {
      assert current.nextEp == eps[i + 1];
      prec.QueueEndpoint(current.nextEp);
      if current == head {
        headED := current.nextEp.hced;
        head := current.nextEp;
      }
      ghost var s := eps;
      InnerGone(s, i);
      hide Without, Injective;
      eps := Without(s, i);
      Repr := Repr - {current, current.hced};
    }

    /** The links with element i taken out of s. */
    lemma InnerGone(s: seq<USBEndpoint>, i: nat)
      requires this !in Repr && (forall k :: 0 <= k < |s| ==> s[k] in Repr && s[k].hced in Repr)
      requires Injective(s) && i + 1 < |s|
      requires forall k :: 0 <= k < |s| - 1 && k != i && k != i - 1 ==>
        s[k].nextEp == s[k + 1] && s[k].hced.nextED == s[k + 1].hced
      requires i > 0 ==> s[i - 1].nextEp == s[i + 1] && s[i - 1].hced.nextED == s[i + 1].hced
      ensures var r, R := Without(s, i), Repr - {s[i], s[i].hced};
        && |r| == |s| - 1 && Injective(r) && r[0] == s[if i == 0 then 1 else 0] && r[|r| - 1] == s[|s| - 1]
        && (forall k :: 0 <= k < |r| ==> r[k] in R && r[k].hced in R)
        && (forall k :: 0 <= k < |r| - 1 ==> r[k].nextEp == r[k + 1])
        && (forall k :: 0 <= k < |r| - 1 ==> r[k].hced.nextED == r[k + 1].hced)
    {
      WithoutInjective(s, i);
      var r := Without(s, i);
      assert |r| == |s| - 1;
      forall k | 0 <= k < |s| && k != i ensures s[k] != s[i] && s[k].hced != s[i].hced {}
      forall k | 0 <= k < |r| - 1 ensures r[k].nextEp == r[k + 1] && r[k].hced.nextED == r[k + 1].hced {
        if k == i - 1 {
          assert r[k] == s[i - 1] && r[k + 1] == s[i + 1];
        } else {
          var j := if k < i then k else k + 1;
          assert r[k] == s[j] && r[k + 1] == s[j + 1];
        }
      }
    }

    method UnlinkLast(prec: USBEndpoint, current: USBEndpoint, ghost i: nat)
      requires Valid() && i + 1 == |eps| && current == eps[i] && prec == eps[if i == 0 then 0 else i - 1]
      modifies this, prec`nextEp, prec.hced`nextED
      ensures Valid() && eps == Without(old(eps), i) && Repr == old(Repr) - {current, current.hced}
    {
      prec.QueueEndpoint(null);
      if current == head {
        headED := null;
        head := current.nextEp;
      }
      tail := prec;
      WithoutInjective(eps, i);
      eps := Without(eps, i);
      Repr := Repr - {current, current.hced};
      assert i > 0 ==> eps[i - 1] == prec;
    }

    /** Takes ep out, wherever it is; says whether it was there. */
    method Remove(ep: USBEndpoint) returns (found: bool)
      requires Valid()
      modifies this, Repr
      ensures Valid() && found == (ep in old(eps))
      ensures Repr == if found then old(Repr) - {ep, ep.hced} else old(Repr)
      ensures !found ==> eps == old(eps)
      ensures found ==> exists i :: 0 <= i < |old(eps)| && old(eps)[i] == ep && eps == Without(old(eps), i)
      ensures found ==> ep.state == FREE
      ensures forall e :: e in old(eps) && e != ep ==> e.state == old(e.state)
    {
      var prec, current := head, head;
      ghost var i := 0;
      while current != null
        invariant i <= |eps| && current == (if i < |eps| then eps[i] else null) && ep !in eps[..i]
        invariant i > 0 ==> prec == eps[i - 1]
        invariant i == 0 ==> prec == current
        modifies {}
        decreases |eps| - i
      {
        if current == ep {
          break;
        }
        prec := current;
        current := current.nextEp;
        i := i + 1;
      }
      if current != null {
        Unlink(prec, current, i);
        return true;
      }
      return false;
    }
  }

  /** A TD_PROCESSED_EVENT message. */
  datatype Message = Message(td: HCTD, state: int)

  class USBHost {
    const control: EndpointQueue
    const bulk: EndpointQueue
    const interrupt: EndpointQueue
    var mail_usb_event: seq<Message>

    /** The three lists are sound, share no endpoint and no descriptor, and hold their own kind only. */
    ghost predicate Valid()
      reads this, Queues(), Footprint()
    {
      && control != bulk && control != interrupt && bulk != interrupt
      && control.Valid() && bulk.Valid() && interrupt.Valid()
      && control.Repr !! bulk.Repr !! interrupt.Repr && Queues() !! Footprint() && this !in Footprint()
      && (forall e :: e in control.eps ==> e.etype == CONTROL)
      && (forall e :: e in bulk.eps ==> e.etype == BULK)
      && (forall e :: e in interrupt.eps ==> e.etype == INTERRUPT)
    }

    ghost function Queues(): set<object> {
      {control, bulk, interrupt}
    }

    ghost function Footprint(): set<object>
      reads Queues()
    {
      control.Repr + bulk.Repr + interrupt.Repr
    }

    constructor ()
      ensures Valid() && control.eps == bulk.eps == interrupt.eps == [] && mail_usb_event == []
      ensures fresh(Queues())
    {
      control := new EndpointQueue();
      bulk := new EndpointQueue();
      interrupt := new EndpointQueue();
      mail_usb_event := [];
    }

    /** Links an endpoint that is in no list to the end of the list of its kind. */
    method AddEndpoint(ep: USBEndpoint) returns (ok: bool)
      requires Valid() && ep !in Footprint() && ep.hced !in Footprint() && ep.nextEp == null && ep.hced.nextED == null
      modifies Queues(), Footprint()
      ensures Valid() && ok == (ep.etype != ISOCHRONOUS) && ep.state == old(ep.state)
      ensures control.eps == old(control.eps) + if ep.etype == CONTROL then [ep] else []
      ensures bulk.eps == old(bulk.eps) + if ep.etype == BULK then [ep] else []
      ensures interrupt.eps == old(interrupt.eps) + if ep.etype == INTERRUPT then [ep] else []
    {
      match ep.etype
      case CONTROL => AddControl(ep); return true;
      case BULK => AddBulk(ep); return true;
      case INTERRUPT => AddInterrupt(ep); return true;
      case ISOCHRONOUS => return false;
    }

    method AddControl(ep: USBEndpoint)
      requires Valid() && ep !in Footprint() && ep.hced !in Footprint() && ep.nextEp == null && ep.hced.nextED == null
      requires ep.etype == CONTROL
      modifies control, control.Repr
      ensures Valid() && control.eps == old(control.eps) + [ep] && ep.state == old(ep.state)
      ensures bulk.eps == old(bulk.eps) && interrupt.eps == old(interrupt.eps)
    {
      control.Append(ep);
    }

    method AddBulk(ep: USBEndpoint)
      requires Valid() && ep !in Footprint() && ep.hced !in Footprint() && ep.nextEp == null && ep.hced.nextED == null
      requires ep.etype == BULK
      modifies bulk, bulk.Repr
      ensures Valid() && bulk.eps == old(bulk.eps) + [ep] && ep.state == old(ep.state)
      ensures control.eps == old(control.eps) && interrupt.eps == old(interrupt.eps)
    {
      bulk.Append(ep);
    }

    method AddInterrupt(ep: USBEndpoint)
      requires Valid() && ep !in Footprint() && ep.hced !in Footprint() && ep.nextEp == null && ep.hced.nextED == null
      requires ep.etype == INTERRUPT
      modifies interrupt, interrupt.Repr
      ensures Valid() && interrupt.eps == old(interrupt.eps) + [ep] && ep.state == old(ep.state)
      ensures control.eps == old(control.eps) && bulk.eps == old(bulk.eps)
    {
      interrupt.Append(ep);
    }

    /** Removes exactly this endpoint from the bulk or the interrupt list, and marks it free; the lists have
        nothing to do with it any more. */
    method UnqueueEndpoint(ep: USBEndpoint)
      requires Valid()
      modifies bulk, interrupt, bulk.Repr, interrupt.Repr
      ensures Valid() && control.eps == old(control.eps)
      ensures Removed(old(bulk.eps), bulk.eps, ep) && Removed(old(interrupt.eps), interrupt.eps, ep)
      ensures ep in old(bulk.eps) || ep in old(interrupt.eps) ==>
        ep.state == FREE && ep !in Footprint() && ep.hced !in Footprint()
    {
      hide Injective;
      var found := bulk.Remove(ep);
      if found {
        return;
      }
      found := interrupt.Remove(ep);
    }

    /** The front of one list goes to the front of the other. */
    method MoveOne(td: HCTD, tdList: HCTD?, ghost rest: seq<HCTD>, ghost moved: seq<HCTD>) returns (addr: HCTD?)
      requires rest != [] && td == rest[0] && ListFrom(td, rest) && ListFrom(tdList, moved)
      requires forall x :: x in rest ==> x !in moved
      modifies td`nextTD
      ensures ListFrom(addr, rest[1..]) && ListFrom(td, [td] + moved)
    {
      assert td in rest;
      addr := td.nextTD;
      td.nextTD := tdList;
    }

    /** Turns the done list, newest first, around in place. */
    method ReverseDone(doneHead: HCTD?, ghost done: seq<HCTD>) returns (tdList: HCTD?)
      requires ListFrom(doneHead, done)
      modifies done`nextTD
      ensures ListFrom(tdList, Rev(done))
    {
      var addr := doneHead;
      tdList := null;
      ghost var i := 0;
      while addr != null
        invariant i <= |done| && ListFrom(addr, done[i..]) && ListFrom(tdList, Rev(done[..i]))
        decreases |done| - i
      {
        RevSnoc(done[..i], done[i]);
        assert done[..i + 1] == done[..i] + [done[i]] && done[i..][1..] == done[i + 1..] && done[i..][0] == done[i];
        var td := addr;
        addr := MoveOne(td, tdList, done[i..], Rev(done[..i]));
        tdList := td;
        i := i + 1;
      }
      assert done[..i] == done;
    }

    /** Completes one descriptor: result code, transferred length, queues, message to the usb thread. */
    method CompleteTd(td: HCTD)
      requires Waits(td, SnapOf(td))
      modifies this`mail_usb_event, td, Effects([td])
      ensures SnapOf(td) == After(td, old(SnapOf(td))) && td.ep == old(td.ep)
      ensures td.nextTD == if td.ep == null then old(td.nextTD) else null
      ensures td.ep != null ==> Ended(td.ep, old(SnapOf(td)))
      ensures mail_usb_event == old(mail_usb_event) + MessageOf(td, old(SnapOf(td)))
    {
      if td.ep != null {
        var ep := td.ep;
        var state := td.control / 0x1000_0000;
        if state == 0 {
          if td.currBufPtr != 0 {
            ep.transferred := td.currBufPtr - ep.buf_start;
          }
          state := IDLE;
        }
        ep.UnqueueTransfer(td);
        if ep.etype != CONTROL {
          mail_usb_event := mail_usb_event + [Message(td, state)];
        }
        ep.state := TypeOf(state);
      }
    }

    /** Completes the descriptors of the done list, each once and the oldest first, although completing one
        clears its link. was: the descriptors as the controller has left them, oldest first. */
    method TransferCompleted(doneHead: HCTD?, ghost done: seq<HCTD>, ghost was: seq<Snap>)
      requires ListFrom(doneHead, done) && Separate(done) && Awaiting(Rev(done), was)
      modifies this`mail_usb_event, done, Effects(done)
      ensures Upto(Rev(done), was, |done|) && AllEnded(was)
      ensures mail_usb_event == old(mail_usb_event) + Messages(Rev(done), was)
    {
      hide AllEnded, Upto, Awaiting, Messages, Waits, SnapOf, After, Rev;
      RevSame(done);
      if doneHead == null {
        NothingAwaited(Rev(done), was);
        return;
      }
      var tdList := ReverseAll(doneHead, done, was);
      ghost var tds, fx := Rev(done), (set td | td in done) + Effects(done);
      hide *;
      CompleteAll(tdList, tds, was, fx);
    }

    /** One transfer from beginning to end: len bytes at buf are queued, the controller takes the descriptor off with a
        completion code, and with 0 or the place where it has stopped, and the done list is processed. The
        endpoint is idle again, and reports all of len, or on success as many bytes as were transferred. */
    method OneTransfer(ep: USBEndpoint, td: HCTD, buf: nat, len: nat, code: nat, currBufPtr: nat)
      requires ep.Idle() && td == ep.td_current && buf < WORD && len < WORD
      requires code < 16 && (currBufPtr == 0 || buf <= currBufPtr <= buf + len)
      modifies this`mail_usb_event, ep, ep.hced, td
      ensures ep.Idle() && ep.td_next == td
      ensures code == 0 ==> ep.state == 16 && ep.transferred == if currBufPtr == 0 then len else currBufPtr - buf
      ensures code != 0 ==> ep.state == (if code == 10 || code == 11 then 18 else code) && ep.transferred == len
      ensures mail_usb_event == old(mail_usb_event) +
        if ep.etype == CONTROL then [] else [Message(td, if code == 0 then 16 else code)]
    {
      var doneHead := TakeOff(ep, td, buf, len, code, currBufPtr);
      ghost var done, was := [td], [SnapOf(td)];
      hide Upto, Messages, SnapOf, Waits, After, OneEnding;
      assert Rev(done) == done;
      assert td in done;
      TransferCompleted(doneHead, done, was);
      OneEnded(td, was);
      OneEnds(ep, td, was[0], buf, len, code, currBufPtr);
    }

    /** The transfer up to its descriptor on the done list. */
    method TakeOff(ep: USBEndpoint, td: HCTD, buf: nat, len: nat, code: nat, currBufPtr: nat) returns (doneHead: HCTD)
      requires ep.Idle() && td == ep.td_current && buf < WORD && len < WORD && code < 16
      modifies ep, ep.hced, td
      ensures doneHead == td && td.nextTD == null && td.ep == ep && Waits(td, SnapOf(td))
      ensures OneEnding(SnapOf(td), ep, buf, len, code, currBufPtr)
    {
      ep.QueueTransfer(0, buf, len);
      doneHead := ep.Retire(code * 0x1000_0000, currBufPtr, null);
      RetiredWaits(td);
    }

    predicate OneEnding(s: Snap, ep: USBEndpoint, buf: nat, len: nat, code: nat, currBufPtr: nat) {
      && s.ep == ep && s.control == code * 0x1000_0000 && s.currBufPtr == currBufPtr
      && s.transferred == len && s.buf_start == buf
    }

    lemma OneEnds(ep: USBEndpoint, td: HCTD, s: Snap, buf: nat, len: nat, code: nat, currBufPtr: nat)
      requires OneEnding(s, ep, buf, len, code, currBufPtr) && Ended(ep, s) && code < 16
      ensures code == 0 ==> ep.state == 16 && ep.transferred == if currBufPtr == 0 then len else currBufPtr - buf
      ensures code != 0 ==> ep.state == (if code == 10 || code == 11 then 18 else code) && ep.transferred == len
      ensures MessageOf(td, s) == if ep.etype == CONTROL then [] else [Message(td, if code == 0 then 16 else code)]
    {
    }

    lemma OneEnded(td: HCTD, was: seq<Snap>)
      requires |was| == 1 && was[0].ep != null && Upto([td], was, 1)
      ensures was[0].ep.Idle() && was[0].ep.td_next == td
      ensures Messages([td], was) == MessageOf(td, was[0])
    {
      assert Waits([td][0], was[0]) && SnapOf([td][0]) == After(td, was[0]);
      assert [td][..0] == [] && was[..0] == [];
    }

    /** Turning the list around touches nothing but the links. */
    method ReverseAll(doneHead: HCTD?, ghost done: seq<HCTD>, ghost was: seq<Snap>) returns (tdList: HCTD?)
      requires ListFrom(doneHead, done) && Awaiting(Rev(done), was)
      modifies done`nextTD
      ensures ListFrom(tdList, Rev(done)) && Awaiting(Rev(done), was)
    {
      hide Waits;
      hide Rev;
      RevSame(done);
      tdList := ReverseDone(doneHead, done);
      hide ListFrom;
      forall td | td in done ensures SnapOf(td) == old(SnapOf(td)) {
      }
    }

    lemma NothingAwaited(tds: seq<HCTD>, was: seq<Snap>)
      requires tds == [] && Awaiting(tds, was)
      ensures Upto(tds, was, 0) && AllEnded(was) && Messages(tds, was) == []
    {
    }

    /** The second loop, over the list as ReverseDone has left it; fx is what it may change. */
    method CompleteAll(first: HCTD?, ghost tds: seq<HCTD>, ghost was: seq<Snap>, ghost fx: set<object>)
      requires ListFrom(first, tds) && Separate(tds) && Awaiting(tds, was) && Covers(fx, tds)
      modifies this`mail_usb_event, fx
      ensures Upto(tds, was, |tds|) && AllEnded(was)
      ensures mail_usb_event == old(mail_usb_event) + Messages(tds, was)
    {
      hide *;
      var tdList := first;
      ghost var j := 0;
      Begin(first, tds, was);
      while tdList != null
        invariant j <= |tds| == |was| && Upto(tds, was, j) && LinkedFrom(tdList, tds, j) && Separate(tds)
        invariant Covers(fx, tds)
        invariant mail_usb_event == old(mail_usb_event) + Messages(tds[..j], was[..j])
        decreases |tds| - j
      {
        AtHead(tdList, tds, j);
        InFrame(fx, tds, j);
        var td := tdList;
        tdList := td.nextTD;
        CompleteNext(td, tds, was, j, fx);
        MessagesNext(tds, was, j);
        j := j + 1;
      }
      AtEnd(tdList, tds, j);
      UptoEnds(tds, was);
      assert tds[..j] == tds && was[..j] == was;
    }

    lemma InFrame(fx: set<object>, tds: seq<HCTD>, j: nat)
      requires j < |tds| && Covers(fx, tds)
      ensures tds[j] in fx && forall o :: o in Effects([tds[j]]) ==> o in fx
    {
    }

    lemma MessagesNext(tds: seq<HCTD>, was: seq<Snap>, j: nat)
      requires j < |tds| == |was|
      ensures Messages(tds[..j + 1], was[..j + 1]) == Messages(tds[..j], was[..j]) + MessageOf(tds[j], was[j])
    {
      assert tds[..j + 1][..j] == tds[..j] && was[..j + 1][..j] == was[..j];
    }

    lemma Begin(first: HCTD?, tds: seq<HCTD>, was: seq<Snap>)
      requires ListFrom(first, tds) && Awaiting(tds, was)
      ensures |tds| == |was| && Upto(tds, was, 0) && LinkedFrom(first, tds, 0)
      ensures Messages(tds[..0], was[..0]) == []
    {
    }

    lemma AtHead(p: HCTD?, tds: seq<HCTD>, j: nat)
      requires p != null && LinkedFrom(p, tds, j)
      ensures j < |tds| && p == tds[j]
    {
    }

    lemma AtEnd(p: HCTD?, tds: seq<HCTD>, j: nat)
      requires p == null && LinkedFrom(p, tds, j) && j <= |tds|
      ensures j == |tds|
    {
    }

    method CompleteNext(td: HCTD, ghost tds: seq<HCTD>, ghost was: seq<Snap>, ghost j: nat,
                        ghost fx: set<object>)
      requires j < |tds| && td == tds[j] && |was| == |tds| && Upto(tds, was, j) && LinkedFrom(td, tds, j) && Separate(tds)
      modifies this`mail_usb_event, td, Effects([td])
      ensures Upto(tds, was, j + 1) && LinkedFrom(old(td.nextTD), tds, j + 1) && Separate(tds)
      ensures Covers(fx, tds) == old(Covers(fx, tds))
      ensures mail_usb_event == old(mail_usb_event) + MessageOf(td, was[j])
    {
      hide After;
      hide MessageOf;
      assert Waits(td, was[j]) && SnapOf(td) == was[j];
      assert td.nextTD == if j + 1 < |tds| then tds[j + 1] else null;
      forall i | 0 <= i < |tds| && i != j ensures Untangled(tds[i], td) { Untangle(tds, was, i, j); }
      hide Waits;
      hide SnapOf;
      hide Untangled;
      CompleteApart(td, tds, j);
    }

    /** Completing td leaves the descriptors apart from it, and their endpoints, as they are. */
    method CompleteApart(td: HCTD, ghost tds: seq<HCTD>, ghost j: nat)
      requires j < |tds| && td == tds[j] && Waits(td, SnapOf(td))
      requires forall i :: 0 <= i < |tds| && i != j ==> Untangled(tds[i], td)
      modifies this`mail_usb_event, td, Effects([td])
      ensures SnapOf(td) == After(td, old(SnapOf(td))) && td.ep == old(td.ep)
      ensures mail_usb_event == old(mail_usb_event) + MessageOf(td, old(SnapOf(td)))
      ensures forall i :: 0 <= i < |tds| && i != j ==>
        SnapOf(tds[i]) == old(SnapOf(tds[i])) && tds[i].nextTD == old(tds[i].nextTD) && tds[i].ep == old(tds[i].ep)
    {
      hide After, MessageOf, Waits, SnapOf, Ended;
      CompleteTd(td);
    }

    lemma Untangle(tds: seq<HCTD>, was: seq<Snap>, i: nat, j: nat)
      requires i < |tds| && j < |tds| && i != j && Upto(tds, was, j) && Separate(tds)
      requires forall i, k :: 0 <= i < k < |tds| ==> tds[i] != tds[k]
      ensures Untangled(tds[i], tds[j])
    {
    }
  }

  /** fx holds the descriptors, their endpoints and the endpoints' descriptors. */
  ghost predicate Covers(fx: set<object>, tds: seq<HCTD>)
    reads tds
  {
    forall i :: 0 <= i < |tds| ==> tds[i] in fx && (tds[i].ep != null ==> tds[i].ep in fx && tds[i].ep.hced in fx)
  }

  /** What completing td changes is not what SnapOf(x) looks at. */
  ghost predicate Untangled(x: HCTD, td: HCTD)
    reads x, td, Around(x)
  {
    && x != td && td !in Around(x)
    && (td.ep != null ==> td.ep !in Around(x) && td.ep.hced !in Around(x))
  }

  /** after is before without its one occurrence of e, the order of the others kept. */
  ghost predicate Removed(before: seq<USBEndpoint>, after: seq<USBEndpoint>, e: USBEndpoint) {
    if e in before then exists i :: 0 <= i < |before| && before[i] == e && after == Without(before, i)
    else after == before
  }

  /** Neither an endpoint nor a descriptor occurs twice. */
  ghost predicate Injective(s: seq<USBEndpoint>) {
    forall i, j :: 0 <= i < j < |s| ==> s[i] != s[j] && s[i].hced != s[j].hced
  }

  function Without<T>(s: seq<T>, i: nat): seq<T>
    requires i < |s|
  {
    s[..i] + s[i + 1..]
  }

  lemma WithoutInjective(s: seq<USBEndpoint>, i: nat)
    requires i < |s| && Injective(s)
    ensures Injective(Without(s, i)) && s[i] !in Without(s, i)
    ensures forall k :: 0 <= k < |s| - 1 ==> Without(s, i)[k] == if k < i then s[k] else s[k + 1]
  {
  }

  // ----- the done list -----

  function Rev<T>(s: seq<T>): (r: seq<T>)
    ensures |r| == |s| && forall i :: 0 <= i < |s| ==> r[i] == s[|s| - 1 - i]
  {
    seq(|s|, i requires 0 <= i < |s| => s[|s| - 1 - i])
  }

  lemma RevSnoc<T>(s: seq<T>, x: T)
    ensures Rev(s + [x]) == [x] + Rev(s)
  {
  }

  lemma RevSame(s: seq<HCTD>)
    ensures forall td :: td in s <==> td in Rev(s)
    ensures Separate(s) ==> Separate(Rev(s))
    ensures Effects(s) == Effects(Rev(s))
  {
    forall td | td in s ensures td in Rev(s) {
      var i :| 0 <= i < |s| && s[i] == td;
      assert Rev(s)[|s| - 1 - i] == td;
    }
  }

  /** The descriptors s, each once, linked in this order, with p in front. */
  ghost predicate ListFrom(p: HCTD?, s: seq<HCTD>)
    reads s
  {
    && (forall i, j :: 0 <= i < j < |s| ==> s[i] != s[j])
    && (forall i :: 0 <= i < |s| - 1 ==> s[i].nextTD == s[i + 1])
    && if s == [] then p == null else p == s[0] && s[|s| - 1].nextTD == null
  }

  /** The completion code in the upper four bits of control; success counts as idle. */
  function Code(control: nat): nat {
    if control / 0x1000_0000 != 0 then control / 0x1000_0000 else IDLE
  }

  /** setState: the entry of the state table for a code. */
  function TypeOf(code: nat): int {
    if code == 10 || code == 11 then ERROR else code
  }

  /** No endpoint, and no endpoint descriptor, stands behind two of the transfer descriptors. */
  ghost predicate Separate(s: seq<HCTD>)
    reads s
  {
    forall i, j :: 0 <= i < j < |s| && s[i].ep != null && s[j].ep != null ==>
      s[i].ep != s[j].ep && s[i].ep.hced != s[j].ep.hced
  }

  /** What matters of a descriptor and its endpoint, but for the link to the next descriptor. */
  datatype Snap = Snap(control: nat, currBufPtr: nat, bufEnd: nat, ep: USBEndpoint?,
                       td_current: HCTD?, td_next: HCTD?, state: int, headTD: HCTD?, tailTD: HCTD?,
                       owner0: USBEndpoint?, owner1: USBEndpoint?, transferred: int, buf_start: nat,
                       halted: bool)

  ghost function Around(td: HCTD): set<object>
    reads td
  {
    if td.ep == null then {td} else {td, td.ep, td.ep.hced, td.ep.td0, td.ep.td1}
  }

  ghost function SnapOf(td: HCTD): Snap
    reads td, Around(td)
  {
    if td.ep == null then Snap(td.control, td.currBufPtr, td.bufEnd, null, null, null, 0, null, null, null, null, 0, 0,
                                false)
    else
      var e := td.ep;
      Snap(td.control, td.currBufPtr, td.bufEnd, e, e.td_current, e.td_next, e.state, e.hced.headTD, e.hced.tailTD,
           e.td0.ep, e.td1.ep, e.transferred, e.buf_start, e.hced.halted)
  }

  /** The snapshot after completion: descriptor cleared, queue empty and not halted, the two descriptors swapped; and how much was
      transferred, if the controller says so. */
  function After(td: HCTD, s: Snap): Snap {
    if s.ep == null then s
    else s.(control := 0, currBufPtr := 0, bufEnd := 0, td_current := s.td_next, td_next := td,
            state := TypeOf(Code(s.control)), headTD := s.tailTD, halted := false,
            transferred := if Code(s.control) == IDLE && s.currBufPtr != 0 then s.currBufPtr - s.buf_start
                           else s.transferred)
  }

  /** What the endpoint says of a transfer that ended as s: the code and the length. The code is in the upper four
      bits of control, 0 for success, which leaves the endpoint idle (16); 10 and 11 are reserved, and an error
      (18) like the others. The length is the one queued, unless the controller has stopped a successful transfer
      at currBufPtr. */
  ghost predicate Ended(e: USBEndpoint, s: Snap)
    reads e
  {
    && e.state == (if s.control < 0x1000_0000 then 16
                   else if 0xA000_0000 <= s.control < 0xC000_0000 then 18 else s.control / 0x1000_0000)
    && e.transferred == (if s.control < 0x1000_0000 && s.currBufPtr != 0 then s.currBufPtr - s.buf_start
                         else s.transferred)
  }

  ghost function Endpoints(was: seq<Snap>): set<object> {
    set s | s in was && s.ep != null :: s.ep
  }

  ghost predicate AllEnded(was: seq<Snap>)
    reads Endpoints(was)
  {
    forall i :: 0 <= i < |was| && was[i].ep != null ==> Ended(was[i].ep, was[i])
  }

  lemma UptoEnds(tds: seq<HCTD>, was: seq<Snap>)
    requires Upto(tds, was, |tds|)
    ensures AllEnded(was)
  {
    forall i | 0 <= i < |was| && was[i].ep != null ensures Ended(was[i].ep, was[i]) {
      assert Waits(tds[i], was[i]) && SnapOf(tds[i]) == After(tds[i], was[i]);
    }
  }

  /** A snapshot of a descriptor with an endpoint that has given it away, of its own two: the controller's
      queue is empty and stands at the other one. */
  predicate Waits(td: HCTD, s: Snap) {
    && s.control < 0x1_0000_0000
    && (s.ep != null ==>
          s.owner0 == s.owner1 == s.ep && s.td_current == td && s.headTD == s.tailTD == s.td_next
          && s.ep.td0 != s.ep.td1 && (s.td_next == if td == s.ep.td0 then s.ep.td1 else s.ep.td0)
          && (td == s.ep.td0 || td == s.ep.td1))
  }

  /** Which is what QueueTransfer and Retire lead to. */
  lemma RetiredWaits(td: HCTD)
    requires td.ep != null && td.control < 0x1_0000_0000 && td.ep.Retired() && td.ep.td_current == td
    ensures Waits(td, SnapOf(td))
  {
  }

  /** A completed descriptor's endpoint is idle, and will use the descriptor for the transfer after the next. */
  lemma CompletedIsIdle(td: HCTD, s: Snap)
    requires td.ep != null && Waits(td, s) && SnapOf(td) == After(td, s)
    ensures td.ep.Idle() && td.ep.td_next == td && td.ep.td_current == s.td_next && td.ep.state == TypeOf(Code(s.control))
  {
  }

  /** What completing the descriptors of s may change, besides themselves. */
  ghost function Effects(s: seq<HCTD>): set<object>
    reads s
  {
    (set td | td in s && td.ep != null :: td.ep) + (set td | td in s && td.ep != null :: td.ep.hced)
  }

  /** The message for one descriptor: none without an endpoint, none for a control endpoint. */
  function MessageOf(td: HCTD, s: Snap): seq<Message> {
    if s.ep != null && s.ep.etype != CONTROL then [Message(td, Code(s.control))] else []
  }

  function Messages(tds: seq<HCTD>, was: seq<Snap>): seq<Message>
    requires |tds| == |was|
  {
    if tds == [] then []
    else Messages(tds[..|tds| - 1], was[..|was| - 1]) + MessageOf(tds[|tds| - 1], was[|was| - 1])
  }

  ghost function AllAround(tds: seq<HCTD>): set<object>
    reads tds
  {
    set td, o | td in tds && o in Around(td) :: o
  }

  /** Each descriptor is as was says, and its endpoint, if any, waits for it. */
  ghost predicate Awaiting(tds: seq<HCTD>, was: seq<Snap>)
    reads tds, AllAround(tds)
  {
    |was| == |tds| && forall i :: 0 <= i < |tds| ==> SnapOf(tds[i]) == was[i] && Waits(tds[i], was[i])
  }

  /** The first j descriptors have been completed, the others are as they were. */
  ghost predicate Upto(tds: seq<HCTD>, was: seq<Snap>, j: nat)
    reads tds, AllAround(tds)
  {
    && |was| == |tds| && (forall i :: 0 <= i < |tds| ==> Waits(tds[i], was[i]))
    && (forall i :: 0 <= i < |tds| ==> SnapOf(tds[i]) == if i < j then After(tds[i], was[i]) else was[i])
  }

  ghost predicate LinkedFrom(p: HCTD?, tds: seq<HCTD>, j: nat)
    reads tds
  {
    && p == (if j < |tds| then tds[j] else null)
    && (forall i, k :: 0 <= i < k < |tds| ==> tds[i] != tds[k])
    && (forall i :: j <= i < |tds| ==> tds[i].nextTD == if i + 1 < |tds| then tds[i + 1] else null)
  }
}
