/** msgqueue.c and the two thread loops as code that updates the router in
    place; every method is tied to the steps of RouterMessages. */
module RouterProcess {
  import M = RouterMessages
  import opened RouterMessages

  function Sends(oks: seq<bool>): seq<Step> {
    seq(|oks|, k requires 0 <= k < |oks| => Send(oks[k]))
  }

  lemma ServedInThree(s: State, port: nat)
    requires Shape(s) && !s.fault && Enabled(s, Fetch(port))
    ensures var p := s.boxes[port][0]; var fetched := Apply(s, Fetch(port));
      && |fetched.phases| == |s.phases| && port < |s.phases|
      && var onWire := SetPhase(Touch(fetched, p), port, Sent(p));
         Next(Next(Next(s, Fetch(port)), Transmit(port)), Release(port))
         == if onWire.fault then onWire
            else SetPhase(M.CheckData(onWire, p), port, Ready)
  {
    var onWire := SetPhase(Touch(Apply(s, Fetch(port)), s.boxes[port][0]), port, Sent(s.boxes[port][0]));
    assert M.CheckData(onWire, s.boxes[port][0]).phases == onWire.phases;
    hide M.CheckData;
  }

  class Router {
    var msgs: map<Ptr, MsgData>
    var bufs: set<Ptr>
    var mainBox: seq<Inbound>
    var boxes: seq<seq<Ptr>>
    var phases: seq<Phase>
    var finished: seq<bool>
    var main: MainPhase
    var fault: bool
    var sent: seq<Kind>
    var delivered: seq<seq<nat>>
    var taken: seq<nat>

    ghost function View(): State
      reads this
    {
      State(msgs, bufs, mainBox, boxes, phases, finished, main, fault, sent, delivered, taken)
    }

    /** free_data: frees the buffer and then the structure. */
    method FreeData(p: Ptr)
      modifies this
      ensures View() == M.FreeData(old(View()), p)
    {
      if p in msgs && msgs[p].pdu in bufs {
        bufs := bufs - {msgs[p].pdu};
        msgs := msgs - {p};
      } else {
        fault := true;
      }
    }

    /** check_data: runs under msg_lock, hence as one step. */
    method CheckData(p: Ptr)
      modifies this
      ensures View() == M.CheckData(old(View()), p)
    {
      if p !in msgs {
        fault := true;
        return;
      }
      var count := (msgs[p].refCount - 1) % 256;
      msgs := msgs[p := msgs[p].(refCount := count)];
      if count == 0 {
        FreeData(p);
      }
    }

    method SendToMsgbox(dest: nat, p: Ptr, tag: nat, room: bool) returns (ok: bool)
      requires Shape(View()) && dest < |boxes|
      modifies this`boxes, this`delivered
      ensures ok == room
      ensures boxes == if ok then old(boxes)[dest := old(boxes)[dest] + [p]] else old(boxes)
      ensures delivered == if ok then old(delivered)[dest := old(delivered)[dest] + [tag]] else old(delivered)
    {
      if room {
        boxes := boxes[dest := boxes[dest] + [p]];
        delivered := delivered[dest := delivered[dest] + [tag]];
      }
      ok := room;
    }

    /** recv_from_msgbox on a port's own mailbox. */
    method RecvFromMsgbox(port: nat) returns (p: Ptr)
      requires Shape(View()) && Enabled(View(), Fetch(port))
      modifies this`boxes, this`taken, this`phases
      ensures p == old(boxes)[port][0] && View() == Apply(old(View()), Fetch(port))
    {
      p := boxes[port][0];
      boxes := boxes[port := boxes[port][1..]];
      taken := taken[port := taken[port] + 1];
      phases := phases[port := Fetched(p)];
    }

    /** One turn of dl_ip_thread or dl_mstp_thread that finds a message. */
    method ServeMessage(port: nat)
      requires Shape(View()) && !fault && Enabled(View(), Fetch(port))
      modifies this
      ensures View() == Next(Next(Next(old(View()), Fetch(port)), Transmit(port)), Release(port))
    {
      ServedInThree(View(), port);
      hide Next, Enabled, Apply, M.CheckData, M.FreeData;
      var p := RecvFromMsgbox(port);
      ghost var fetched := View();
      if p !in msgs || msgs[p].pdu !in bufs {
        fault := true; // the datalink send reads a freed message
      }
      phases := phases[port := Sent(p)];
      assert View() == SetPhase(Touch(fetched, p), port, Sent(p));
      if !fault {
        CheckData(p);
        phases := phases[port := Ready];
      }
    }

    /** One turn of the send loop of main() and of send_network_message. */
    method SendOne(room: bool)
      requires Shape(View()) && !fault && main.Sending?
      modifies this
      ensures View() == Next(old(View()), Send(room)) == SendNext(old(View()), room)
    {
      var Sending(p, tag, kind, port) := main;
      if kind.ToOne? || (Wanted(kind, port) && !finished[port]) {
        var _ := SendToMsgbox(port, p, tag, room);
      }
      main := if Last(kind, port, |boxes|) then Idle else Sending(p, tag, kind, port + 1);
    }

    method FanOut(room: seq<bool>)
      requires Shape(View()) && !fault && main.Sending?
      requires |room| == if main.kind.ToOne? then 1 else |boxes| - main.next
      modifies this
      ensures main.Idle? && View() == Run(old(View()), Sends(room))
    {
      var k := 0;
      assert Sends(room)[0..] == Sends(room);
      while main.Sending?
        invariant Shape(View()) && !fault && k <= |room|
        invariant main.Idle? || main.Sending?
        invariant main.Idle? ==> k == |room|
        invariant main.Sending? ==> |room| - k == if main.kind.ToOne? then 1 else |boxes| - main.next
        invariant Run(View(), Sends(room)[k..]) == Run(old(View()), Sends(room))
        decreases |room| - k
      {
        assert Sends(room)[k..][0] == Send(room[k]) && Sends(room)[k..][1..] == Sends(room)[k + 1..];
        SendOne(room[k]);
        k := k + 1;
      }
      assert Sends(room)[k..] == [];
    }

    /** The DATA branch of the dispatch loop, up to its send loop. */
    method Dispatch(outcome: Outcome, q: Ptr, b: Ptr)
      requires Shape(View()) && !fault && Enabled(View(), Process(outcome, q, b))
      modifies this
      ensures View() == Next(old(View()), Process(outcome, q, b))
    {
      var Got(p, origin) := main;
      if p !in msgs || msgs[p].pdu !in bufs {
        fault := true;
        return;
      }
      main := Idle;
      if outcome.NoMemory? {
        return;
      }
      msgs := msgs[q := msgs[p]]; // a byte copy: both share the buffer until the copy's own is stored
      match outcome
      case NoReply =>
        FreeData(p);
      case Invalid =>
        FreeData(q);
      case Reply =>
        StartSending(q, b, ToOne(origin));
      case Search =>
        StartSending(q, b, ToAll);
      case Forward(d) =>
        FreeData(p);
        StartSending(q, b, ToOne(d));
      case Flood =>
        FreeData(p);
        StartSending(q, b, ToAllBut(origin));
    }

    method StartSending(q: Ptr, b: Ptr, kind: Kind)
      requires |boxes| > 0
      modifies this
      ensures View() == Begin(old(View()), q, b, kind)
    {
      bufs := bufs + {b};
      msgs := msgs[q := MsgData(b, InitialCount(kind, |boxes|), true)];
      main := Sending(q, |sent|, kind, First(kind));
      sent := sent + [kind];
    }
  }
}
