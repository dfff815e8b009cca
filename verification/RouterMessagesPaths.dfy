/** Which message goes to which port.  A history follows the steps alone: who
    received and posted a message, and what the main thread was to make of it.
    It knows nothing of the send loop, its kinds or the recorded deliveries;
    what the ports put on the wire is compared with it. */
module RouterMessagesPaths {
  import opened RouterMessages
  import opened RouterMessagesSafety
  import R = RouterMessagesRuns

  /** A transmission: its message, the ports it is meant for, and whether the
      ports that have finished are passed over. */
  datatype Planned = Planned(message: Ptr, ports: set<nat>, broadcast: bool)

  /** made[i] is the message port i built last; `queue` are the posted messages
      the main thread has not taken and `hand` is the one it took last; `turn` is
      the port the next send is for; `missed` are the sends, as transmission and
      port, that failed or found the port finished; `wire` is what the ports sent. */
  datatype History = History(
    made: map<nat, Ptr>,
    queue: seq<Inbound>,
    hand: Inbound,
    plan: seq<Planned>,
    turn: nat,
    missed: set<(nat, nat)>,
    stopped: set<nat>,
    wire: seq<seq<Ptr>>)

  function AllPorts(n: nat): (ports: set<nat>)
    ensures forall j: nat :: j in ports <==> j < n
  {
    if n == 0 then {} else AllPorts(n - 1) + {n - 1}
  }

  /** A reply goes to where the message came from, a routed message to the one
      port that leads to its network, a broadcast to every other port, a search
      to all of them. */
  function Plan(h: History, n: nat, outcome: Outcome, q: Ptr): History {
    match outcome
    case Reply => h.(plan := h.plan + [Planned(q, {h.hand.origin}, false)], turn := h.hand.origin)
    case Forward(d) => h.(plan := h.plan + [Planned(q, {d}, false)], turn := d)
    case Flood => h.(plan := h.plan + [Planned(q, AllPorts(n) - {h.hand.origin}, true)], turn := 0)
    case Search => h.(plan := h.plan + [Planned(q, AllPorts(n), true)], turn := 0)
    case _ => h
  }

  function Note(h: History, s: State, step: Step): History
    requires Shape(s) && Enabled(s, step)
  {
    match step
    case Receive(i, p, _, _) => h.(made := h.made[i := p])
    case Post(i, ok) => if ok && i in h.made then h.(queue := h.queue + [Inbound(h.made[i], i)]) else h
    case Dequeue => if h.queue == [] then h else h.(hand := h.queue[0], queue := h.queue[1..])
    case Process(outcome, q, _) => Plan(h, |s.boxes|, outcome, q)
    case Send(ok) =>
      if h.plan == [] then h
      else
        var t := |h.plan| - 1;
        var through := ok && (h.plan[t].broadcast ==> h.turn !in h.stopped);
        h.(turn := h.turn + 1, missed := if through then h.missed else h.missed + {(t, h.turn)})
    case Finish(i) => h.(stopped := h.stopped + {i})
    case Transmit(i) =>
      if i < |h.wire| then h.(wire := h.wire[i := h.wire[i] + [s.phases[i].p]]) else h
    case _ => h
  }

  /** The history of a run; at the start the router announces itself everywhere. */
  function After(h: History, s: State, steps: seq<Step>): History
    decreases |steps|
  {
    if steps == [] then h
    else
      var h' := if !s.fault && Shape(s) && Enabled(s, steps[0]) then Note(h, s, steps[0]) else h;
      After(h', Next(s, steps[0]), steps[1..])
  }

  function Start(n: nat): History {
    History(map[], [], Inbound(0, 0), [Planned(0, AllPorts(n), true)], 0, {}, {}, seq(n, _ => []))
  }

  /** The messages meant for port j, in the order of their transmissions. */
  function Due(plan: seq<Planned>, missed: set<(nat, nat)>, j: nat): seq<Ptr>
    decreases |plan|
  {
    if plan == [] then []
    else
      var t := |plan| - 1;
      Due(plan[..t], missed, j) + if j in plan[t].ports && (t, j) !in missed then [plan[t].message] else []
  }

  function InHand(ph: Phase): seq<Ptr> {
    if ph.Fetched? then [ph.p] else []
  }

  // ---- The router follows its history ----

  ghost predicate Known(h: History, s: State)
    requires Shape(s)
  {
    && |h.wire| == |s.boxes|
    && (forall i: nat :: i < |s.phases| && s.phases[i].Producing? ==> i in h.made && h.made[i] == s.phases[i].p)
    && s.mainBox == h.queue
    && (s.main.Got? ==> h.hand == Inbound(s.main.p, s.main.origin))
    && (forall i: nat :: i < |s.finished| ==> (s.finished[i] <==> i in h.stopped))
  }

  /** The send loop is at the port the history expects, and wants the ports of the plan. */
  ghost predicate OnTurn(h: History, s: State)
    requires Shape(s)
  {
    s.main.Sending? ==>
      && h.plan != []
      && var last := h.plan[|h.plan| - 1];
      && last.message == s.main.p
      && h.turn == s.main.next
      && (last.broadcast <==> !s.main.kind.ToOne?)
      && (forall j: nat :: j < |s.boxes| ==> (j in last.ports <==> Wanted(s.main.kind, j)))
      && (forall m <- h.missed :: m.0 == |h.plan| - 1 ==> m.1 < s.main.next)
  }

  ghost predicate Early(h: History) {
    forall m <- h.missed :: m.0 < |h.plan|
  }

  /** What port j has sent, holds and will find in its mailbox is what is due to
      it; the transmission under way counts once its loop has passed the port. */
  ghost predicate Served(h: History, s: State, j: nat)
    requires Shape(s) && j < |s.boxes| == |h.wire|
  {
    var waits := s.main.Sending? && s.main.next <= j && h.plan != [];
    h.wire[j] + InHand(s.phases[j]) + s.boxes[j]
    == Due(if waits then h.plan[..|h.plan| - 1] else h.plan, h.missed, j)
  }

  ghost predicate Follows(h: History, s: State) {
    && Shape(s)
    && Known(h, s)
    && OnTurn(h, s)
    && Early(h)
    && (forall j: nat :: j < |s.boxes| ==> Served(h, s, j))
  }

  lemma {:induction false} DueIgnores(plan: seq<Planned>, missed: set<(nat, nat)>, t: nat, i: nat, j: nat)
    requires |plan| <= t || i != j
    ensures Due(plan, missed + {(t, i)}, j) == Due(plan, missed, j)
    decreases |plan|
  {
    if plan == [] {
    } else {
      DueIgnores(plan[..|plan| - 1], missed, t, i, j);
    }
  }

  /** A turn of the send loop queues the message to the one port whose turn it is. */
  lemma SendQueues(h: History, s: State, ok: bool, j: nat)
    requires Shape(s) && Known(h, s) && OnTurn(h, s) && s.main.Sending? && j < |s.boxes|
    ensures var h' := Note(h, s, Send(ok)); var s' := SendNext(s, ok); var t := |h.plan| - 1;
      && s'.phases == s.phases && h'.wire == h.wire && h'.plan == h.plan
      && s'.boxes[j] == s.boxes[j] + (if j == h.turn && j in h.plan[t].ports && (t, j) !in h'.missed
                                      then [h.plan[t].message] else [])
      && (s'.main.Sending? ==> s'.main.next == h.turn + 1)
      && (!s'.main.Sending? && j > h.turn ==> j !in h.plan[t].ports)
  {}

  lemma SendFollows(h: History, s: State, ok: bool, j: nat)
    requires Follows(h, s) && s.main.Sending? && j < |s.boxes| && Shape(SendNext(s, ok))
    ensures Served(Note(h, s, Send(ok)), SendNext(s, ok), j)
  {
    hide SendNext, Wanted, Last, Due;
    var h', s' := Note(h, s, Send(ok)), SendNext(s, ok);
    var t := |h.plan| - 1;
    assert Served(h, s, j);
    SendQueues(h, s, ok, j);
    DueIgnores(h.plan[..t], h.missed, t, h.turn, j);
    if j != h.turn {
      DueIgnores(h.plan, h.missed, t, h.turn, j);
    }
    NewestLast(h.plan, h'.missed, j);
  }

  lemma NewestLast(plan: seq<Planned>, missed: set<(nat, nat)>, j: nat)
    requires plan != []
    ensures var t := |plan| - 1;
      Due(plan, missed, j)
      == Due(plan[..t], missed, j) + if j in plan[t].ports && (t, j) !in missed then [plan[t].message] else []
  {}

  lemma SendStepFollows(h: History, s: State, ok: bool)
    requires Follows(h, s) && s.main.Sending?
    ensures Follows(Note(h, s, Send(ok)), SendNext(s, ok))
  {
    hide Due, Served;
    SendMoves(s, ok);
    forall j: nat | j < |s.boxes| ensures Served(Note(h, s, Send(ok)), SendNext(s, ok), j) {
      SendFollows(h, s, ok, j);
    }
  }

  /** A new transmission changes nothing yet for the ports before its turn. */
  lemma BeginFollows(h: History, s: State, outcome: Outcome, q: Ptr, b: Ptr)
    requires Inv(s) && Follows(h, s) && Enabled(s, Process(outcome, q, b)) && |s.boxes| <= 256
    ensures Follows(Note(h, s, Process(outcome, q, b)), ProcessMessage(s, outcome, q, b))
  {
    hide Due, Inv, PtrOk, OwnBuffers, ProcessMessage;
    var s' := ProcessMessage(s, outcome, q, b);
    var h' := Note(h, s, Process(outcome, q, b));
    Starts(h, s, outcome, q, b);
    forall j: nat | j < |s.boxes| ensures Served(h', s', j) {
      assert Served(h, s, j);
      NewestIsDue(h, h', j);
    }
  }

  /** Processing touches no port; it either leaves the plan, and the main thread
      idle, or adds what it is about to send. */
  lemma Starts(h: History, s: State, outcome: Outcome, q: Ptr, b: Ptr)
    requires Inv(s) && Known(h, s) && Early(h) && Enabled(s, Process(outcome, q, b))
    ensures var s' := ProcessMessage(s, outcome, q, b); var h' := Note(h, s, Process(outcome, q, b));
      && Shape(s') && s' == s.(main := s'.main, sent := s'.sent, msgs := s'.msgs, bufs := s'.bufs)
      && h' == h.(plan := h'.plan, turn := h'.turn) && OnTurn(h', s')
      && if s'.main.Sending?
         then s'.sent == s.sent + [s'.main.kind] && |h'.plan| == |h.plan| + 1 && h'.plan[..|h.plan|] == h.plan
              && (s'.main.next == 0 || s'.main.kind.ToOne?)
         else s'.main.Idle? && s'.sent == s.sent && h'.plan == h.plan
  {
    hide Due, PtrOk, OwnBuffers, Used;
    GotIsAlive(s);
  }

  lemma GotIsAlive(s: State)
    requires Inv(s) && s.main.Got?
    ensures Alive(s, s.main.p)
  {
    assert PtrOk(s, s.main.p) && Used(s, s.main.p);
  }

  lemma NewestIsDue(h: History, h': History, j: nat)
    requires h'.plan == h.plan || (h'.plan != [] && h'.plan[..|h'.plan| - 1] == h.plan)
    requires h'.missed == h.missed && Early(h)
    ensures var t := |h'.plan| - 1;
      h'.plan != h.plan ==>
        Due(h'.plan, h'.missed, j) == Due(h.plan, h.missed, j) + if j in h'.plan[t].ports then [h'.plan[t].message] else []
  {
    if h'.plan != h.plan {
      assert (|h.plan|, j) !in h.missed;
    }
  }

  lemma StepFollows(h: History, s: State, step: Step)
    requires Inv(s) && Follows(h, s) && Enabled(s, step) && |s.boxes| <= 256
    ensures Follows(Note(h, s, step), Apply(s, step))
  {
    match step
    case Send(ok) => SendStepFollows(h, s, ok);
    case Process(outcome, q, b) => BeginFollows(h, s, outcome, q, b);
    case _ => PortStepFollows(h, s, step);
  }

  /** The steps of the ports, and taking a message, move what is already due. */
  lemma PortStepFollows(h: History, s: State, step: Step)
    requires Inv(s) && Follows(h, s) && Enabled(s, step) && !step.Send? && !step.Process?
    ensures Follows(Note(h, s, step), Apply(s, step))
  {
    hide Due, Served, Inv, PtrOk, OwnBuffers, Apply, Note;
    var h', s' := Note(h, s, step), Apply(s, step);
    PortStepIsKnown(h, s, step);
    forall j: nat | j < |s.boxes| ensures Served(h', s', j) {
      PortStepServes(h, s, step, j);
    }
  }

  lemma PortStepIsKnown(h: History, s: State, step: Step)
    requires Shape(s) && Known(h, s) && Enabled(s, step) && !step.Send? && !step.Process?
    ensures var h' := Note(h, s, step); var s' := Apply(s, step);
      && Shape(s') && Known(h', s') && |s'.boxes| == |s.boxes|
      && (s'.main == s.main || !s'.main.Sending?)
      && h'.plan == h.plan && h'.turn == h.turn && h'.missed == h.missed
  {
    hide FreeData, CheckData, Known, Apply, Note;
    if step.Post? {
      PostIsKnown(h, s, step);
    } else if step.Receive? || step.Finish? || step.Dequeue? {
      NewsIsKnown(h, s, step);
    } else {
      ServiceIsKnown(h, s, step);
    }
  }

  lemma PostIsKnown(h: History, s: State, step: Step)
    requires Shape(s) && Known(h, s) && Enabled(s, step) && step.Post?
    ensures var h' := Note(h, s, step); var s' := Apply(s, step);
      && Shape(s') && Known(h', s') && |s'.boxes| == |s.boxes| && s'.main == s.main
      && h'.plan == h.plan && h'.turn == h.turn && h'.missed == h.missed
  {
    hide FreeData, Apply;
    ReleaseKeepsPorts(s, step);
  }

  lemma NewsIsKnown(h: History, s: State, step: Step)
    requires Shape(s) && Known(h, s) && Enabled(s, step) && (step.Receive? || step.Finish? || step.Dequeue?)
    ensures var h' := Note(h, s, step); var s' := Apply(s, step);
      && Shape(s') && Known(h', s') && |s'.boxes| == |s.boxes| && (s'.main == s.main || !s'.main.Sending?)
      && h'.plan == h.plan && h'.turn == h.turn && h'.missed == h.missed
  {}

  lemma ServiceIsKnown(h: History, s: State, step: Step)
    requires Shape(s) && Known(h, s) && Enabled(s, step) && (step.Fetch? || step.Transmit? || step.Release?)
    ensures var h' := Note(h, s, step); var s' := Apply(s, step);
      && Shape(s') && Known(h', s') && |s'.boxes| == |s.boxes| && s'.main == s.main
      && h'.plan == h.plan && h'.turn == h.turn && h'.missed == h.missed
  {
    hide CheckData;
    ReleaseKeepsPorts(s, step);
  }

  lemma PortStepServes(h: History, s: State, step: Step, j: nat)
    requires Shape(s) && Known(h, s) && Enabled(s, step) && !step.Send? && !step.Process?
    requires j < |s.boxes| && Served(h, s, j) && Shape(Apply(s, step))
    ensures var h' := Note(h, s, step); |h'.wire| == |Apply(s, step).boxes| == |s.boxes| && Served(h', Apply(s, step), j)
  {
    hide Due, Apply;
    PortStepMoves(h, s, step, j);
  }

  /** A port moves the oldest message of its mailbox to its hand, and from there to the wire. */
  lemma PortStepMoves(h: History, s: State, step: Step, j: nat)
    requires Shape(s) && Known(h, s) && Enabled(s, step) && !step.Send? && !step.Process? && j < |s.boxes|
    ensures var h' := Note(h, s, step); var s' := Apply(s, step);
      && |s'.boxes| == |s.boxes| == |s'.phases| == |h'.wire|
      && h'.wire[j] + InHand(s'.phases[j]) + s'.boxes[j] == h.wire[j] + InHand(s.phases[j]) + s.boxes[j]
      && (s'.main == s.main || (!s.main.Sending? && !s'.main.Sending?))
      && h'.plan == h.plan && h'.missed == h.missed
  {
    hide FreeData, CheckData;
    ReleaseKeepsPorts(s, step);
    if step.Fetch? && step.port == j {
      assert s.boxes[j] == [s.boxes[j][0]] + s.boxes[j][1..];
    }
  }

  /** Freeing a message touches the heap alone. */
  lemma ReleaseKeepsPorts(s: State, step: Step)
    requires Shape(s) && Enabled(s, step)
    ensures var s' := Apply(s, step).(msgs := s.msgs, bufs := s.bufs, fault := s.fault);
      && (step.Post? && step.ok ==>
            s' == SetPhase(s.(mainBox := s.mainBox + [Inbound(s.phases[step.port].p, step.port)]), step.port, Ready))
      && ((step.Post? && !step.ok) || step.Release? ==> s' == SetPhase(s, step.port, Ready))
  {}

  lemma {:induction false} RunFollows(h: History, s: State, steps: seq<Step>)
    requires Inv(s) && Follows(h, s) && |s.boxes| <= 256
    ensures Follows(After(h, s, steps), Run(s, steps))
    decreases |steps|
  {
    hide Follows;
    if steps == [] {
    } else {
      StepKeepsInv(s, steps[0]);
      if Enabled(s, steps[0]) {
        StepFollows(h, s, steps[0]);
        RunFollows(Note(h, s, steps[0]), Next(s, steps[0]), steps[1..]);
      } else {
        RunFollows(h, s, steps[1..]);
      }
    }
  }

  lemma BootFollows(n: nat)
    requires 0 < n
    ensures Follows(Start(n), Boot(n))
  {
    var h, s := Start(n), Boot(n);
    forall j: nat | j < n ensures Served(h, s, j) {
      assert h.plan[..0] == [];
    }
  }

  /** In every interleaving of up to 256 ports, and whatever fails: what a port
      has put on the wire, holds and has in its mailbox are the messages of the
      transmissions meant for it, once each and in their order, without those
      whose send failed or that were broadcast when it had finished.  A reply is
      meant for the port that received the message, a routed message for the port
      it leads to, a broadcast for all but the port that received it, a search
      for all. */
  lemma {:induction false} PortsGetWhatIsMeant(n: nat, steps: seq<Step>, j: nat)
    requires 0 < n <= 256 && j < n
    ensures var s := Run(Boot(n), steps); var h := After(Start(n), Boot(n), steps);
      && Shape(s) && |s.boxes| == n == |h.wire|
      && (!s.main.Sending? ==> h.wire[j] + InHand(s.phases[j]) + s.boxes[j] == Due(h.plan, h.missed, j))
  {
    R.BootKeepsInv(n);
    R.RunKeepsInv(Boot(n), steps);
    BootFollows(n);
    RunFollows(Start(n), Boot(n), steps);
    assert Served(After(Start(n), Boot(n), steps), Run(Boot(n), steps), j);
  }

  /** The main thread takes the posted messages in their order, each with the
      port that received it. */
  lemma {:induction false} OriginsAreTrue(n: nat, steps: seq<Step>)
    requires 0 < n <= 256
    ensures var s := Run(Boot(n), steps); var h := After(Start(n), Boot(n), steps);
      && s.mainBox == h.queue
      && (s.main.Got? ==> Inbound(s.main.p, s.main.origin) == h.hand)
  {
    R.BootKeepsInv(n);
    R.RunKeepsInv(Boot(n), steps);
    BootFollows(n);
    RunFollows(Start(n), Boot(n), steps);
  }

  // ---- The recorded deliveries ----

  /** Every transmission on record is for the ports of the plan. */
  ghost predicate Recorded(h: History, s: State) {
    && |h.plan| == |s.sent|
    && (forall t: nat, j: nat :: t < |s.sent| && j < |s.boxes| ==> (j in h.plan[t].ports <==> Wanted(s.sent[t], j)))
  }

  lemma StepRecords(h: History, s: State, step: Step)
    requires Inv(s) && Follows(h, s) && Recorded(h, s) && Enabled(s, step)
    ensures Recorded(Note(h, s, step), Apply(s, step))
  {
    hide Due, Served, PtrOk, OwnBuffers, ProcessMessage, FreeData, CheckData;
    if step.Process? {
      Starts(h, s, step.outcome, step.q, step.b);
    } else {
      ReleaseKeepsPorts(s, step);
    }
  }

  lemma {:induction false} RunRecords(h: History, s: State, steps: seq<Step>)
    requires Inv(s) && Follows(h, s) && Recorded(h, s) && |s.boxes| <= 256
    ensures Recorded(After(h, s, steps), Run(s, steps))
    decreases |steps|
  {
    hide Recorded, Known, OnTurn, Served;
    if steps == [] {
    } else {
      StepKeepsInv(s, steps[0]);
      if Enabled(s, steps[0]) {
        StepFollows(h, s, steps[0]);
        StepRecords(h, s, steps[0]);
        RunRecords(Note(h, s, steps[0]), Next(s, steps[0]), steps[1..]);
      } else {
        RunRecords(h, s, steps[1..]);
      }
    }
  }

  /** Without failures transmission t has been queued once to every port it is
      meant for and never to another, whenever the send loop is not at work. */
  lemma {:induction false} CleanRunsDeliverAsMeant(n: nat, steps: seq<Step>, t: nat, j: nat)
    requires 0 < n <= 256 && j < n
    requires forall step <- steps :: R.Clean(step, n)
    ensures var s := Run(Boot(n), steps); var h := After(Start(n), Boot(n), steps);
      && Shape(s) && |s.boxes| == n && |h.plan| == |s.sent|
      && (t < |h.plan| && !s.main.Sending? ==> multiset(s.delivered[j])[t] == if j in h.plan[t].ports then 1 else 0)
  {
    R.BootKeepsInv(n);
    R.RunKeepsInv(Boot(n), steps);
    R.BootIsExact(n);
    R.RunIsExact(Boot(n), steps);
    BootFollows(n);
    RunRecords(Start(n), Boot(n), steps);
    assert R.DeliversAt(Run(Boot(n), steps), j);
  }

  /** Without failures nothing is missed. */
  lemma {:induction false} CleanRunsMissNothing(h: History, s: State, steps: seq<Step>)
    requires h.missed == {} && h.stopped == {}
    requires forall step <- steps :: R.Clean(step, |s.boxes|)
    ensures After(h, s, steps).missed == {}
    decreases |steps|
  {
    if steps == [] {
    } else {
      var h' := if !s.fault && Shape(s) && Enabled(s, steps[0]) then Note(h, s, steps[0]) else h;
      assert R.Clean(steps[0], |s.boxes|);
      assert |Next(s, steps[0]).boxes| == |s.boxes|;
      CleanRunsMissNothing(h', Next(s, steps[0]), steps[1..]);
    }
  }
}
