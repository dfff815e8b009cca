/** What is in memory after a run without failures: the messages somebody can
    still reach, and those the main thread forgets to free. */
module RouterMessagesMemory {
  import opened RouterMessages
  import opened RouterMessagesSafety
  import R = RouterMessagesRuns

  /** Messages and octet buffers that nobody will ever free. */
  datatype Lost = Lost(msgs: set<Ptr>, bufs: set<Ptr>)

  /** A received message is forgotten if there is no memory to answer it, and when
      it is answered or searched for.  Without an answer the new message is
      forgotten, and for an invalid one the received message: in both cases the
      octets, which the two share, have been freed. */
  function Forgets(lost: Lost, s: State, step: Step): Lost {
    if !step.Process? || !s.main.Got? || s.main.p !in s.msgs then lost
    else
      var p, b := s.main.p, s.msgs[s.main.p].pdu;
      match step.outcome
      case NoMemory => Lost(lost.msgs + {p}, lost.bufs + {b})
      case NoReply => lost.(msgs := lost.msgs + {step.q})
      case Invalid => lost.(msgs := lost.msgs + {p})
      case Reply => Lost(lost.msgs + {p}, lost.bufs + {b})
      case Search => Lost(lost.msgs + {p}, lost.bufs + {b})
      case Forward(_) => lost
      case Flood => lost
  }

  function Forgotten(lost: Lost, s: State, steps: seq<Step>): Lost
    decreases |steps|
  {
    if steps == [] then lost
    else
      var lost' := if !s.fault && Shape(s) && Enabled(s, steps[0]) then Forgets(lost, s, steps[0]) else lost;
      Forgotten(lost', Next(s, steps[0]), steps[1..])
  }

  /** b holds the octets of a message that somebody can reach. */
  ghost predicate Holds(s: State, b: Ptr)
    requires Shape(s)
  {
    exists p :: Used(s, p) && p in s.msgs && s.msgs[p].pdu == b
  }

  /** The structures and buffers in memory are those in use and those lost. */
  ghost predicate Accounted(lost: Lost, s: State) {
    && Shape(s)
    && (forall p :: p in s.msgs <==> Used(s, p) || p in lost.msgs)
    && (forall p <- lost.msgs :: !Used(s, p))
    && (forall b :: b in s.bufs <==> Holds(s, b) || b in lost.bufs)
    && (forall b <- lost.bufs :: !Holds(s, b))
  }

  // ---- The ways in which memory and its users change ----

  /** Nothing is allocated or freed, and the users stay the same. */
  lemma Unmoved(lost: Lost, s: State, s': State)
    requires Accounted(lost, s) && Shape(s') && s'.bufs == s.bufs && s'.msgs.Keys == s.msgs.Keys
    requires forall p :: p in s.msgs ==> s'.msgs[p].pdu == s.msgs[p].pdu
    requires forall p :: Used(s', p) == Used(s, p)
    ensures Accounted(lost, s')
  {
    forall b ensures Holds(s', b) == Holds(s, b) {}
  }

  /** A new message in use. */
  lemma Allocates(lost: Lost, s: State, s': State, q: Ptr, m: MsgData)
    requires Inv(s) && Accounted(lost, s) && FreshPair(s, q, m.pdu) && Shape(s')
    requires s'.msgs == s.msgs[q := m] && s'.bufs == s.bufs + {m.pdu}
    requires forall p :: Used(s', p) == (Used(s, p) || p == q)
    ensures Accounted(lost, s')
  {
    assert PtrOk(s, q);
    forall b ensures Holds(s', b) == (Holds(s, b) || b == m.pdu) {
      if Holds(s, b) {
        var p :| Used(s, p) && p in s.msgs && s.msgs[p].pdu == b;
        assert Used(s', p) && s'.msgs[p].pdu == b;
      }
      if b == m.pdu {
        assert Used(s', q) && s'.msgs[q].pdu == b;
      }
    }
  }

  /** A message in use is freed, with its octets. */
  lemma Disposes(lost: Lost, s: State, s': State, p: Ptr)
    requires Inv(s) && Accounted(lost, s) && Used(s, p) && p in s.msgs && Shape(s')
    requires s'.msgs == s.msgs - {p} && s'.bufs == s.bufs - {s.msgs[p].pdu}
    requires forall q :: Used(s', q) == (Used(s, q) && q != p)
    ensures Accounted(lost, s')
  {
    forall b ensures Holds(s', b) == (Holds(s, b) && b != s.msgs[p].pdu) {
      if Holds(s, b) && b != s.msgs[p].pdu {
        var q :| Used(s, q) && q in s.msgs && s.msgs[q].pdu == b;
        assert Used(s', q) && s'.msgs[q].pdu == b;
      }
    }
    assert Holds(s, s.msgs[p].pdu);
  }

  /** A message in use is lost, with its octets. */
  lemma Drops(lost: Lost, s: State, s': State, p: Ptr)
    requires Inv(s) && Accounted(lost, s) && Used(s, p) && p in s.msgs && Shape(s')
    requires s'.msgs == s.msgs && s'.bufs == s.bufs
    requires forall q :: Used(s', q) == (Used(s, q) && q != p)
    ensures Accounted(Lost(lost.msgs + {p}, lost.bufs + {s.msgs[p].pdu}), s')
  {
    forall b ensures Holds(s', b) == (Holds(s, b) && b != s.msgs[p].pdu) {
      if Holds(s, b) && b != s.msgs[p].pdu {
        var q :| Used(s, q) && q in s.msgs && s.msgs[q].pdu == b;
        assert Used(s', q) && s'.msgs[q].pdu == b;
      }
    }
    assert Holds(s, s.msgs[p].pdu);
  }

  /** A structure is left behind whose octets are gone. */
  lemma LeavesBehind(lost: Lost, s: State, s': State, q: Ptr, m: MsgData)
    requires Inv(s) && Accounted(lost, s) && q !in s.msgs && s' == s.(msgs := s.msgs[q := m])
    ensures Accounted(lost.(msgs := lost.msgs + {q}), s')
  {
    assert PtrOk(s, q);
    forall b ensures Holds(s', b) == Holds(s, b) {
      if Holds(s, b) {
        var p :| Used(s, p) && p in s.msgs && s.msgs[p].pdu == b;
        assert Used(s', p) && s'.msgs[p].pdu == b;
      }
    }
  }

  // ---- Every step ----

  lemma BeginAccounts(lost: Lost, s: State, s0: State, q: Ptr, b: Ptr, kind: Kind)
    requires Inv(s) && Accounted(lost, s) && FreshPair(s, q, b) && s.main.Idle?
    requires kind.ToOne? ==> kind.dest < |s.boxes|
    requires kind.ToAllBut? ==> kind.origin < |s.boxes| && |s.boxes| >= 2
    requires q in s0.msgs && s0 == s.(msgs := s.msgs[q := s0.msgs[q]])
    ensures Accounted(lost, Begin(s0, q, b, kind))
  {
    hide Accounted, PtrOk, OwnBuffers;
    var s' := Begin(s0, q, b, kind);
    assert PendingCount(kind, First(kind), |s.boxes|) > 0;
    Allocates(lost, s, s', q, s'.msgs[q]);
  }

  /** The received message is no longer used: it is lost, or freed. */
  lemma TakenAccounts(lost: Lost, s: State)
    requires Inv(s) && Accounted(lost, s) && s.main.Got?
    ensures var p, idle := s.main.p, s.(main := Idle);
      && Alive(s, p) && s.main.origin < |s.boxes|
      && Inv(idle) && Accounted(Lost(lost.msgs + {p}, lost.bufs + {s.msgs[p].pdu}), idle)
      && var freed := idle.(msgs := s.msgs - {p}, bufs := s.bufs - {s.msgs[p].pdu});
         Inv(freed) && Accounted(lost, freed)
  {
    hide PortsOwn, PortsShare, BoxOwns, OwnBuffers, Accounted;
    var p, idle := s.main.p, s.(main := Idle);
    assert PtrOk(s, p) && Used(s, p);
    Shrinks(s, idle);
    Drops(lost, s, idle, p);
    var freed := idle.(msgs := s.msgs - {p}, bufs := s.bufs - {s.msgs[p].pdu});
    Frees(s, freed, p);
    Disposes(lost, s, freed, p);
  }

  lemma ProcessAccounts(lost: Lost, s: State, outcome: Outcome, q: Ptr, b: Ptr)
    requires Inv(s) && Accounted(lost, s) && Enabled(s, Process(outcome, q, b))
    requires R.Clean(Process(outcome, q, b), |s.boxes|)
    ensures Accounted(Forgets(lost, s, Process(outcome, q, b)), ProcessMessage(s, outcome, q, b))
  {
    hide Inv, Accounted, Begin;
    var s', p := ProcessMessage(s, outcome, q, b), s.main.p;
    TakenAccounts(lost, s);
    var idle := s.(main := Idle);
    var freed := idle.(msgs := s.msgs - {p}, bufs := s.bufs - {s.msgs[p].pdu});
    var dropped := Lost(lost.msgs + {p}, lost.bufs + {s.msgs[p].pdu});
    var copied := idle.(msgs := s.msgs[q := s.msgs[p]]);
    assert copied.msgs - {p} == freed.msgs[q := s.msgs[p]];
    match outcome
    case NoMemory =>
    case NoReply => LeavesBehind(lost, freed, s', q, s.msgs[p]);
    case Invalid =>
      assert copied.msgs - {q} == freed.msgs[p := s.msgs[p]];
      LeavesBehind(lost, freed, s', p, s.msgs[p]);
    case Reply => BeginAccounts(dropped, idle, copied, q, b, ToOne(s.main.origin));
    case Search => BeginAccounts(dropped, idle, copied, q, b, ToAll);
    case Forward(d) => BeginAccounts(lost, freed, FreeData(copied, p), q, b, ToOne(d));
    case Flood => BeginAccounts(lost, freed, FreeData(copied, p), q, b, ToAllBut(s.main.origin));
  }

  lemma ReceiveAccounts(lost: Lost, s: State, i: nat, p: Ptr, b: Ptr, junk: int)
    requires Inv(s) && Accounted(lost, s) && Enabled(s, Receive(i, p, b, junk))
    ensures Accounted(lost, Apply(s, Receive(i, p, b, junk)))
  {
    hide Accounted, PtrOk, OwnBuffers;
    PhaseUpdate(s, i, Producing(p));
    Allocates(lost, s, Apply(s, Receive(i, p, b, junk)), p, MsgData(b, junk, false));
  }

  lemma PostAccounts(lost: Lost, s: State, i: nat, ok: bool)
    requires Inv(s) && Accounted(lost, s) && Enabled(s, Post(i, ok))
    ensures Accounted(lost, Apply(s, Post(i, ok)))
  {
    hide Accounted, OwnBuffers;
    var s' := Apply(s, Post(i, ok));
    var p := s.phases[i].p;
    PhaseUpdate(s, i, Ready);
    PortIsCounted(s.boxes, s.phases, i, |s.boxes|, p);
    assert PtrOk(s, p) && Used(s, p);
    if ok {
      forall q ensures BoxOwns(s'.mainBox, q) == BoxOwns(s.mainBox, q) + if p == q then 1 else 0 {
        BoxAppend(s.mainBox, Inbound(p, i), q);
      }
      Unmoved(lost, s, s');
    } else {
      Disposes(lost, s, s', p);
    }
  }

  lemma ReleaseAccounts(lost: Lost, s: State, i: nat)
    requires Inv(s) && R.Exact(s) && Accounted(lost, s) && Enabled(s, Release(i))
    ensures Accounted(lost, Apply(s, Release(i)))
  {
    hide Accounted, OwnBuffers, PortsOwn, PortsShare, BoxOwns;
    var s', p := Apply(s, Release(i)), s.phases[i].p;
    R.LastReleaseFrees(s, i);
    PhaseUpdate(s, i, Ready);
    PortIsCounted(s.boxes, s.phases, i, |s.boxes|, p);
    assert PtrOk(s, p) && Used(s, p);
    if Handles(s, p) == 1 {
      assert s'.msgs == s.msgs - {p};
      Disposes(lost, s, s', p);
    } else {
      Unmoved(lost, s, s');
    }
  }

  lemma TakeAccounts(lost: Lost, s: State, step: Step)
    requires Inv(s) && R.Exact(s) && Accounted(lost, s) && Enabled(s, step)
    requires step.Fetch? || step.Transmit? || step.Dequeue? || (step.Send? && step.ok)
    ensures Accounted(lost, Apply(s, step))
  {
    hide Accounted, OwnBuffers, PtrOk, PortsOwn, PortsShare;
    SameUsers(s, step);
    Unmoved(lost, s, Apply(s, step));
  }

  lemma SameUsers(s: State, step: Step)
    requires Inv(s) && R.Exact(s) && Enabled(s, step)
    requires step.Fetch? || step.Transmit? || step.Dequeue? || (step.Send? && step.ok)
    ensures var s' := Apply(s, step);
      && Shape(s') && s'.msgs == s.msgs && s'.bufs == s.bufs
      && forall p :: Used(s', p) == Used(s, p)
  {
    hide OwnBuffers, PortsOwn, PortsShare, R.ExactAt;
    match step
    case Fetch(i) =>
      var box := s.boxes[i];
      assert box == [box[0]] + box[1..];
      PortUpdate(s, i, box[1..], Fetched(box[0]));
    case Transmit(i) =>
      var p := s.phases[i].p;
      PortIsCounted(s.boxes, s.phases, i, |s.boxes|, p);
      assert PtrOk(s, p) && Used(s, p);
      PhaseUpdate(s, i, Sent(p));
    case Send(ok) => SendMoves(s, ok);
    case Dequeue =>
  }

  lemma StepAccounts(lost: Lost, s: State, step: Step)
    requires Inv(s) && R.Exact(s) && Accounted(lost, s) && Enabled(s, step) && R.Clean(step, |s.boxes|)
    ensures Accounted(Forgets(lost, s, step), Apply(s, step))
  {
    hide Accounted, Inv, R.Exact;
    match step
    case Receive(i, p, b, junk) => ReceiveAccounts(lost, s, i, p, b, junk);
    case Post(i, ok) => PostAccounts(lost, s, i, ok);
    case Release(i) => ReleaseAccounts(lost, s, i);
    case Process(outcome, q, b) => ProcessAccounts(lost, s, outcome, q, b);
    case _ => TakeAccounts(lost, s, step);
  }

  lemma {:induction false} RunAccounts(lost: Lost, s: State, steps: seq<Step>)
    requires Inv(s) && R.Exact(s) && Accounted(lost, s) && |s.boxes| <= 256
    requires forall step <- steps :: R.Clean(step, |s.boxes|)
    ensures Accounted(Forgotten(lost, s, steps), Run(s, steps))
    decreases |steps|
  {
    hide Accounted, R.Exact;
    if steps == [] {
    } else {
      var step := steps[0];
      assert R.Clean(step, |s.boxes|);
      StepKeepsInv(s, step);
      R.StepIsExact(s, step);
      if Enabled(s, step) {
        StepAccounts(lost, s, step);
        RunAccounts(Forgets(lost, s, step), Next(s, step), steps[1..]);
      } else {
        RunAccounts(lost, s, steps[1..]);
      }
    }
  }

  lemma BootAccounts(n: nat)
    requires 0 < n <= 256
    ensures Accounted(Lost({}, {}), Boot(n))
  {
    var s := Boot(n);
    forall p ensures Used(s, p) == (p == 0) {
      R.NobodyAtStart(n, n, p);
    }
    assert Used(s, 0) && s.msgs[0].pdu == 0;
  }

  /** After any run without failures a message is in memory exactly if a thread
      can still reach it or it was forgotten, a buffer exactly if it holds the
      octets of a message that can be reached or was forgotten; nothing is both. */
  lemma {:induction false} MemoryIsAccountedFor(n: nat, steps: seq<Step>, p: Ptr, b: Ptr)
    requires 0 < n <= 256
    requires forall step <- steps :: R.Clean(step, n)
    ensures var s := Run(Boot(n), steps); var lost := Forgotten(Lost({}, {}), Boot(n), steps);
      && Shape(s)
      && (p in s.msgs <==> Used(s, p) || p in lost.msgs)
      && (b in s.bufs <==> Holds(s, b) || b in lost.bufs)
      && !(Used(s, p) && p in lost.msgs) && !(Holds(s, b) && b in lost.bufs)
  {
    R.BootKeepsInv(n);
    R.BootIsExact(n);
    BootAccounts(n);
    RunAccounts(Lost({}, {}), Boot(n), steps);
  }
}
