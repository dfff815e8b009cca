/** Safety of the shared messages over every interleaving of the threads. */
module RouterMessagesSafety {
  import opened RouterMessages

  // ---- How handles move ----

  lemma {:induction false} OwnUpdate(phases: seq<Phase>, i: nat, ph: Phase, k: nat, p: Ptr)
    requires i < |phases| && k <= |phases|
    ensures PortsOwn(phases[i := ph], k, p)
            == PortsOwn(phases, k, p) + if i < k then OwnedBy(ph, p) - OwnedBy(phases[i], p) else 0
  {
    if k == 0 {
    } else {
      OwnUpdate(phases, i, ph, k - 1, p);
    }
  }

  lemma {:induction false} ShareUpdate(boxes: seq<seq<Ptr>>, phases: seq<Phase>, i: nat, box: seq<Ptr>, ph: Phase,
                                       k: nat, p: Ptr)
    requires |boxes| == |phases| && i < |boxes| && k <= |boxes|
    ensures PortsShare(boxes[i := box], phases[i := ph], k, p)
            == PortsShare(boxes, phases, k, p)
             + if i < k then Copies(box, p) + HeldBy(ph, p) - Copies(boxes[i], p) - HeldBy(phases[i], p) else 0
  {
    if k == 0 {
    } else {
      ShareUpdate(boxes, phases, i, box, ph, k - 1, p);
    }
  }

  /** What changing one port's mailbox and phase does to the counts. */
  lemma PortUpdate(s: State, i: nat, box: seq<Ptr>, ph: Phase)
    requires Shape(s) && i < |s.boxes|
    ensures forall p :: PortsOwn(s.phases[i := ph], |s.boxes|, p)
                        == PortsOwn(s.phases, |s.boxes|, p) + OwnedBy(ph, p) - OwnedBy(s.phases[i], p)
    ensures forall p :: PortsShare(s.boxes[i := box], s.phases[i := ph], |s.boxes|, p)
                        == PortsShare(s.boxes, s.phases, |s.boxes|, p)
                         + Copies(box, p) + HeldBy(ph, p) - Copies(s.boxes[i], p) - HeldBy(s.phases[i], p)
  {
    forall p ensures PortsOwn(s.phases[i := ph], |s.boxes|, p)
                     == PortsOwn(s.phases, |s.boxes|, p) + OwnedBy(ph, p) - OwnedBy(s.phases[i], p)
    {
      OwnUpdate(s.phases, i, ph, |s.boxes|, p);
    }
    forall p ensures PortsShare(s.boxes[i := box], s.phases[i := ph], |s.boxes|, p)
                     == PortsShare(s.boxes, s.phases, |s.boxes|, p)
                      + Copies(box, p) + HeldBy(ph, p) - Copies(s.boxes[i], p) - HeldBy(s.phases[i], p)
    {
      ShareUpdate(s.boxes, s.phases, i, box, ph, |s.boxes|, p);
    }
  }

  lemma PhaseUpdate(s: State, i: nat, ph: Phase)
    requires Shape(s) && i < |s.boxes|
    ensures forall p :: PortsOwn(s.phases[i := ph], |s.boxes|, p)
                        == PortsOwn(s.phases, |s.boxes|, p) + OwnedBy(ph, p) - OwnedBy(s.phases[i], p)
    ensures forall p :: PortsShare(s.boxes, s.phases[i := ph], |s.boxes|, p)
                        == PortsShare(s.boxes, s.phases, |s.boxes|, p) + HeldBy(ph, p) - HeldBy(s.phases[i], p)
  {
    PortUpdate(s, i, s.boxes[i], ph);
    assert s.boxes[i := s.boxes[i]] == s.boxes;
  }

  lemma {:induction false} BoxAppend(box: seq<Inbound>, m: Inbound, p: Ptr)
    ensures BoxOwns(box + [m], p) == BoxOwns(box, p) + if m.p == p then 1 else 0
  {
    if box == [] {
    } else {
      assert (box + [m])[1..] == box[1..] + [m];
      BoxAppend(box[1..], m, p);
    }
  }

  /** A port's own message, queued copies and held copy are all counted. */
  lemma {:induction false} PortIsCounted(boxes: seq<seq<Ptr>>, phases: seq<Phase>, i: nat, k: nat, p: Ptr)
    requires |boxes| == |phases| && i < k <= |boxes|
    ensures PortsOwn(phases, k, p) >= OwnedBy(phases[i], p)
    ensures PortsShare(boxes, phases, k, p) >= Copies(boxes[i], p) + HeldBy(phases[i], p)
  {
    if i < k - 1 {
      PortIsCounted(boxes, phases, i, k - 1, p);
    }
  }

  // ---- How the heap follows ----

  /** Handles may only disappear while the heap stays as it is. */
  lemma Shrinks(s: State, s': State)
    requires Inv(s) && Shape(s') && !s'.fault && s'.msgs == s.msgs && s'.bufs == s.bufs
    requires forall p :: Owners(s', p) <= Owners(s, p) && Handles(s', p) <= Handles(s, p)
    ensures Inv(s')
  {
    forall p ensures PtrOk(s', p) && (Used(s', p) ==> Used(s, p)) {
      assert PtrOk(s, p);
    }
  }

  /** The sole owner of p frees it. */
  lemma Frees(s: State, s': State, p: Ptr)
    requires Inv(s) && Owners(s, p) == 1 && p in s.msgs && Shape(s') && !s'.fault
    requires s'.msgs == s.msgs - {p} && s'.bufs == s.bufs - {s.msgs[p].pdu}
    requires forall q :: Owners(s', q) == (if q == p then 0 else Owners(s, q)) && Handles(s', q) == Handles(s, q)
    ensures Inv(s')
  {
    assert PtrOk(s, p) && Used(s, p);
    forall q ensures PtrOk(s', q) && (Used(s', q) ==> Used(s, q) && q != p) {
      assert PtrOk(s, q);
    }
  }

  lemma Produces(s: State, s': State, p: Ptr, m: MsgData)
    requires Inv(s) && FreshPair(s, p, m.pdu) && Shape(s') && !s'.fault
    requires s'.msgs == s.msgs[p := m] && s'.bufs == s.bufs + {m.pdu}
    requires forall q :: Owners(s', q) == Owners(s, q) + (if q == p then 1 else 0) && Handles(s', q) == Handles(s, q)
    ensures Inv(s')
  {
    forall q ensures PtrOk(s', q) && (Used(s', q) ==> q == p || (Used(s, q) && Alive(s, q))) {
      assert PtrOk(s, q);
    }
  }

  /** q becomes a shared message with no more handles than its count allows. */
  lemma Shares(s: State, s': State, q: Ptr, m: MsgData)
    requires Inv(s) && FreshPair(s, q, m.pdu) && Shape(s') && !s'.fault
    requires s'.msgs == s.msgs[q := m] && s'.bufs == s.bufs + {m.pdu}
    requires forall p :: Owners(s', p) == Owners(s, p) && (p != q ==> Handles(s', p) == Handles(s, p))
    requires 0 <= m.refCount < 256 && Handles(s', q) <= Budget(m.refCount)
    ensures Inv(s')
  {
    forall p ensures PtrOk(s', p) && (Used(s', p) ==> p == q || (Used(s, p) && Alive(s, p))) {
      assert PtrOk(s, p);
    }
  }

  /** A structure nobody refers to any more is harmless, whatever it holds. */
  lemma Leaks(s: State, s': State, q: Ptr, m: MsgData)
    requires Inv(s) && q !in s.msgs && s' == s.(msgs := s.msgs[q := m])
    ensures Inv(s')
  {
    forall p ensures PtrOk(s', p) && (Used(s', p) ==> Used(s, p) && p != q) {
      assert PtrOk(s, p);
    }
  }

  /** check_data takes one handle away and frees p only with the last one. */
  lemma Releases(s: State, s': State, p: Ptr)
    requires Inv(s) && Handles(s, p) > 0 && Shape(s')
    requires s'.msgs == CheckData(s, p).msgs && s'.bufs == CheckData(s, p).bufs && s'.fault == CheckData(s, p).fault
    requires forall q :: Owners(s', q) == Owners(s, q) && Handles(s', q) == Handles(s, q) - if q == p then 1 else 0
    ensures Inv(s')
  {
    hide PortsOwn, PortsShare, BoxOwns;
    assert PtrOk(s, p) && Used(s, p);
    var count := (s.msgs[p].refCount - 1) % 256;
    if count == 0 {
      assert s.msgs[p].refCount == 1;
      assert s'.msgs == s.msgs - {p} && s'.bufs == s.bufs - {s.msgs[p].pdu};
    } else {
      assert s'.msgs == s.msgs[p := s.msgs[p].(refCount := count)] && s'.bufs == s.bufs;
    }
    forall q ensures PtrOk(s', q) && (Used(s', q) ==> Used(s, q) && q in s'.msgs && s'.msgs[q].pdu == s.msgs[q].pdu) {
      assert PtrOk(s, q);
    }
  }

  // ---- Every step keeps the invariant ----

  lemma ReceiveStep(s: State, i: nat, p: Ptr, b: Ptr, junk: int)
    requires Inv(s) && Enabled(s, Receive(i, p, b, junk))
    ensures Inv(Apply(s, Receive(i, p, b, junk)))
  {
    PhaseUpdate(s, i, Producing(p));
    Produces(s, Apply(s, Receive(i, p, b, junk)), p, MsgData(b, junk, false));
  }

  lemma PostStep(s: State, i: nat, ok: bool)
    requires Inv(s) && Enabled(s, Post(i, ok))
    ensures Inv(Apply(s, Post(i, ok)))
  {
    var s' := Apply(s, Post(i, ok));
    var p := s.phases[i].p;
    PhaseUpdate(s, i, Ready);
    PortIsCounted(s.boxes, s.phases, i, |s.boxes|, p);
    assert PtrOk(s, p) && Used(s, p);
    if ok {
      forall q ensures BoxOwns(s'.mainBox, q) == BoxOwns(s.mainBox, q) + if p == q then 1 else 0 {
        BoxAppend(s.mainBox, Inbound(p, i), q);
      }
      Shrinks(s, s');
    } else {
      Frees(s, s', p);
    }
  }

  lemma FetchStep(s: State, i: nat)
    requires Inv(s) && Enabled(s, Fetch(i))
    ensures Inv(Apply(s, Fetch(i)))
  {
    var box := s.boxes[i];
    assert box == [box[0]] + box[1..];
    PortUpdate(s, i, box[1..], Fetched(box[0]));
    Shrinks(s, Apply(s, Fetch(i)));
  }

  lemma TransmitStep(s: State, i: nat)
    requires Inv(s) && Enabled(s, Transmit(i))
    ensures Inv(Apply(s, Transmit(i)))
  {
    var p := s.phases[i].p;
    PortIsCounted(s.boxes, s.phases, i, |s.boxes|, p);
    assert PtrOk(s, p) && Used(s, p);
    PhaseUpdate(s, i, Sent(p));
    Shrinks(s, Apply(s, Transmit(i)));
  }

  lemma ReleaseStep(s: State, i: nat)
    requires Inv(s) && Enabled(s, Release(i))
    ensures Inv(Apply(s, Release(i)))
  {
    hide PortsOwn, PortsShare, BoxOwns, PtrOk, OwnBuffers;
    var p := s.phases[i].p;
    PortIsCounted(s.boxes, s.phases, i, |s.boxes|, p);
    PhaseUpdate(s, i, Ready);
    Releases(s, Apply(s, Release(i)), p);
  }

  /** A queued copy replaces the send it came from; other handles stay. */
  lemma SendMoves(s: State, ok: bool)
    requires Shape(s) && s.main.Sending?
    ensures var s' := SendNext(s, ok);
      && Shape(s')
      && (forall p :: Owners(s', p) == Owners(s, p) && Handles(s', p) <= Handles(s, p))
      && (ok && !s.finished[s.main.next] ==> forall p :: Handles(s', p) == Handles(s, p))
  {
    var j := s.main.next;
    PortUpdate(s, j, s.boxes[j] + [s.main.p], s.phases[j]);
    assert s.phases[j := s.phases[j]] == s.phases;
  }

  /** The transmission q starts with as many sends as its count allows. */
  lemma BeginShares(s: State, s0: State, q: Ptr, b: Ptr, kind: Kind)
    requires Inv(s) && FreshPair(s, q, b) && s.main.Idle? && |s.boxes| <= 256
    requires kind.ToOne? ==> kind.dest < |s.boxes|
    requires kind.ToAllBut? ==> kind.origin < |s.boxes|
    requires q in s0.msgs && s0 == s.(msgs := s.msgs[q := s0.msgs[q]])
    ensures Inv(Begin(s0, q, b, kind))
  {
    var s' := Begin(s0, q, b, kind);
    assert s'.msgs == s.msgs[q := s'.msgs[q]];
    assert PtrOk(s, q);
    Shares(s, s', q, s'.msgs[q]);
  }

  lemma ProcessStep(s: State, outcome: Outcome, q: Ptr, b: Ptr)
    requires Inv(s) && Enabled(s, Process(outcome, q, b)) && |s.boxes| <= 256
    ensures Inv(ProcessMessage(s, outcome, q, b))
  {
    hide PortsOwn, PortsShare, BoxOwns, OwnBuffers;
    var s' := ProcessMessage(s, outcome, q, b);
    var p := s.main.p;
    assert PtrOk(s, p) && Used(s, p);
    var idle := s.(main := Idle);
    Shrinks(s, idle);
    var freed := idle.(msgs := s.msgs - {p}, bufs := s.bufs - {s.msgs[p].pdu});
    Frees(s, freed, p);
    var copied := idle.(msgs := s.msgs[q := s.msgs[p]]);
    assert copied.msgs - {p} == freed.msgs[q := s.msgs[p]];
    match outcome
    case NoMemory =>
    case NoReply =>
      Leaks(freed, s', q, s.msgs[p]);
    case Invalid =>
      assert copied.msgs - {q} == freed.msgs[p := s.msgs[p]];
      Leaks(freed, s', p, s.msgs[p]);
    case Reply =>
      BeginShares(idle, copied, q, b, ToOne(s.main.origin));
    case Search =>
      BeginShares(idle, copied, q, b, ToAll);
    case Forward(d) =>
      BeginShares(freed, FreeData(copied, p), q, b, ToOne(d));
    case Flood =>
      BeginShares(freed, FreeData(copied, p), q, b, ToAllBut(s.main.origin));
  }

  lemma StepKeepsInv(s: State, step: Step)
    requires Inv(s) && |s.boxes| <= 256
    ensures Inv(Next(s, step)) && |Next(s, step).boxes| == |s.boxes|
  {
    if Enabled(s, step) {
      match step
      case Receive(i, p, b, junk) => ReceiveStep(s, i, p, b, junk);
      case Post(i, ok) => PostStep(s, i, ok);
      case Fetch(i) => FetchStep(s, i);
      case Transmit(i) => TransmitStep(s, i);
      case Release(i) => ReleaseStep(s, i);
      case Finish(i) => Shrinks(s, Apply(s, step));
      case Dequeue => Shrinks(s, Apply(s, step));
      case Process(outcome, q, b) => ProcessStep(s, outcome, q, b);
      case Send(ok) => SendMoves(s, ok); Shrinks(s, Apply(s, step));
    }
  }
}
