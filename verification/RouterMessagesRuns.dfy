/** Whole runs of the threaded router: safety, its exact port limit, and what
    a run without failures delivers. */
module RouterMessagesRuns {
  import opened RouterMessages
  import opened RouterMessagesSafety

  // ---- Safety for at most 256 ports ----

  lemma BootKeepsInv(n: nat)
    requires 0 < n <= 256
    ensures Inv(Boot(n)) && |Boot(n).boxes| == n
  {
    var e := Empty(n);
    assert Shape(e);
    forall p ensures PtrOk(e, p) && !Used(e, p) {
      NobodyAtStart(n, n, p);
    }
    NobodyAtStart(n, n, 0);
    Shares(e, Boot(n), 0, Boot(n).msgs[0]);
  }

  lemma {:induction false} NobodyAtStart(n: nat, k: nat, p: Ptr)
    requires k <= n
    ensures PortsOwn(Empty(n).phases, k, p) == 0
    ensures PortsShare(Empty(n).boxes, Empty(n).phases, k, p) == 0
  {
    if k == 0 {
    } else {
      NobodyAtStart(n, k - 1, p);
    }
  }

  lemma {:induction false} RunKeepsInv(s: State, steps: seq<Step>)
    requires Inv(s) && |s.boxes| <= 256
    ensures Inv(Run(s, steps)) && |Run(s, steps).boxes| == |s.boxes|
    decreases |steps|
  {
    if steps == [] {
    } else {
      StepKeepsInv(s, steps[0]);
      RunKeepsInv(Next(s, steps[0]), steps[1..]);
    }
  }

  /** In every interleaving the count of a transmitted message covers its queued
      copies, the copies held by port threads and the sends still to do; so no
      live handle ever meets freed memory and nothing is freed twice. */
  lemma {:induction false} EveryRunIsSafe(n: nat, steps: seq<Step>, p: Ptr)
    requires 0 < n <= 256
    ensures var s := Run(Boot(n), steps);
      && Shape(s)
      && !s.fault
      && (Handles(s, p) > 0 ==> Alive(s, p) && Handles(s, p) <= Budget(s.msgs[p].refCount))
      && (Owners(s, p) > 0 ==> Alive(s, p) && Owners(s, p) == 1 && Handles(s, p) == 0)
  {
    BootKeepsInv(n);
    RunKeepsInv(Boot(n), steps);
    assert PtrOk(Run(Boot(n), steps), p);
  }

  // ---- More than 256 ports: the announcement at start-up is freed too early ----

  ghost predicate Reachable(n: nat, s: State) {
    exists steps :: Run(Boot(n), steps) == s
  }

  lemma {:induction false} RunThen(s: State, steps: seq<Step>, step: Step)
    ensures Run(s, steps + [step]) == Next(Run(s, steps), step)
    decreases |steps|
  {
    if steps == [] {
      assert Run(Next(s, step), []) == Next(s, step);
    } else {
      assert (steps + [step])[1..] == steps[1..] + [step];
      RunThen(Next(s, steps[0]), steps[1..], step);
    }
  }

  lemma ReachNext(n: nat, s: State, step: Step)
    requires Reachable(n, s)
    ensures Reachable(n, Next(s, step))
  {
    var steps :| Run(Boot(n), steps) == s;
    RunThen(Boot(n), steps, step);
  }

  /** The announcement (message 0) is queued to the first k ports. */
  function Announcing(n: nat, k: nat): State
    requires k <= n
  {
    State(map[0 := MsgData(0, n % 256, true)], {0}, [],
          seq(n, j => if j < k then [0] else []), seq(n, _ => Ready), seq(n, _ => false),
          if k < n then Sending(0, 0, ToAll, k) else Idle, false, [ToAll],
          seq(n, j => if j < k then [0] else []), seq(n, _ => 0))
  }

  /** The first k ports have finished with the announcement. */
  function Draining(n: nat, k: nat): State
    requires k <= n
  {
    var done := k == Budget(n % 256);
    State(if done then map[] else map[0 := MsgData(0, (n - k) % 256, true)], if done then {} else {0}, [],
          seq(n, j => if j < k then [] else [0]), seq(n, _ => Ready), seq(n, _ => false),
          Idle, false, [ToAll], seq(n, j => [0]), seq(n, j => if j < k then 1 else 0))
  }

  lemma AnnounceOne(n: nat, k: nat)
    requires k < n
    ensures Next(Announcing(n, k), Send(true)) == Announcing(n, k + 1)
  {
    var s := Announcing(n, k);
    var s' := SendNext(s, true);
    assert [] + [0] == [0];
    assert s'.boxes == Announcing(n, k + 1).boxes;
    assert s'.delivered == Announcing(n, k + 1).delivered;
  }

  lemma {:induction false} ReachAnnouncing(n: nat, k: nat)
    requires 0 < n && k <= n
    ensures Reachable(n, Announcing(n, k))
  {
    if k == 0 {
      assert Run(Boot(n), []) == Boot(n);
      assert Announcing(n, 0).boxes == Boot(n).boxes && Announcing(n, 0).delivered == Boot(n).delivered;
    } else {
      ReachAnnouncing(n, k - 1);
      ReachNext(n, Announcing(n, k - 1), Send(true));
      AnnounceOne(n, k - 1);
    }
  }

  /** Port k has taken the announcement and put it on the wire. */
  function OnTheWire(n: nat, k: nat): State
    requires k < Budget(n % 256) < n
  {
    var s := Draining(n, k);
    s.(boxes := s.boxes[k := []], taken := s.taken[k := 1], phases := s.phases[k := Sent(0)])
  }

  lemma FetchAndTransmit(n: nat, k: nat)
    requires k < Budget(n % 256) < n
    ensures Next(Next(Draining(n, k), Fetch(k)), Transmit(k)) == OnTheWire(n, k)
  {
    var s := Draining(n, k);
    var s1 := Apply(s, Fetch(k));
    assert Next(s, Fetch(k)) == s1;
    assert [0][1..] == [];
    assert s1.boxes == s.boxes[k := []];
    assert s1.phases[k := Sent(0)] == s.phases[k := Sent(0)];
  }

  lemma CountDown(n: nat, k: nat)
    requires k < Budget(n % 256)
    ensures ((n - k) % 256 - 1) % 256 == (n - (k + 1)) % 256
    ensures (n - (k + 1)) % 256 == 0 <==> k + 1 == Budget(n % 256)
  {
    var r := Budget(n % 256);
    var q := (n - r) / 256;
    assert n == 256 * q + r;
    Modulo256(q, r - k);
    Modulo256(q, r - (k + 1));
  }

  lemma Modulo256(q: int, x: int)
    ensures (256 * q + x) % 256 == x % 256
  {}

  lemma {:induction false} ReleaseOne(n: nat, k: nat)
    requires k < Budget(n % 256) < n
    ensures Next(OnTheWire(n, k), Release(k)) == Draining(n, k + 1)
  {
    CountDown(n, k);
    var s := OnTheWire(n, k);
    var s' := Apply(s, Release(k));
    var d := Draining(n, k + 1);
    assert s'.boxes == d.boxes;
    assert s'.taken == d.taken;
    assert s'.phases == d.phases;
    assert s'.msgs == d.msgs;
  }

  lemma DrainOne(n: nat, k: nat)
    requires k < Budget(n % 256) < n && Reachable(n, Draining(n, k))
    ensures Reachable(n, Draining(n, k + 1))
  {
    ReachNext(n, Draining(n, k), Fetch(k));
    ReachNext(n, Next(Draining(n, k), Fetch(k)), Transmit(k));
    FetchAndTransmit(n, k);
    ReachNext(n, OnTheWire(n, k), Release(k));
    ReleaseOne(n, k);
  }

  lemma {:induction false} ReachDraining(n: nat, k: nat)
    requires 256 < n && k <= Budget(n % 256)
    ensures Reachable(n, Draining(n, k))
  {
    if k == 0 {
      ReachAnnouncing(n, n);
      assert Announcing(n, n) == Draining(n, 0);
    } else {
      ReachDraining(n, k - 1);
      DrainOne(n, k - 1);
    }
  }

  lemma TooManyPorts(n: nat)
    requires 256 < n
    ensures exists steps :: Run(Boot(n), steps).fault
  {
    var r := Budget(n % 256);
    var s := Draining(n, r);
    ReachDraining(n, r);
    ReachNext(n, s, Fetch(r));
    var s1 := Next(s, Fetch(r));
    assert s1.phases[r] == Fetched(0);
    ReachNext(n, s1, Transmit(r));
    assert Next(s1, Transmit(r)).fault;
  }

  /** The router is free of dangling messages exactly up to 256 ports, the most
      that a uint8_t count which wraps can tell apart. */
  lemma SafeExactlyUpTo256Ports(n: nat)
    requires 0 < n
    ensures (forall steps :: !Run(Boot(n), steps).fault) <==> n <= 256
  {
    if n <= 256 {
      forall steps ensures !Run(Boot(n), steps).fault {
        EveryRunIsSafe(n, steps, 0);
      }
    } else {
      TooManyPorts(n);
    }
  }

  // ---- Runs without failures ----

  /** Ports keep running, sends succeed, and a broadcast has somewhere to go. */
  predicate Clean(step: Step, n: nat) {
    && !step.Finish?
    && (step.Send? ==> step.ok)
    && (step.Process? && step.outcome.Flood? ==> n >= 2)
  }

  /** Counts are exact, and a message without handles has been freed. */
  ghost predicate ExactAt(s: State, p: Ptr)
    requires Shape(s)
  {
    && (Handles(s, p) > 0 ==> p in s.msgs && s.msgs[p].shared && Handles(s, p) == Budget(s.msgs[p].refCount))
    && (p in s.msgs && s.msgs[p].shared ==> Handles(s, p) > 0)
    && (Owners(s, p) > 0 ==> p in s.msgs && !s.msgs[p].shared)
  }

  ghost predicate Exact(s: State) {
    Shape(s) && (forall i :: 0 <= i < |s.finished| ==> !s.finished[i]) && (forall p :: ExactAt(s, p))
  }

  /** How often transmission t has been queued to port j by now. */
  function Expected(s: State, t: nat, j: nat): nat
    requires t < |s.sent|
  {
    if Wanted(s.sent[t], j) && !(s.main.Sending? && s.main.tag == t && s.main.next <= j) then 1 else 0
  }

  ghost predicate DeliversAt(s: State, j: nat)
    requires Shape(s) && j < |s.boxes|
  {
    && (forall t: nat :: t < |s.sent| ==> multiset(s.delivered[j])[t] == Expected(s, t, j))
    && (forall t: nat :: t >= |s.sent| ==> multiset(s.delivered[j])[t] == 0)
    && |s.delivered[j]| == s.taken[j] + |s.boxes[j]|
  }

  ghost predicate Delivers(s: State) {
    && Shape(s)
    && (s.main.Sending? ==> s.main.tag < |s.sent| && s.sent[s.main.tag] == s.main.kind)
    && (forall j: nat :: j < |s.boxes| ==> DeliversAt(s, j))
  }

  lemma SameCounts(s: State, s': State)
    requires Exact(s) && Shape(s') && s'.msgs == s.msgs && s'.finished == s.finished
    requires forall p :: Owners(s', p) == Owners(s, p) && Handles(s', p) == Handles(s, p)
    ensures Exact(s')
  {
    forall p ensures ExactAt(s', p) {
      assert ExactAt(s, p);
    }
  }

  lemma OwnerGone(s: State, s': State, p: Ptr)
    requires Inv(s) && Exact(s) && Shape(s') && s'.finished == s.finished
    requires Owners(s, p) == 1 && p in s.msgs
    requires s'.msgs == s.msgs || s'.msgs == s.msgs - {p}
    requires forall q :: Owners(s', q) == (if q == p then 0 else Owners(s, q)) && Handles(s', q) == Handles(s, q)
    ensures Exact(s')
  {
    assert PtrOk(s, p);
    forall q ensures ExactAt(s', q) {
      assert ExactAt(s, q) && ExactAt(s, p);
    }
  }

  lemma BeginIsExact(s: State, s0: State, q: Ptr, b: Ptr, kind: Kind)
    requires Inv(s) && Exact(s) && q !in s.msgs && s.main.Idle? && |s.boxes| <= 256
    requires kind.ToOne? ==> kind.dest < |s.boxes|
    requires kind.ToAllBut? ==> kind.origin < |s.boxes| && |s.boxes| >= 2
    requires q in s0.msgs && s0 == s.(msgs := s.msgs[q := s0.msgs[q]])
    ensures Exact(Begin(s0, q, b, kind))
  {
    var s' := Begin(s0, q, b, kind);
    assert PtrOk(s, q);
    forall p ensures ExactAt(s', p) {
      assert ExactAt(s, p);
    }
  }

  lemma ProcessIsExact(s: State, outcome: Outcome, q: Ptr, b: Ptr)
    requires Inv(s) && Exact(s) && Enabled(s, Process(outcome, q, b)) && |s.boxes| <= 256
    requires Clean(Process(outcome, q, b), |s.boxes|)
    ensures Exact(ProcessMessage(s, outcome, q, b))
  {
    hide PortsOwn, PortsShare, BoxOwns, OwnBuffers;
    var s' := ProcessMessage(s, outcome, q, b);
    var p := s.main.p;
    assert PtrOk(s, p) && Used(s, p) && ExactAt(s, p);
    var idle := s.(main := Idle);
    Shrinks(s, idle);
    OwnerGone(s, idle, p);
    var freed := idle.(msgs := s.msgs - {p}, bufs := s.bufs - {s.msgs[p].pdu});
    Frees(s, freed, p);
    OwnerGone(s, freed, p);
    var copied := idle.(msgs := s.msgs[q := s.msgs[p]]);
    assert copied.msgs - {p} == freed.msgs[q := s.msgs[p]];
    match outcome
    case NoMemory =>
    case NoReply => LeakIsExact(freed, s', q, s.msgs[p]);
    case Invalid =>
      assert copied.msgs - {q} == freed.msgs[p := s.msgs[p]];
      LeakIsExact(freed, s', p, s.msgs[p]);
    case Reply => BeginIsExact(idle, copied, q, b, ToOne(s.main.origin));
    case Search => BeginIsExact(idle, copied, q, b, ToAll);
    case Forward(d) => BeginIsExact(freed, FreeData(copied, p), q, b, ToOne(d));
    case Flood => BeginIsExact(freed, FreeData(copied, p), q, b, ToAllBut(s.main.origin));
  }

  lemma LeakIsExact(s: State, s': State, q: Ptr, m: MsgData)
    requires Inv(s) && Exact(s) && q !in s.msgs && !m.shared && s' == s.(msgs := s.msgs[q := m])
    ensures Exact(s')
  {
    assert PtrOk(s, q);
    forall p ensures ExactAt(s', p) {
      assert ExactAt(s, p);
    }
  }

  lemma ReceiveIsExact(s: State, i: nat, p: Ptr, b: Ptr, junk: int)
    requires Inv(s) && Exact(s) && Enabled(s, Receive(i, p, b, junk))
    ensures Exact(Apply(s, Receive(i, p, b, junk)))
  {
    var s' := Apply(s, Receive(i, p, b, junk));
    PhaseUpdate(s, i, Producing(p));
    assert PtrOk(s, p);
    forall q ensures ExactAt(s', q) {
      assert ExactAt(s, q);
    }
  }

  lemma PostIsExact(s: State, i: nat, ok: bool)
    requires Inv(s) && Exact(s) && Enabled(s, Post(i, ok))
    ensures Exact(Apply(s, Post(i, ok)))
  {
    var s' := Apply(s, Post(i, ok));
    var p := s.phases[i].p;
    PhaseUpdate(s, i, Ready);
    PortIsCounted(s.boxes, s.phases, i, |s.boxes|, p);
    assert PtrOk(s, p) && Used(s, p);
    if ok {
      forall q ensures BoxOwns(s'.mainBox, q) == BoxOwns(s.mainBox, q) + if p == q then 1 else 0 {
        BoxAppend(s.mainBox, Inbound(p, i), q);
      }
      SameCounts(s, s');
    } else {
      OwnerGone(s, s', p);
    }
  }

  lemma TakeIsExact(s: State, step: Step)
    requires Inv(s) && Exact(s) && Enabled(s, step) && (step.Fetch? || step.Transmit?)
    ensures Exact(Apply(s, step))
  {
    var i := step.port;
    if step.Fetch? {
      var box := s.boxes[i];
      assert box == [box[0]] + box[1..];
      PortUpdate(s, i, box[1..], Fetched(box[0]));
    } else {
      var p := s.phases[i].p;
      PortIsCounted(s.boxes, s.phases, i, |s.boxes|, p);
      assert PtrOk(s, p) && Used(s, p);
      PhaseUpdate(s, i, Sent(p));
    }
    SameCounts(s, Apply(s, step));
  }

  lemma {:induction false} ReleaseIsExact(s: State, s': State, p: Ptr)
    requires Inv(s) && Exact(s) && Handles(s, p) > 0 && Shape(s') && s'.finished == s.finished
    requires s'.msgs == CheckData(s, p).msgs
    requires forall q :: Owners(s', q) == Owners(s, q) && Handles(s', q) == Handles(s, q) - if q == p then 1 else 0
    ensures Exact(s')
    ensures p !in s'.msgs <==> Handles(s, p) == 1
  {
    assert PtrOk(s, p) && ExactAt(s, p) && Used(s, p);
    var count := (s.msgs[p].refCount - 1) % 256;
    if count == 0 {
      assert s.msgs[p].refCount == 1;
      assert s'.msgs == s.msgs - {p};
    } else {
      assert s'.msgs == s.msgs[p := s.msgs[p].(refCount := count)];
    }
    forall q ensures ExactAt(s', q) {
      assert ExactAt(s, q);
    }
  }

  /** The last port to finish with a message is the one that frees it. */
  lemma {:induction false} LastReleaseFrees(s: State, i: nat)
    requires Inv(s) && Exact(s) && Enabled(s, Release(i))
    ensures var p := s.phases[i].p; var s' := Apply(s, Release(i));
      && (p !in s'.msgs <==> Handles(s, p) == 1)
      && Handles(s', p) == Handles(s, p) - 1
      && Exact(s')
  {
    hide PortsOwn, PortsShare, BoxOwns, PtrOk, ExactAt, OwnBuffers;
    var p := s.phases[i].p;
    PortIsCounted(s.boxes, s.phases, i, |s.boxes|, p);
    PhaseUpdate(s, i, Ready);
    ReleaseIsExact(s, Apply(s, Release(i)), p);
  }

  lemma {:induction false} StepIsExact(s: State, step: Step)
    requires Inv(s) && Exact(s) && Clean(step, |s.boxes|) && |s.boxes| <= 256
    ensures Exact(Next(s, step))
  {
    if Enabled(s, step) {
      match step
      case Release(i) => LastReleaseFrees(s, i);
      case Process(outcome, q, b) => ProcessIsExact(s, outcome, q, b);
      case Send(ok) => SendMoves(s, ok); SameCounts(s, SendNext(s, ok));
      case Dequeue => SameCounts(s, Apply(s, step));
      case Receive(i, p, b, junk) => ReceiveIsExact(s, i, p, b, junk);
      case Post(i, ok) => PostIsExact(s, i, ok);
      case _ => TakeIsExact(s, step);
    }
  }

  // ---- Deliveries ----

  lemma QueuedCount(box: seq<nat>, t: nat, u: nat)
    ensures multiset(box + [t])[u] == multiset(box)[u] + if t == u then 1 else 0
  {}

  lemma SendDeliversAt(s: State, j: nat)
    requires Exact(s) && Delivers(s) && s.main.Sending? && j < |s.boxes| && Shape(SendNext(s, true))
    ensures DeliversAt(SendNext(s, true), j)
  {
    hide ExactAt;
    assert DeliversAt(s, j);
    var s', tag := SendNext(s, true), s.main.tag;
    if j == s.main.next && Wanted(s.main.kind, j) {
      assert s'.delivered[j] == s.delivered[j] + [tag];
      forall t: nat ensures multiset(s'.delivered[j])[t] == multiset(s.delivered[j])[t] + if tag == t then 1 else 0 {
        QueuedCount(s.delivered[j], tag, t);
      }
    } else {
      assert s'.delivered[j] == s.delivered[j] && s'.boxes[j] == s.boxes[j];
    }
  }

  lemma SendDelivers(s: State)
    requires Exact(s) && Delivers(s) && s.main.Sending?
    ensures Delivers(SendNext(s, true))
  {
    hide ExactAt, DeliversAt;
    forall j: nat | j < |s.boxes| ensures DeliversAt(SendNext(s, true), j) {
      SendDeliversAt(s, j);
    }
  }

  lemma BeginDelivers(s: State, s0: State, q: Ptr, b: Ptr, kind: Kind)
    requires Delivers(s) && !s.main.Sending?
    requires s0.sent == s.sent && s0.delivered == s.delivered && s0.taken == s.taken && s0.boxes == s.boxes
    requires kind.ToOne? ==> kind.dest < |s.boxes|
    requires Shape(Begin(s0, q, b, kind))
    ensures Delivers(Begin(s0, q, b, kind))
  {
    var s' := Begin(s0, q, b, kind);
    forall j: nat | j < |s.boxes| ensures DeliversAt(s', j) {
      assert DeliversAt(s, j);
      assert multiset(s.delivered[j])[|s.sent|] == 0;
    }
  }

  lemma SameDeliveries(s: State, s': State)
    requires Delivers(s) && Shape(s') && s'.sent == s.sent && s'.delivered == s.delivered
    requires s'.main == s.main || (!s'.main.Sending? && !s.main.Sending?)
    requires forall j :: 0 <= j < |s.boxes| ==> s'.taken[j] + |s'.boxes[j]| == s.taken[j] + |s.boxes[j]|
    ensures Delivers(s')
  {
    forall j: nat | j < |s.boxes| ensures DeliversAt(s', j) {
      assert DeliversAt(s, j);
    }
  }

  lemma {:induction false} ProcessDelivers(s: State, outcome: Outcome, q: Ptr, b: Ptr)
    requires Inv(s) && Delivers(s) && Enabled(s, Process(outcome, q, b)) && |s.boxes| <= 256
    ensures Delivers(ProcessMessage(s, outcome, q, b))
  {
    ProcessStep(s, outcome, q, b);
    var s' := ProcessMessage(s, outcome, q, b);
    if s'.main.Sending? {
      var copied := s.(main := Idle, msgs := s.msgs[q := s.msgs[s.main.p]]);
      var s0 := if outcome.Reply? || outcome.Search? then copied else FreeData(copied, s.main.p);
      BeginDelivers(s, s0, q, b, s'.main.kind);
    } else {
      SameDeliveries(s, s');
    }
  }

  lemma {:induction false} StepDelivers(s: State, step: Step)
    requires Inv(s) && Exact(s) && Delivers(s) && Clean(step, |s.boxes|) && |s.boxes| <= 256
    ensures Delivers(Next(s, step))
  {
    if Enabled(s, step) {
      StepKeepsInv(s, step);
      if step.Send? {
        SendDelivers(s);
      } else if step.Process? {
        ProcessDelivers(s, step.outcome, step.q, step.b);
      } else {
        SameDeliveries(s, Apply(s, step));
      }
    }
  }

  lemma {:induction false} RunIsExact(s: State, steps: seq<Step>)
    requires Inv(s) && Exact(s) && Delivers(s) && |s.boxes| <= 256
    requires forall step <- steps :: Clean(step, |s.boxes|)
    ensures Exact(Run(s, steps)) && Delivers(Run(s, steps))
    decreases |steps|
  {
    if steps == [] {
    } else {
      var step := steps[0];
      StepKeepsInv(s, step);
      StepIsExact(s, step);
      StepDelivers(s, step);
      RunIsExact(Next(s, step), steps[1..]);
    }
  }

  lemma BootIsExact(n: nat)
    requires 0 < n <= 256
    ensures Exact(Boot(n)) && Delivers(Boot(n))
  {
    var s := Boot(n);
    forall p ensures ExactAt(s, p) {
      NobodyAtStart(n, n, p);
    }
    forall j: nat | j < n ensures DeliversAt(s, j) {}
  }

  /** Without failures the count of a transmission always equals its handles,
      every transmission is queued once to each port it is for and never to
      another (a flood to every port but its origin), and a transmission that
      nobody can reach any more has been freed. */
  lemma {:induction false} CleanRunsDeliverOnce(n: nat, steps: seq<Step>, t: nat, j: nat, p: Ptr)
    requires 0 < n <= 256 && j < n
    requires forall step <- steps :: Clean(step, n)
    ensures var s := Run(Boot(n), steps);
      && Shape(s)
      && |s.boxes| == n
      && (t < |s.sent| ==> multiset(s.delivered[j])[t] == Expected(s, t, j))
      && (t < |s.sent| && s.main.Idle? ==> multiset(s.delivered[j])[t] == if Wanted(s.sent[t], j) then 1 else 0)
      && |s.delivered[j]| == s.taken[j] + |s.boxes[j]|
      && (p in s.msgs && s.msgs[p].shared ==> Handles(s, p) == Budget(s.msgs[p].refCount) > 0)
  {
    BootKeepsInv(n);
    BootIsExact(n);
    RunKeepsInv(Boot(n), steps);
    RunIsExact(Boot(n), steps);
    var s := Run(Boot(n), steps);
    assert DeliversAt(s, j) && ExactAt(s, p);
  }

  /** With a single port a flood has no receiver: its message is never freed.
      With two or more ports the count is exact from the start. */
  lemma FloodIsExactIffTwoPorts(s: State, q: Ptr, b: Ptr)
    requires Inv(s) && Exact(s) && Enabled(s, Process(Flood, q, b)) && |s.boxes| <= 256
    ensures Exact(ProcessMessage(s, Flood, q, b)) <==> |s.boxes| >= 2
  {
    if |s.boxes| >= 2 {
      ProcessIsExact(s, Flood, q, b);
    } else {
      ProcessStep(s, Flood, q, b);
      var s' := ProcessMessage(s, Flood, q, b);
      assert PtrOk(s, s.main.p) && Used(s, s.main.p);
      assert PtrOk(s, q);
      assert !ExactAt(s', q);
    }
  }
}
