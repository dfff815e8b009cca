/** The BACnet/IP to MS/TP router (apps/router): shared messages between threads.

  The main thread and one thread per port exchange pointers to MSG_DATA through
  mailboxes.  A transmitted message is shared by several ports; its reference
  count is set before the fan-out and decremented by every receiver.  The
  threads are modelled as an interleaved step system over an explicit heap, in
  which touching or freeing memory that is not live is a fault.
*/
module RouterMessages {

  /** Addresses, of structures and of octet buffers.  Freed ones may be reused. */
  type Ptr = nat

  /** MSG_DATA.  `refCount` is a uint8_t; `shared` says that it has been set. */
  datatype MsgData = MsgData(pdu: Ptr, refCount: int, shared: bool)

  /** Where a port thread is in its loop. */
  datatype Phase =
    | Ready
    | Producing(p: Ptr) // built a message from the wire, not yet posted
    | Fetched(p: Ptr)   // took a message from its mailbox
    | Sent(p: Ptr)      // put it on the wire, has yet to call check_data

  /** Which mailboxes a transmission is for. */
  datatype Kind = ToOne(dest: nat) | ToAllBut(origin: nat) | ToAll

  /** Where the main thread is in its loop. */
  datatype MainPhase =
    | Idle
    | Got(p: Ptr, origin: nat)
    | Sending(p: Ptr, tag: nat, kind: Kind, next: nat)

  datatype Inbound = Inbound(p: Ptr, origin: nat)

  /** The ports are the indices of `boxes`.  `sent` and `delivered` record the
      run: transmission t was of kind sent[t], delivered[j] lists the
      transmissions queued to port j, and port j has taken taken[j] of them. */
  datatype State = State(
    msgs: map<Ptr, MsgData>,
    bufs: set<Ptr>,
    mainBox: seq<Inbound>,
    boxes: seq<seq<Ptr>>,
    phases: seq<Phase>,
    finished: seq<bool>,
    main: MainPhase,
    fault: bool,
    sent: seq<Kind>,
    delivered: seq<seq<nat>>,
    taken: seq<nat>)

  /** What the main thread makes of a received message. */
  datatype Outcome =
    | NoMemory           // malloc of the new message failed
    | NoReply            // network message without an answer
    | Invalid            // message to be discarded
    | Reply              // network message answered to its origin
    | Search             // unknown network: ask on every port
    | Forward(dest: nat) // routed to the one port that leads to DNET
    | Flood              // global broadcast

  datatype Step =
    | Receive(port: nat, p: Ptr, b: Ptr, junk: int)
    | Post(port: nat, ok: bool)
    | Fetch(port: nat)
    | Transmit(port: nat)
    | Release(port: nat)
    | Finish(port: nat)
    | Dequeue
    | Process(outcome: Outcome, q: Ptr, b: Ptr)
    | Send(ok: bool)

  // ---- Heap operations ----

  predicate Alive(s: State, p: Ptr) {
    p in s.msgs && s.msgs[p].pdu in s.bufs
  }

  function Touch(s: State, p: Ptr): State {
    if Alive(s, p) then s else s.(fault := true)
  }

  function FreeData(s: State, p: Ptr): State {
    if Alive(s, p)
    then s.(msgs := s.msgs - {p}, bufs := s.bufs - {s.msgs[p].pdu})
    else s.(fault := true)
  }

  function CheckData(s: State, p: Ptr): State {
    if p !in s.msgs then s.(fault := true)
    else
      var count := (s.msgs[p].refCount - 1) % 256;
      var s' := s.(msgs := s.msgs[p := s.msgs[p].(refCount := count)]);
      if count == 0 then FreeData(s', p) else s'
  }

  // ---- The fan-out ----

  predicate Wanted(kind: Kind, j: nat) {
    match kind
    case ToOne(d) => j == d
    case ToAllBut(o) => j != o
    case ToAll => true
  }

  function First(kind: Kind): nat {
    if kind.ToOne? then kind.dest else 0
  }

  predicate Last(kind: Kind, j: nat, n: nat) {
    kind.ToOne? || j + 1 >= n
  }

  /** The value the main thread assigns to ref_count, a uint8_t. */
  function InitialCount(kind: Kind, n: nat): int {
    match kind
    case ToOne(_) => 1
    case ToAllBut(_) => (n - 1) % 256
    case ToAll => n % 256
  }

  /** A uint8_t count of 0 survives 256 decrements before it reads 0 again. */
  function Budget(refCount: int): int {
    if refCount == 0 then 256 else refCount
  }

  /** Stores the buffer and the count in message q and starts its send loop. */
  function Begin(s: State, q: Ptr, b: Ptr, kind: Kind): State {
    s.(msgs := s.msgs[q := MsgData(b, InitialCount(kind, |s.boxes|), true)],
       bufs := s.bufs + {b},
       main := Sending(q, |s.sent|, kind, First(kind)),
       sent := s.sent + [kind])
  }

  function SendNext(s: State, ok: bool): State
    requires s.main.Sending? && s.main.next < |s.boxes|
    requires |s.finished| == |s.boxes| == |s.delivered|
  {
    var Sending(p, tag, kind, j) := s.main;
    var skip := !kind.ToOne? && (!Wanted(kind, j) || s.finished[j]);
    var s' := if skip || !ok then s
              else s.(boxes := s.boxes[j := s.boxes[j] + [p]],
                      delivered := s.delivered[j := s.delivered[j] + [tag]]);
    s'.(main := if Last(kind, j, |s.boxes|) then Idle else Sending(p, tag, kind, j + 1))
  }

  // ---- Steps ----

  predicate Shape(s: State) {
    && 0 < |s.boxes| == |s.phases| == |s.finished| == |s.delivered| == |s.taken|
    && (forall m <- s.mainBox :: m.origin < |s.boxes|)
    && (s.main.Got? ==> s.main.origin < |s.boxes|)
    && (s.main.Sending? ==>
          && s.main.next < |s.boxes|
          && (s.main.kind.ToOne? ==> s.main.next == s.main.kind.dest)
          && (s.main.kind.ToAllBut? ==> s.main.kind.origin < |s.boxes|))
  }

  predicate FreshPair(s: State, p: Ptr, b: Ptr) {
    p !in s.msgs && b !in s.bufs
  }

  predicate Enabled(s: State, step: Step)
    requires Shape(s)
  {
    match step
    case Receive(i, p, b, junk) =>
      i < |s.boxes| && s.phases[i].Ready? && !s.finished[i] && FreshPair(s, p, b) && 0 <= junk < 256
    case Post(i, _) => i < |s.boxes| && s.phases[i].Producing?
    case Fetch(i) => i < |s.boxes| && s.phases[i].Ready? && !s.finished[i] && s.boxes[i] != []
    case Transmit(i) => i < |s.boxes| && s.phases[i].Fetched?
    case Release(i) => i < |s.boxes| && s.phases[i].Sent?
    case Finish(i) => i < |s.boxes| && s.phases[i].Ready?
    case Dequeue => s.main.Idle? && s.mainBox != []
    case Process(outcome, q, b) =>
      s.main.Got? && FreshPair(s, q, b) && (outcome.Forward? ==> outcome.dest < |s.boxes|)
    case Send(_) => s.main.Sending?
  }

  function SetPhase(s: State, i: nat, ph: Phase): State
    requires i < |s.phases|
  {
    s.(phases := s.phases[i := ph])
  }

  /** main.c:121-192.  The new message q starts as a byte copy of the received
      one, so until its own buffer is stored q->pdu is the received buffer. */
  function ProcessMessage(s: State, outcome: Outcome, q: Ptr, b: Ptr): State
    requires s.main.Got?
  {
    var Got(p, origin) := s.main;
    if !Alive(s, p) then s.(fault := true)
    else
      var idle := s.(main := Idle);
      var copied := idle.(msgs := s.msgs[q := s.msgs[p]]);
      match outcome
      case NoMemory => idle
      case NoReply => FreeData(copied, p)
      case Invalid => FreeData(copied, q)
      case Reply => Begin(copied, q, b, ToOne(origin))
      case Search => Begin(copied, q, b, ToAll)
      case Forward(d) => Begin(FreeData(copied, p), q, b, ToOne(d))
      case Flood => Begin(FreeData(copied, p), q, b, ToAllBut(origin))
  }

  function Apply(s: State, step: Step): State
    requires Shape(s) && Enabled(s, step)
  {
    match step
    case Receive(i, p, b, junk) =>
      SetPhase(s.(msgs := s.msgs[p := MsgData(b, junk, false)], bufs := s.bufs + {b}), i, Producing(p))
    case Post(i, ok) =>
      var p := s.phases[i].p;
      var s' := SetPhase(s, i, Ready);
      if ok then s'.(mainBox := s.mainBox + [Inbound(p, i)]) else FreeData(s', p)
    case Fetch(i) =>
      SetPhase(s.(boxes := s.boxes[i := s.boxes[i][1..]], taken := s.taken[i := s.taken[i] + 1]),
               i, Fetched(s.boxes[i][0]))
    case Transmit(i) => SetPhase(Touch(s, s.phases[i].p), i, Sent(s.phases[i].p))
    case Release(i) => SetPhase(CheckData(s, s.phases[i].p), i, Ready)
    case Finish(i) => s.(finished := s.finished[i := true])
    case Dequeue =>
      s.(mainBox := s.mainBox[1..], main := Got(s.mainBox[0].p, s.mainBox[0].origin))
    case Process(outcome, q, b) => ProcessMessage(s, outcome, q, b)
    case Send(ok) => SendNext(s, ok)
  }

  /** A step that is not enabled, or comes after a fault, changes nothing. */
  function Next(s: State, step: Step): State {
    if !s.fault && Shape(s) && Enabled(s, step) then Apply(s, step) else s
  }

  function Run(s: State, steps: seq<Step>): State
    decreases |steps|
  {
    if steps == [] then s else Run(Next(s, steps[0]), steps[1..])
  }

  function Empty(n: nat): State {
    State(map[], {}, [], seq(n, _ => []), seq(n, _ => Ready), seq(n, _ => false),
          Idle, false, [], seq(n, _ => []), seq(n, _ => 0))
  }

  /** main() first announces itself on every port (main.c:106-107). */
  function Boot(n: nat): State {
    Begin(Empty(n), 0, 0, ToAll)
  }

  // ---- Handles: who may still reach a message ----

  function Copies(box: seq<Ptr>, p: Ptr): nat {
    multiset(box)[p]
  }

  function OwnedBy(ph: Phase, p: Ptr): nat {
    if ph.Producing? && ph.p == p then 1 else 0
  }

  function HeldBy(ph: Phase, p: Ptr): nat {
    if (ph.Fetched? || ph.Sent?) && ph.p == p then 1 else 0
  }

  /** Messages p that the first k ports are about to post. */
  function PortsOwn(phases: seq<Phase>, k: nat, p: Ptr): nat
    requires k <= |phases|
  {
    if k == 0 then 0 else PortsOwn(phases, k - 1, p) + OwnedBy(phases[k - 1], p)
  }

  /** Copies of p in the mailboxes and the hands of the first k ports. */
  function PortsShare(boxes: seq<seq<Ptr>>, phases: seq<Phase>, k: nat, p: Ptr): nat
    requires k <= |boxes| == |phases|
  {
    if k == 0 then 0
    else PortsShare(boxes, phases, k - 1, p) + Copies(boxes[k - 1], p) + HeldBy(phases[k - 1], p)
  }

  function BoxOwns(box: seq<Inbound>, p: Ptr): nat {
    if box == [] then 0 else (if box[0].p == p then 1 else 0) + BoxOwns(box[1..], p)
  }

  /** Sends the fan-out loop has still to do. */
  function PendingCount(kind: Kind, next: nat, n: nat): nat
    requires next <= n
  {
    match kind
    case ToOne(d) => 1
    case ToAllBut(o) => n - next - (if next <= o < n then 1 else 0)
    case ToAll => n - next
  }

  function MainOwns(main: MainPhase, p: Ptr): nat {
    if main.Got? && main.p == p then 1 else 0
  }

  function Pending(s: State, p: Ptr): nat
    requires Shape(s)
  {
    if s.main.Sending? && s.main.p == p then PendingCount(s.main.kind, s.main.next, |s.boxes|) else 0
  }

  /** A received message has exactly one owner on its way in. */
  function Owners(s: State, p: Ptr): nat {
    PortsOwn(s.phases, |s.phases|, p) + BoxOwns(s.mainBox, p) + MainOwns(s.main, p)
  }

  /** Handles on a transmitted message: queued copies, copies held by port
      threads, and sends still to do. */
  function Handles(s: State, p: Ptr): nat
    requires Shape(s)
  {
    PortsShare(s.boxes, s.phases, |s.boxes|, p) + Pending(s, p)
  }

  // ---- What every step keeps ----

  predicate Used(s: State, p: Ptr)
    requires Shape(s)
  {
    Owners(s, p) > 0 || Handles(s, p) > 0
  }

  /** One owner or handles covered by the count, and live memory behind them. */
  ghost predicate PtrOk(s: State, p: Ptr)
    requires Shape(s)
  {
    && (Owners(s, p) > 0 ==> Owners(s, p) == 1 && Handles(s, p) == 0)
    && (Used(s, p) ==> Alive(s, p))
    && (Handles(s, p) > 0 ==>
          0 <= s.msgs[p].refCount < 256 && Handles(s, p) <= Budget(s.msgs[p].refCount))
  }

  ghost predicate OwnBuffers(s: State)
    requires Shape(s)
  {
    forall p, q :: Used(s, p) && Used(s, q) && p in s.msgs && q in s.msgs && p != q
                   ==> s.msgs[p].pdu != s.msgs[q].pdu
  }

  ghost predicate Inv(s: State) {
    Shape(s) && !s.fault && (forall p :: PtrOk(s, p)) && OwnBuffers(s)
  }
}
