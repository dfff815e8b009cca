/** The Rust crate's hand-off between the reply handlers and read_prop_at: a
    global map of devices with a pending request and a value each, behind a lock
    that a panic of its holder poisons. */
module ReadProperty {
  import opened Octets

  type DeviceId = uint32

  /** The significant octets of a BACNET_ADDRESS. */
  datatype Address = Address(mac: seq<byte>, net: uint16, adr: seq<byte>)

  /** `Value` stands for BACnetValue, `Problem` for BACnetErr. */
  datatype Value = Value(octets: seq<byte>)
  datatype Problem = Rejected(code: byte) | Aborted(code: byte) | Failed(errorClass: nat, errorCode: nat)

  datatype Error =
    | FailedToDecodeData | DecodingError | UnhandledTypeTag(tag: byte)
    | NoValueWasExtracted | NotConnectedToDevice | TsmTimeout | ApduTimeout
    | BacnetError(problem: Problem)

  datatype Result = Ok(value: Value) | Err(error: Error)

  /** What the acknowledgement handler can make of a reply. */
  type Decoded = r: Result | r.Ok? || r.error.FailedToDecodeData? || r.error.DecodingError? || r.error.UnhandledTypeTag?
    witness Err(FailedToDecodeData)

  datatype RequestStatus = Ongoing | Done | Error(problem: Problem)
  datatype Request = Request(id: byte, status: RequestStatus)
  datatype TargetDevice = TargetDevice(addr: Address, request: Option<Request>, value: Option<Result>)
  type Devices = map<DeviceId, TargetDevice>

  /** A reply from the network, with what decoding made of an acknowledgement. */
  datatype Reply =
    | Ack(src: Address, id: byte, decoded: Decoded)
    | Refusal(src: Address, id: byte, problem: Problem)

  /** address_match: the remote address counts only on a remote network. */
  predicate AddressMatch(a: Address, b: Address) {
    a.mac == b.mac && a.net == b.net && (a.net == 0 || a.adr == b.adr)
  }

  predicate Matches(target: TargetDevice, src: Address, id: byte) {
    AddressMatch(target.addr, src) && target.request.Some? && target.request.value.id == id
  }

  ghost predicate DistinctAddresses(ds: Devices) {
    forall d, e :: d in ds && e in ds && AddressMatch(ds[d].addr, ds[e].addr) ==> d == e
  }

  /** A request that is done has its value in place. */
  ghost predicate DoneHasValue(ds: Devices) {
    forall d :: d in ds && ds[d].request.Some? && ds[d].request.value.status.Done? ==> ds[d].value.Some?
  }

  ghost predicate Inv(ds: Devices) {
    DistinctAddresses(ds) && DoneHasValue(ds)
  }

  /** What a reply makes of the device it matches. */
  function Answered(target: TargetDevice, reply: Reply): TargetDevice {
    match reply
    case Ack(_, id, decoded) => target.(value := Some(decoded), request := Some(Request(id, Done)))
    case Refusal(_, id, problem) => target.(request := Some(Request(id, RequestStatus.Error(problem))))
  }

  /** Every device that matches a reply; with distinct addresses at most one. */
  function Handled(ds: Devices, reply: Reply): Devices {
    map d | d in ds :: if Matches(ds[d], reply.src, reply.id) then Answered(ds[d], reply) else ds[d]
  }

  function HandledAll(ds: Devices, replies: seq<Reply>): Devices {
    if replies == [] then ds else Handled(HandledAll(ds, replies[..|replies| - 1]), replies[|replies| - 1])
  }

  /** The start of a call of read_prop_at: the value of earlier calls stays. */
  function Started(ds: Devices, d: DeviceId, id: byte): Devices
    requires d in ds
  {
    ds[d := ds[d].(request := Some(Request(id, Ongoing)))]
  }

  /** The last of the replies that answers the call. */
  function LastAnswer(replies: seq<Reply>, addr: Address, id: byte): Option<Reply> {
    if replies == [] then None
    else
      var last := replies[|replies| - 1];
      if AddressMatch(addr, last.src) && last.id == id then Some(last) else LastAnswer(replies[..|replies| - 1], addr, id)
  }

  /** How read_prop_at ends once the invoke id is free. */
  datatype Outcome = Returned(result: Result) | Panicked

  function Extract(target: TargetDevice): Outcome
    requires target.request.Some?
  {
    match target.request.value.status
    case Done => if target.value.Some? then Returned(target.value.value) else Returned(Err(NoValueWasExtracted))
    case Ongoing => Panicked
    case Error(problem) => Returned(Err(BacnetError(problem)))
  }

  /** The outcome that the replies handled during the call call for. */
  function Deserved(answer: Option<Reply>): Outcome {
    match answer
    case None => Panicked
    case Some(Ack(_, _, decoded)) => Returned(decoded)
    case Some(Refusal(_, _, problem)) => Returned(Err(BacnetError(problem)))
  }

  lemma {:induction false} HandledKeepsInv(ds: Devices, reply: Reply)
    requires Inv(ds)
    ensures Inv(Handled(ds, reply))
  {
    var ds' := Handled(ds, reply);
    forall d | d in ds' ensures ds'[d].addr == ds[d].addr {}
  }

  lemma StartedKeepsInv(ds: Devices, d: DeviceId, id: byte)
    requires Inv(ds) && d in ds
    ensures Inv(Started(ds, d, id))
  {
  }

  /** The device's request follows its last answer, whatever else arrives. */
  lemma {:induction false} RequestFollowsAnswers(ds: Devices, d: DeviceId, id: byte, replies: seq<Reply>)
    requires d in ds
    ensures d in HandledAll(Started(ds, d, id), replies)
    ensures var target := HandledAll(Started(ds, d, id), replies)[d];
      && target.addr == ds[d].addr
      && match LastAnswer(replies, ds[d].addr, id)
         case None => target.request == Some(Request(id, Ongoing)) && target.value == ds[d].value
         case Some(Ack(_, _, decoded)) => target.request == Some(Request(id, Done)) && target.value == Some(decoded)
         case Some(Refusal(_, _, problem)) => target.request == Some(Request(id, RequestStatus.Error(problem)))
  {
    if replies == [] {
    } else {
      RequestFollowsAnswers(ds, d, id, replies[..|replies| - 1]);
    }
  }

  /** A call returns what the last answer to its own request says and nothing
      else: no value left by an earlier call, never NoValueWasExtracted, and a
      panic exactly when the invoke id was freed without any answer to it. */
  lemma CallReturnsItsAnswer(ds: Devices, d: DeviceId, id: byte, replies: seq<Reply>)
    requires d in ds
    ensures var ds' := HandledAll(Started(ds, d, id), replies);
            var answer := LastAnswer(replies, ds[d].addr, id);
      && d in ds' && ds'[d].request.Some?
      && Extract(ds'[d]) == Deserved(answer)
      && (Extract(ds'[d]) == Panicked <==> answer.None?)
      && Extract(ds'[d]) != Returned(Err(NoValueWasExtracted))
      && (forall v :: Extract(ds'[d]) == Returned(Ok(v)) ==>
            answer.Some? && answer.value.Ack? && answer.value.decoded == Ok(v)
            && answer.value in replies && AddressMatch(ds[d].addr, answer.value.src) && answer.value.id == id)
  {
    RequestFollowsAnswers(ds, d, id, replies);
    LastAnswerIsReply(replies, ds[d].addr, id);
  }

  lemma {:induction false} LastAnswerIsReply(replies: seq<Reply>, addr: Address, id: byte)
    ensures var answer := LastAnswer(replies, addr, id);
      answer.Some? ==> answer.value in replies && AddressMatch(addr, answer.value.src) && answer.value.id == id
  {
    if replies == [] {
    } else {
      LastAnswerIsReply(replies[..|replies| - 1], addr, id);
    }
  }

  // ---- The map in place ----

  /** After a turn of the loop, the state of the invoke id, or the clock. */
  datatype Turn = Turn(reply: Option<Reply>, state: IdState)
  datatype IdState = Free | Busy | GivenUp | TooLate

  function Replies(turns: seq<Turn>): seq<Reply> {
    if turns == [] then []
    else
      var before := Replies(turns[..|turns| - 1]);
      if turns[|turns| - 1].reply.Some? then before + [turns[|turns| - 1].reply.value] else before
  }

  /** The turn with which the loop ends, if it does. */
  function EndOf(turns: seq<Turn>): (k: nat)
    ensures k <= |turns|
    ensures k < |turns| ==> !turns[k].state.Busy?
    ensures forall j :: 0 <= j < k ==> turns[j].state.Busy?
  {
    if turns == [] || !turns[0].state.Busy? then 0 else 1 + EndOf(turns[1..])
  }

  // ---- Calls, one after the other ----

  /** TARGET_ADDRESSES: whoever locks it after a panic under the lock panics too. */
  datatype Memory = Memory(devices: Devices, poisoned: bool)

  /** The request is taken, and the value if the request is done. */
  function Taken(target: TargetDevice): TargetDevice {
    var done := target.request.Some? && target.request.value.status.Done?;
    target.(request := None, value := if done then None else target.value)
  }

  /** The turns of the loop that take place. */
  function Played(turns: seq<Turn>): seq<Turn> {
    turns[..if EndOf(turns) < |turns| then EndOf(turns) + 1 else |turns|]
  }

  predicate EndsFree(turns: seq<Turn>) {
    EndOf(turns) < |turns| && turns[EndOf(turns)].state.Free?
  }

  function AfterCall(m: Memory, d: DeviceId, id: byte, turns: seq<Turn>): Memory {
    if m.poisoned || d !in m.devices then m
    else
      var during := HandledAll(Started(m.devices, d, id), Replies(Played(turns)));
      if !EndsFree(turns) || d !in during || during[d].request.None? then m.(devices := during)
      else Memory(during[d := Taken(during[d])], Extract(during[d]).Panicked?)
  }

  /** How a call for a device with this address ends, if it does. */
  function CallResult(addr: Address, id: byte, turns: seq<Turn>): Option<Outcome> {
    if EndOf(turns) == |turns| then None // still waiting
    else
      match turns[EndOf(turns)].state
      case GivenUp => Some(Returned(Err(TsmTimeout)))
      case TooLate => Some(Returned(Err(ApduTimeout)))
      case _ => Some(Deserved(LastAnswer(Replies(Played(turns)), addr, id)))
  }

  function ResultOf(m: Memory, d: DeviceId, id: byte, turns: seq<Turn>): Option<Outcome> {
    if m.poisoned then Some(Panicked)
    else if d !in m.devices then Some(Returned(Err(NotConnectedToDevice)))
    else CallResult(m.devices[d].addr, id, turns)
  }

  /** The value of the last acknowledgement that matches. */
  function LastValue(replies: seq<Reply>, addr: Address, id: byte): Option<Decoded> {
    if replies == [] then None
    else
      var last := replies[|replies| - 1];
      if last.Ack? && AddressMatch(addr, last.src) && last.id == id then Some(last.decoded)
      else LastValue(replies[..|replies| - 1], addr, id)
  }

  /** The status that the last answer to a request leaves. */
  function StatusBy(answer: Option<Reply>, before: RequestStatus): RequestStatus {
    match answer
    case None => before
    case Some(Ack(_, _, _)) => Done
    case Some(Refusal(_, _, problem)) => RequestStatus.Error(problem)
  }

  /** A device while replies come in: its address stays; without a request so does
      everything; with one, the answers to it decide. */
  lemma {:induction false} DeviceFollowsAnswers(ds: Devices, e: DeviceId, replies: seq<Reply>)
    requires e in ds
    ensures HandledAll(ds, replies).Keys == ds.Keys
    ensures var target := HandledAll(ds, replies)[e];
      match ds[e].request
      case None => target == ds[e]
      case Some(request) =>
        && target.addr == ds[e].addr
        && target.request == Some(Request(request.id, StatusBy(LastAnswer(replies, ds[e].addr, request.id), request.status)))
        && target.value == match LastValue(replies, ds[e].addr, request.id)
                           case Some(decoded) => Some(decoded)
                           case None => ds[e].value
  {
    if replies == [] {
    } else {
      DeviceFollowsAnswers(ds, e, replies[..|replies| - 1]);
    }
  }

  /** What a call leaves behind.  No device comes, goes or changes its address.
      The called one has no request any more once the invoke id is free, and its
      value is gone with it exactly if the last answer brought one; if the call
      gives up, its request stays as the answers left it.  Every other device is
      as the answers to its own request leave it. */
  lemma {:induction false} CallKeepsDevices(m: Memory, d: DeviceId, id: byte, turns: seq<Turn>, e: DeviceId)
    requires !m.poisoned && d in m.devices && e in m.devices
    ensures var m' := AfterCall(m, d, id, turns); var replies := Replies(Played(turns));
      && m'.devices.Keys == m.devices.Keys
      && m'.devices[e].addr == m.devices[e].addr
      && (m'.poisoned <==> EndsFree(turns) && LastAnswer(replies, m.devices[d].addr, id).None?)
      && var before, after := m.devices[e], m'.devices[e];
         var request := if e == d then Some(Request(id, Ongoing)) else before.request;
         if request.None? then after == before
         else
           var answer := LastAnswer(replies, before.addr, request.value.id);
           var value := match LastValue(replies, before.addr, request.value.id)
                        case Some(decoded) => Some(decoded)
                        case None => before.value;
           var status := StatusBy(answer, request.value.status);
           if e == d && EndsFree(turns)
           then after.request == None && after.value == if status.Done? then None else value
           else after.request == Some(Request(request.value.id, status)) && after.value == value
  {
    hide HandledAll, LastAnswer, LastValue, Replies, Played;
    var replies := Replies(Played(turns));
    DeviceFollowsAnswers(Started(m.devices, d, id), e, replies);
    DeviceFollowsAnswers(Started(m.devices, d, id), d, replies);
  }

  /** A device is looked for, and found or not, or one of its properties is read. */
  datatype Use = Bind(d: DeviceId, found: Option<Address>) | Call(d: DeviceId, id: byte, turns: seq<Turn>)

  function AfterUse(m: Memory, u: Use): Memory {
    match u
    case Bind(d, None) => m
    case Bind(d, Some(addr)) => if m.poisoned then m else m.(devices := m.devices[d := TargetDevice(addr, None, None)])
    case Call(d, id, turns) => AfterCall(m, d, id, turns)
  }

  function AfterUses(uses: seq<Use>): Memory {
    if uses == [] then Memory(map[], false) else AfterUse(AfterUses(uses[..|uses| - 1]), uses[|uses| - 1])
  }

  /** The address with which the device was last found. */
  function LastFound(uses: seq<Use>, d: DeviceId): Option<Address> {
    if uses == [] then None
    else
      var last := uses[|uses| - 1];
      if last.Bind? && last.d == d && last.found.Some? then last.found else LastFound(uses[..|uses| - 1], d)
  }

  /** The last use is a call whose invoke id becomes free without an answer. */
  predicate Unanswered(uses: seq<Use>) {
    uses != [] && uses[|uses| - 1].Call?
    && var Call(d, id, turns) := uses[|uses| - 1]; var addr := LastFound(uses[..|uses| - 1], d);
       addr.Some? && EndsFree(turns) && LastAnswer(Replies(Played(turns)), addr.value, id).None?
  }

  predicate EverUnanswered(uses: seq<Use>) {
    uses != [] && (EverUnanswered(uses[..|uses| - 1]) || Unanswered(uses))
  }

  lemma {:induction false} MemoryOfUses(uses: seq<Use>, d: DeviceId)
    ensures var m := AfterUses(uses);
      && (m.poisoned <==> EverUnanswered(uses))
      && (!m.poisoned ==>
            && (d in m.devices <==> LastFound(uses, d).Some?)
            && (d in m.devices ==> LastFound(uses, d) == Some(m.devices[d].addr)))
    decreases |uses|
  {
    hide AfterCall, Unanswered;
    if uses == [] {
    } else {
      var before, last := uses[..|uses| - 1], uses[|uses| - 1];
      var m := AfterUses(before);
      MemoryOfUses(before, d);
      MemoryOfUses(before, last.d);
      if last.Call? && !m.poisoned && last.d in m.devices {
        CallKeepsDevices(m, last.d, last.id, last.turns, last.d);
        if d in m.devices {
          CallKeepsDevices(m, last.d, last.id, last.turns, d);
        }
      }
      LastUse(uses, m);
    }
  }

  /** What the last use does to the lock. */
  lemma LastUse(uses: seq<Use>, m: Memory)
    requires uses != [] && m == AfterUses(uses[..|uses| - 1])
    requires var d := uses[|uses| - 1].d; var addr := LastFound(uses[..|uses| - 1], d);
      !m.poisoned ==> (d in m.devices <==> addr.Some?) && (d in m.devices ==> addr == Some(m.devices[d].addr))
    ensures var m' := AfterUse(m, uses[|uses| - 1]);
      && m'.poisoned == (m.poisoned || Unanswered(uses))
      && (m.poisoned ==> m' == m)
      && (uses[|uses| - 1].Call? && uses[|uses| - 1].d !in m.devices ==> m' == m)
  {
    hide LastAnswer, LastFound, Replies, Played;
    var last := uses[|uses| - 1];
    if last.Call? && !m.poisoned && last.d in m.devices {
      CallKeepsDevices(m, last.d, last.id, last.turns, last.d);
    }
  }

  /** The result of a call, whatever was done before it: what the replies during
      the call itself say, for the address with which the device was last found;
      not connected exactly if it was never found; nothing of earlier calls, but
      that after one whose invoke id was freed unanswered all panic. */
  lemma {:induction false} CallInEveryRun(uses: seq<Use>, d: DeviceId, id: byte, turns: seq<Turn>)
    ensures var r := ResultOf(AfterUses(uses), d, id, turns); var k := EndOf(turns);
      if EverUnanswered(uses) then r == Some(Panicked)
      else
        match LastFound(uses, d)
        case None => r == Some(Returned(Err(NotConnectedToDevice)))
        case Some(addr) =>
          if k == |turns| then r == None
          else if turns[k].state.GivenUp? then r == Some(Returned(Err(TsmTimeout)))
          else if turns[k].state.TooLate? then r == Some(Returned(Err(ApduTimeout)))
          else
            match LastAnswer(Replies(turns[..k + 1]), addr, id)
            case None => r == Some(Panicked)
            case Some(Ack(_, _, decoded)) => r == Some(Returned(decoded))
            case Some(Refusal(_, _, problem)) => r == Some(Returned(Err(BacnetError(problem))))
  {
    MemoryOfUses(uses, d);
  }

  class Client {
    var devices: Devices // TARGET_ADDRESSES
    var poisoned: bool   // its lock

    ghost function View(): Memory
      reads this
    {
      Memory(devices, poisoned)
    }

    constructor ()
      ensures View() == AfterUses([])
    {
      devices, poisoned := map[], false;
    }

    /** `found` is what address_bind_request gave; no result is a panic. */
    method Connect(deviceId: DeviceId, found: Option<Address>) returns (ok: Option<bool>)
      requires Inv(devices)
      requires found.Some? ==> forall d :: d in devices && d != deviceId ==> !AddressMatch(devices[d].addr, found.value)
      modifies this
      ensures Inv(devices) && View() == AfterUse(old(View()), Bind(deviceId, found))
      ensures ok == if found.None? then Some(false) else if poisoned then None else Some(true)
    {
      if found.None? {
        return Some(false);
      }
      if poisoned {
        return None;
      }
      devices := devices[deviceId := TargetDevice(found.value, None, None)];
      ok := Some(true);
    }

    /** find_matching_device: the map is walked in no particular order. */
    method FindMatchingDevice(src: Address, id: byte) returns (found: Option<DeviceId>)
      ensures found.Some? ==> found.value in devices && Matches(devices[found.value], src, id)
      ensures found.None? ==> forall d :: d in devices ==> !Matches(devices[d], src, id)
    {
      var left := devices.Keys;
      while left != {}
        invariant left <= devices.Keys
        invariant forall d :: d in devices && d !in left ==> !Matches(devices[d], src, id)
        decreases left
      {
        var d :| d in left;
        if Matches(devices[d], src, id) {
          return Some(d);
        }
        left := left - {d};
      }
      return None;
    }

    /** my_readprop_ack_handler, and the error, abort and reject handlers. */
    method HandleReply(reply: Reply)
      requires Inv(devices)
      modifies this`devices
      ensures Inv(devices) && devices == Handled(old(devices), reply)
    {
      HandledKeepsInv(devices, reply);
      var found := FindMatchingDevice(reply.src, reply.id);
      if found.Some? {
        var d := found.value;
        devices := devices[d := Answered(devices[d], reply)];
      }
    }

    method ReadPropAt(deviceId: DeviceId, requestInvokeId: byte, turns: seq<Turn>) returns (r: Option<Outcome>)
      requires Inv(devices)
      modifies this
      ensures Inv(devices) && View() == AfterUse(old(View()), Call(deviceId, requestInvokeId, turns))
      ensures r == ResultOf(old(View()), deviceId, requestInvokeId, turns)
    {
      hide Inv, Handled, HandledAll, Replies, LastAnswer, Extract, Deserved;
      if poisoned {
        return Some(Panicked);
      }
      if deviceId !in devices {
        return Some(Returned(Err(NotConnectedToDevice)));
      }
      StartedKeepsInv(devices, deviceId, requestInvokeId);
      devices := Started(devices, deviceId, requestInvokeId);
      ghost var start := devices;
      var k := 0;
      NoReplies(start);
      while k < |turns|
        invariant k <= |turns| && Inv(devices) && !poisoned
        invariant devices == HandledAll(start, Replies(turns[..k]))
        invariant forall j :: 0 <= j < k ==> turns[j].state.Busy?
      {
        RepliesNext(start, turns, k);
        if turns[k].reply.Some? {
          HandleReply(turns[k].reply.value);
        }
        if turns[k].state.Free? {
          assert EndOf(turns) == k;
          CallReturnsItsAnswer(old(devices), deviceId, requestInvokeId, Replies(turns[..k + 1]));
          r := TakeResult(deviceId);
          return;
        }
        if turns[k].state.GivenUp? {
          return Some(Returned(Err(TsmTimeout)));
        }
        if turns[k].state.TooLate? {
          return Some(Returned(Err(ApduTimeout)));
        }
        k := k + 1;
      }
      return None;
    }

    static lemma NoReplies(ds: Devices)
      ensures HandledAll(ds, Replies([])) == ds
    {
    }

    static lemma RepliesNext(ds: Devices, turns: seq<Turn>, k: nat)
      requires k < |turns|
      ensures var before := HandledAll(ds, Replies(turns[..k]));
        HandledAll(ds, Replies(turns[..k + 1])) == if turns[k].reply.Some? then Handled(before, turns[k].reply.value) else before
    {
      hide Handled;
      assert turns[..k + 1][..k] == turns[..k];
    }

    /** Takes the request, and the value if the request is done; a panic happens
        under the lock. */
    method TakeResult(deviceId: DeviceId) returns (r: Option<Outcome>)
      requires Inv(devices) && deviceId in devices && devices[deviceId].request.Some? && !poisoned
      modifies this
      ensures Inv(devices)
      ensures r == Some(Extract(old(devices)[deviceId])) && poisoned == r.value.Panicked?
      ensures devices == old(devices)[deviceId := Taken(old(devices)[deviceId])]
    {
      var h := devices[deviceId];
      r := Some(Extract(h));
      var done := h.request.value.status.Done?;
      devices := devices[deviceId := h.(request := None, value := if done then None else h.value)];
      poisoned := r.value.Panicked?;
    }
  }
}
