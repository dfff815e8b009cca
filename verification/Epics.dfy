/** The EPICS scanner (apps/epics): its state machine, the property list it
    builds, and the walk through a long array. */
module Epics {
  import opened Octets

  /** In the order of EPICS_STATES; a timeout assigns the number 3. */
  datatype State =
    | InitialBinding | GetHeadingInfo | GetHeadingResponse | PrintHeading
    | GetAllRequest | GetAllResponse | GetListOfAllRequest | GetListOfAllResponse
    | GetPropertyRequest | GetPropertyResponse | NextObject

  const MAX_PROPS := 128
  const LIST_SIZE := 130
  const END := -1

  const OBJECT_DEVICE := 8
  const MAX_BACNET_OBJECT_TYPE := 1024
  const ARRAY_ALL: uint32 := 0xFFFF_FFFF

  const PROP_OBJECT_LIST := 76
  const PROP_STATE_TEXT := 110
  const PROP_STRUCTURED_OBJECT_LIST := 209
  const PROP_SUBORDINATE_ANNOTATIONS := 210
  const PROP_SUBORDINATE_LIST := 211

  const ERROR_CLASS_PROPERTY := 2
  const ERROR_CODE_UNKNOWN_PROPERTY := 32
  const ERROR_CODE_REJECT_UNRECOGNIZED_SERVICE := 67
  const ERROR_CODE_ABORT_SEGMENTATION_NOT_SUPPORTED := 54

  predicate IsArray(prop: int) {
    || prop == PROP_OBJECT_LIST || prop == PROP_STATE_TEXT || prop == PROP_STRUCTURED_OBJECT_LIST
    || prop == PROP_SUBORDINATE_ANNOTATIONS || prop == PROP_SUBORDINATE_LIST
  }

  datatype ObjectId = ObjectId(kind: nat, instance: nat)

  datatype Value = Unsigned(n: uint32) | Id(id: ObjectId) | Null | Other

  /** A property in a reply. */
  datatype Property = Property(id: nat, arrayIndex: uint32, values: seq<Value>)

  /** property_list_special: the known properties of an object type. */
  datatype Special = Special(required: seq<nat>, optional: seq<nat>)

  datatype Env = Env(special: nat -> Special, optionalProperties: bool, deviceObjectOnly: bool)

  /** Property_List and its indices. */
  datatype Props = Props(list: seq<int>, length: nat, index: nat)

  datatype Walk = Walk(on: bool, length: uint32, index: uint32)

  /** A ReadProperty request that was sent. */
  datatype Asked = Asked(target: ObjectId, prop: int, arrayIndex: uint32)

  datatype Problem = Problem(errorClass: nat, code: nat)

  /** The static variables.  `keys` is Object_List, `asserted` that an assert of
      the C code failed, `log` the single-property requests so far. */
  datatype Core = Core(
    state: State, props: Props, walk: Walk, longArray: bool, hasRpm: bool,
    error: bool, last: Problem, id: byte,
    keys: seq<ObjectId>, cursor: int, current: ObjectId,
    asserted: bool, log: seq<Asked>)

  /** How the invoke id of the request stands. */
  datatype Status = Free | Failed | Waiting

  /** What one turn of the loop meets: the binding, the invoke id a send gives,
      an error reported for the request, a reply to it, the transaction state. */
  datatype Input = Input(bound: bool, sentId: byte, error: Option<Problem>, data: Option<seq<Property>>, status: Status)

  // ---- Small steps ----

  function StartNextObject(c: Core): Core {
    c.(error := false, props := c.props.(length := 0, index := 0))
  }

  /** The fixed list of properties for an object type, as much of it as fits. */
  function Wanted(env: Env, kind: nat): (w: seq<nat>)
    ensures |w| <= MAX_PROPS
  {
    var s := env.special(kind);
    var all := if env.optionalProperties then s.required + s.optional else s.required;
    if |all| > MAX_PROPS then all[..MAX_PROPS] else all
  }

  /** The first entries of the list become `items` and the end marker. */
  function Filled(list: seq<int>, items: seq<nat>): (r: seq<int>)
    requires |items| < |list|
    ensures |r| == |list| && r[..|items|] == items && r[|items|] == END
  {
    seq(|list|, i requires 0 <= i < |list| => if i < |items| then items[i] else if i == |items| then END else list[i])
  }

  function Rebuilt(env: Env, c: Core): Core
    requires |c.props.list| == LIST_SIZE
  {
    if (!c.hasRpm && c.props.index == 0) || c.props.length == 0 then
      var items := Wanted(env, c.current.kind);
      c.(props := c.props.(list := Filled(c.props.list, items), length := |items|))
    else c
  }

  function ArrayIndex(w: Walk): uint32 {
    if !w.on then ARRAY_ALL else if w.length == 0 then 0 else w.index
  }

  /** Read_Properties: asks for the property at the index, unless the list ends
      there; then the invoke id is 0. */
  function ReadProperties(env: Env, c: Core, sentId: byte): Core
    requires |c.props.list| == LIST_SIZE && c.props.index < LIST_SIZE
  {
    var b := Rebuilt(env, c);
    var prop := b.props.list[b.props.index];
    if prop == END then b.(id := 0)
    else
      b.(longArray := !b.walk.on && IsArray(prop), id := sentId,
         log := b.log + [Asked(b.current, prop, ArrayIndex(b.walk))])
  }

  /** The order of the keys: by type, then by instance. */
  predicate Less(a: ObjectId, b: ObjectId) {
    a.kind < b.kind || (a.kind == b.kind && a.instance < b.instance)
  }

  /** Keylist_Data_Add: `keys` stays in order of type and instance. */
  function AddKey(keys: seq<ObjectId>, k: ObjectId): (r: seq<ObjectId>)
    ensures |r| == |keys| + 1
  {
    if keys == [] || !Less(keys[0], k) then [k] + keys else [keys[0]] + AddKey(keys[1..], k)
  }

  /** The part of PrintReadPropertyData that keeps state, for one array value. */
  function ArrayValue(c: Core, p: Property, v: Value): Core {
    if c.walk.on && p.arrayIndex == 0 && v.Unsigned? then c.(walk := c.walk.(length := v.n)) else Kept(Counted(c, p), p, v)
  }

  /** The place in the array: checked in a walk, counted otherwise. */
  function Counted(c: Core, p: Property): Core {
    if c.walk.on then (if c.walk.index == p.arrayIndex then c else c.(asserted := true))
    else c.(walk := c.walk.(index := (c.walk.index + 1) % UINT32),
            cursor := if p.id == PROP_OBJECT_LIST then c.cursor + 1 else c.cursor)
  }

  /** Objects of an object list are stored. */
  function Kept(c: Core, p: Property, v: Value): Core {
    if c.walk.index == 1 && v.Null? then c
    else if p.id == PROP_OBJECT_LIST then
      if v.Id? then c.(keys := AddKey(c.keys, v.id)) else c.(asserted := true)
    else if p.id == PROP_SUBORDINATE_LIST && !v.Id? then c.(asserted := true)
    else c
  }

  function ArrayValues(c: Core, p: Property, values: seq<Value>): Core
    decreases |values|
  {
    if values == [] then c else ArrayValues(ArrayValue(c, p, values[0]), p, values[1..])
  }

  function Printed(c: Core, p: Property): Core {
    if p.values == [] then c
    else
      var c1 := if c.walk.on then c else c.(walk := c.walk.(index := 0, length := 0));
      if IsArray(p.id) then ArrayValues(c1, p, p.values) else c1
  }

  function PrintedAll(c: Core, ps: seq<Property>): Core
    decreases |ps|
  {
    if ps == [] then c else PrintedAll(Printed(c, ps[0]), ps[1..])
  }

  // ---- The list built from a reply to "list of all" ----

  predicate Deferred(prop: nat) {
    prop == PROP_OBJECT_LIST || prop == PROP_STRUCTURED_OBJECT_LIST
  }

  function Others(ps: seq<Property>): (r: seq<nat>)
    ensures |r| <= |ps|
  {
    if ps == [] then []
    else
      var before, p := Others(ps[..|ps| - 1]), ps[|ps| - 1].id;
      if Deferred(p) then before else before + [p]
  }

  predicate Mentions(ps: seq<Property>, prop: nat) {
    exists p <- ps :: p.id == prop
  }

  /** The other properties in order, then the long lists that were put off. */
  function ListOfAll(ps: seq<Property>): (r: seq<nat>)
    ensures |r| <= |ps| + 2
  {
    Others(ps)
    + (if Mentions(ps, PROP_STRUCTURED_OBJECT_LIST) then [PROP_STRUCTURED_OBJECT_LIST] else [])
    + (if Mentions(ps, PROP_OBJECT_LIST) then [PROP_OBJECT_LIST] else [])
  }

  // ---- The turns of the loop ----

  function Reported(c: Core, input: Input): Core {
    if input.error.Some? then c.(error := true, last := input.error.value) else c
  }

  function Goto(c: Core, state: State): Core {
    c.(state := state, id := 0)
  }

  /** ProcessRPMData on a reply. */
  function Processed(c: Core, ps: seq<Property>): Core
    requires |c.props.list| == LIST_SIZE && |ListOfAll(ps)| < MAX_PROPS
  {
    if c.state.GetHeadingResponse? then Goto(c, PrintHeading)
    else if c.state.GetAllResponse? then Goto(PrintedAll(c, ps), NextObject)
    else
      var items := ListOfAll(ps);
      Goto(c, GetPropertyRequest).(props := Props(Filled(c.props.list, items), |items|, 0))
  }

  /** The invoke id was freed by an error, or without anything. */
  function Freed(c: Core): Core {
    if c.state.GetHeadingResponse? then Goto(c, PrintHeading)
    else if !c.error then Goto(c, if c.hasRpm then GetAllRequest else GetPropertyRequest)
    else if c.last.code == ERROR_CODE_REJECT_UNRECOGNIZED_SERVICE then Goto(c, GetPropertyRequest).(hasRpm := false)
    else if c.last.code != ERROR_CODE_ABORT_SEGMENTATION_NOT_SUPPORTED && c.state.GetAllResponse? then
      Goto(c, GetListOfAllRequest)
    else StartNextObject(Goto(c, GetPropertyRequest))
  }

  /** GET_HEADING_RESPONSE, GET_ALL_RESPONSE and GET_LIST_OF_ALL_RESPONSE. */
  function Response(c0: Core, input: Input): Core
    requires |c0.props.list| == LIST_SIZE
    requires input.data.Some? ==> |ListOfAll(input.data.value)| < MAX_PROPS
  {
    var c := Reported(c0, input);
    if input.data.Some? then Processed(c, input.data.value)
    else if input.status.Free? then Freed(c)
    else if input.status.Failed? then Goto(c, if c.state.GetHeadingResponse? then PrintHeading else GetAllRequest)
    else if c.error then Goto(c, if c.state.GetHeadingResponse? then PrintHeading else NextObject)
    else c
  }

  /** Advances the walk, or else the property. */
  function Advanced(c: Core): Core {
    if c.walk.on then
      var index: uint32 := (c.walk.index + 1) % UINT32;
      if index > c.walk.length then
        c.(walk := c.walk.(on := false, index := index), props := c.props.(index := c.props.index + 1))
      else c.(walk := c.walk.(index := index))
    else c.(props := c.props.(index := c.props.index + 1))
  }

  function SkipProperty(c: Core): Core {
    var index := c.props.index + 1;
    Goto(c, if index >= c.props.length then NextObject else GetPropertyRequest).(props := c.props.(index := index))
  }

  function PropertyFreed(c: Core): Core {
    if !c.error then Goto(c, GetPropertyRequest)
    else if c.last.errorClass != ERROR_CLASS_PROPERTY && c.last.code != ERROR_CODE_UNKNOWN_PROPERTY && c.longArray then
      Goto(c, GetPropertyRequest).(walk := Walk(true, 0, 0))
    else SkipProperty(c)
  }

  function PropertyResponse(c0: Core, input: Input): Core {
    var c := Reported(c0, input);
    if input.data.Some? then
      Goto(Advanced(if input.data.value == [] then c else Printed(c, input.data.value[0])), GetPropertyRequest)
    else if input.status.Free? then PropertyFreed(c)
    else if input.status.Failed? then Goto(c, PrintHeading) // myState = 3
    else if c.error then Goto(c, NextObject)
    else c
  }

  /** The first key past `from` that is not a device, or the end of the list. */
  function NextKey(keys: seq<ObjectId>, from: nat): (k: nat)
    requires from <= |keys|
    ensures from <= k <= |keys|
    ensures k < |keys| ==> keys[k].kind != OBJECT_DEVICE
    ensures forall j :: from <= j < k ==> keys[j].kind == OBJECT_DEVICE
    decreases |keys| - from
  {
    if from == |keys| || keys[from].kind != OBJECT_DEVICE then from else NextKey(keys, from + 1)
  }

  predicate Finished(c: Core) {
    c.current.kind >= MAX_BACNET_OBJECT_TYPE
  }

  function ToNextObject(env: Env, c: Core): Core {
    if c.current.kind == OBJECT_DEVICE && env.deviceObjectOnly then
      c.(cursor := -1, current := c.current.(kind := MAX_BACNET_OBJECT_TYPE))
    else
      var start := if c.current.kind == OBJECT_DEVICE then 0 else c.cursor + 1;
      var k := if 0 <= start <= |c.keys| then NextKey(c.keys, start) else start;
      var next := if 0 <= k < |c.keys| then c.keys[k] else c.current.(kind := MAX_BACNET_OBJECT_TYPE);
      var c1 := c.(cursor := k, current := next, state := if c.hasRpm then GetAllRequest else GetPropertyRequest);
      if c.hasRpm then c1 else StartNextObject(c1)
  }

  ghost predicate Fits(input: Input) {
    input.data.Some? ==> |ListOfAll(input.data.value)| < MAX_PROPS
  }

  /** Where a ReadPropertyMultiple request leads; all but the one for the heading
      are repeated if they cannot be sent. */
  function Sent(state: State, sentId: byte): State {
    if state.GetHeadingInfo? then GetHeadingResponse
    else if state.GetListOfAllRequest? then (if sentId > 0 then GetListOfAllResponse else state)
    else if sentId > 0 then GetAllResponse else GetAllRequest
  }

  function Step(env: Env, c: Core, input: Input): Core
    requires |c.props.list| == LIST_SIZE && c.props.index < LIST_SIZE && Fits(input)
  {
    match c.state
    case InitialBinding => if input.bound then c.(state := GetHeadingInfo) else c
    case GetHeadingInfo => StartNextObject(c).(id := input.sentId, state := Sent(c.state, input.sentId))
    case PrintHeading => StartNextObject(c).(id := input.sentId, state := Sent(c.state, input.sentId))
    case GetAllRequest => StartNextObject(c).(id := input.sentId, state := Sent(c.state, input.sentId))
    case GetListOfAllRequest => StartNextObject(c).(id := input.sentId, state := Sent(c.state, input.sentId))
    case GetHeadingResponse => Response(c, input)
    case GetAllResponse => Response(c, input)
    case GetListOfAllResponse => Response(c, input)
    case GetPropertyRequest =>
      var r := ReadProperties(env, c.(error := false), input.sentId);
      r.(state := if r.id == 0 then NextObject else GetPropertyResponse)
    case GetPropertyResponse => PropertyResponse(c, input)
    case NextObject => ToNextObject(env, c)
  }

  // ---- The property list in every run ----

  /** The list ends at its length, and not before, with the index inside. */
  ghost predicate Ended(p: Props) {
    && p.index <= p.length < LIST_SIZE == |p.list|
    && p.list[p.length] == END
    && forall i :: 0 <= i < p.length ==> p.list[i] != END
  }

  ghost predicate Inv(c: Core) {
    && |c.props.list| == LIST_SIZE && c.props.index <= c.props.length <= MAX_PROPS && c.cursor >= -1
    && (c.state.GetPropertyRequest? ==> c.props.length == 0 || Ended(c.props))
    && (c.state.GetPropertyResponse? ==> Ended(c.props) && c.props.index < c.props.length)
    && (c.state.GetHeadingResponse? || c.state.GetAllResponse? || c.state.GetListOfAllResponse? ==> c.props.length == 0)
  }

  /** What printing a reply leaves alone. */
  ghost predicate SameButPrinted(c: Core, r: Core) {
    && r.props == c.props && r.state == c.state && r.walk.on == c.walk.on && r.hasRpm == c.hasRpm
    && r.cursor >= c.cursor && r.current == c.current && r.log == c.log
    && r.error == c.error && r.last == c.last && r.longArray == c.longArray
  }

  lemma {:induction false} ArrayValueKeeps(c: Core, p: Property, v: Value)
    ensures SameButPrinted(c, ArrayValue(c, p, v))
    ensures c.walk.on && c.walk.index == p.arrayIndex ==>
      ArrayValue(c, p, v).walk == if p.arrayIndex == 0 && v.Unsigned? then c.walk.(length := v.n) else c.walk
  {
    hide AddKey;
  }

  lemma {:induction false} ArrayValuesKeep(c: Core, p: Property, values: seq<Value>)
    ensures SameButPrinted(c, ArrayValues(c, p, values))
    decreases |values|
  {
    hide ArrayValue;
    if values == [] {
    } else {
      ArrayValueKeeps(c, p, values[0]);
      ArrayValuesKeep(ArrayValue(c, p, values[0]), p, values[1..]);
    }
  }

  lemma PrintedKeeps(c: Core, p: Property)
    ensures SameButPrinted(c, Printed(c, p))
  {
    hide ArrayValues;
    var c1 := if c.walk.on then c else c.(walk := c.walk.(index := 0, length := 0));
    ArrayValuesKeep(c1, p, p.values);
  }

  lemma {:induction false} PrintedAllKeeps(c: Core, ps: seq<Property>)
    ensures SameButPrinted(c, PrintedAll(c, ps))
    decreases |ps|
  {
    hide Printed;
    if ps == [] {
    } else {
      PrintedKeeps(c, ps[0]);
      PrintedAllKeeps(Printed(c, ps[0]), ps[1..]);
    }
  }

  lemma RebuiltIsEnded(env: Env, c: Core)
    requires Inv(c) && c.state.GetPropertyRequest?
    ensures var b := Rebuilt(env, c);
      && Ended(b.props) && b.props.length <= MAX_PROPS && b.props.index == c.props.index
      && b == c.(props := b.props)
  {
    var items := Wanted(env, c.current.kind);
    var list := Filled(c.props.list, items);
    forall i | 0 <= i < |items| ensures list[i] != END {
      assert list[..|items|][i] == items[i];
    }
  }

  lemma EndedAt(p: Props)
    requires Ended(p)
    ensures p.index <= p.length < LIST_SIZE == |p.list| && (p.list[p.index] == END <==> p.index == p.length)
  {
  }

  lemma {:induction false} PropertyRequestKeepsInv(env: Env, c: Core, input: Input)
    requires Inv(c) && c.state.GetPropertyRequest? && Fits(input)
    ensures Inv(Step(env, c, input))
  {
    hide Rebuilt, Ended;
    RebuiltIsEnded(env, c.(error := false));
    EndedAt(Rebuilt(env, c.(error := false)).props);
  }

  lemma EndedMoves(p: Props)
    requires Ended(p) && p.index < p.length
    ensures Ended(p.(index := p.index + 1))
  {
  }

  lemma AdvancedKeepsInv(c: Core)
    requires Inv(c) && c.state.GetPropertyResponse?
    ensures Inv(Goto(Advanced(c), GetPropertyRequest))
  {
    hide Ended;
    EndedMoves(c.props);
  }

  lemma PropertyFreedKeepsInv(c: Core)
    requires Inv(c) && c.state.GetPropertyResponse?
    ensures Inv(PropertyFreed(c))
  {
    hide Ended;
    EndedMoves(c.props);
  }

  lemma {:induction false} PropertyAnswerKeepsInv(c: Core, ps: seq<Property>)
    requires Inv(c) && c.state.GetPropertyResponse?
    ensures Inv(Goto(Advanced(if ps == [] then c else Printed(c, ps[0])), GetPropertyRequest))
  {
    hide Printed, Ended, Advanced;
    if ps != [] {
      PrintedKeeps(c, ps[0]);
      AdvancedKeepsInv(Printed(c, ps[0]));
    } else {
      AdvancedKeepsInv(c);
    }
  }

  lemma {:induction false} PropertyResponseKeepsInv(env: Env, c0: Core, input: Input)
    requires Inv(c0) && c0.state.GetPropertyResponse? && Fits(input)
    ensures Inv(Step(env, c0, input))
  {
    hide Printed, Ended, Advanced, PropertyFreed, ListOfAll;
    var c := Reported(c0, input);
    if input.data.Some? {
      PropertyAnswerKeepsInv(c, input.data.value);
    } else {
      PropertyFreedKeepsInv(c);
    }
  }

  lemma ListOfAllIsEnded(list: seq<int>, items: seq<nat>)
    requires |list| == LIST_SIZE && |items| < MAX_PROPS
    ensures Ended(Props(Filled(list, items), |items|, 0))
  {
    forall i | 0 <= i < |items| ensures Filled(list, items)[i] != END {
      assert Filled(list, items)[..|items|][i] == items[i];
    }
  }

  predicate Responding(s: State) {
    s.GetHeadingResponse? || s.GetAllResponse? || s.GetListOfAllResponse?
  }

  lemma {:induction false} ReplyKeepsInv(c: Core, input: Input)
    requires Inv(c) && Responding(c.state) && Fits(input) && input.data.Some?
    ensures Inv(Response(c, input))
  {
    hide PrintedAll, ListOfAll, Filled, Ended;
    PrintedAllKeeps(Reported(c, input), input.data.value);
    ListOfAllIsEnded(c.props.list, ListOfAll(input.data.value));
  }

  lemma FreedKeepsInv(c: Core)
    requires Inv(c) && Responding(c.state)
    ensures Inv(Freed(c))
  {
    hide Ended;
  }

  lemma {:induction false} NoReplyKeepsInv(c: Core, input: Input)
    requires Inv(c) && Responding(c.state) && input.data.None?
    ensures Inv(Response(c, input))
  {
    hide Ended, Processed, ListOfAll, Freed;
    FreedKeepsInv(Reported(c, input));
  }

  lemma ToNextKeepsInv(env: Env, c: Core)
    requires Inv(c) && c.state.NextObject?
    ensures Inv(ToNextObject(env, c))
  {
    hide Ended, NextKey;
  }

  lemma {:induction false} StepKeepsInv(env: Env, c: Core, input: Input)
    requires Inv(c) && Fits(input)
    ensures Inv(Step(env, c, input))
  {
    hide Response, PropertyResponse, ReadProperties, ToNextObject, Ended, ListOfAll;
    if c.state.NextObject? {
      ToNextKeepsInv(env, c);
    } else if c.state.GetPropertyRequest? {
      PropertyRequestKeepsInv(env, c, input);
    } else if c.state.GetPropertyResponse? {
      PropertyResponseKeepsInv(env, c, input);
    } else if Responding(c.state) {
      if input.data.Some? {
        ReplyKeepsInv(c, input);
      } else {
        NoReplyKeepsInv(c, input);
      }
    }
  }

  /** The loop of main() ends when no object is left. */
  ghost function Run(env: Env, c: Core, inputs: seq<Input>): Core
    requires Inv(c) && forall input <- inputs :: Fits(input)
    ensures Inv(Run(env, c, inputs))
    decreases |inputs|
  {
    if inputs == [] || Finished(c) then c
    else
      StepKeepsInv(env, c, inputs[0]);
      Run(env, Step(env, c, inputs[0]), inputs[1..])
  }

  function Start(list: seq<int>, device: nat): Core {
    Core(InitialBinding, Props(list, 0, 0), Walk(false, 0, 0), false, true, false, Problem(0, 0), 0,
         [], 0, ObjectId(OBJECT_DEVICE, device), false, [])
  }

  /** Whenever a run is about to ask for a property or waits for one, the list
      ends at its length and the index lies inside; only an empty list is still
      to be replaced by the fixed one. */
  lemma EveryRunEndsItsList(env: Env, list: seq<int>, device: nat, inputs: seq<Input>)
    requires |list| == LIST_SIZE && forall input <- inputs :: Fits(input)
    ensures var c := Run(env, Start(list, device), inputs);
      && (c.state.GetPropertyResponse? ==> Ended(c.props) && c.props.index < c.props.length)
      && (c.state.GetPropertyRequest? ==> Ended(Rebuilt(env, c).props) && Rebuilt(env, c).props.index == c.props.index)
  {
    var c := Run(env, Start(list, device), inputs);
    if c.state.GetPropertyRequest? {
      RebuiltIsEnded(env, c);
    }
  }

  // ---- The list of all ----

  lemma {:induction false} OthersAre(ps: seq<Property>, prop: nat)
    ensures prop in Others(ps) <==> !Deferred(prop) && Mentions(ps, prop)
  {
    if ps == [] {
    } else {
      var before, p := ps[..|ps| - 1], ps[|ps| - 1];
      OthersAre(before, prop);
      assert ps == before + [p];
      assert Mentions(ps, prop) <==> Mentions(before, prop) || p.id == prop;
    }
  }

  lemma {:induction false} ListOfAllMeans(ps: seq<Property>, prop: nat)
    ensures prop in ListOfAll(ps) <==> Mentions(ps, prop)
    ensures Others(ps) <= ListOfAll(ps)
    ensures multiset(ListOfAll(ps))[PROP_OBJECT_LIST] <= 1
    ensures multiset(ListOfAll(ps))[PROP_STRUCTURED_OBJECT_LIST] <= 1
    ensures Mentions(ps, PROP_OBJECT_LIST) ==> ListOfAll(ps)[|ListOfAll(ps)| - 1] == PROP_OBJECT_LIST
  {
    hide Mentions, Others;
    OthersAre(ps, prop);
    OthersAre(ps, PROP_OBJECT_LIST);
    OthersAre(ps, PROP_STRUCTURED_OBJECT_LIST);
  }

  lemma ListOfAllReplaces(c: Core, input: Input)
    requires Inv(c) && Fits(input) && c.state.GetListOfAllResponse? && input.data.Some?
    ensures var list := ListOfAll(input.data.value); var r := Response(c, input);
      r.props == Props(Filled(c.props.list, list), |list|, 0) && r.state == GetPropertyRequest
  {
    hide ListOfAll, PrintedAll, Filled, Ended, Freed;
  }

  /** A reply to "list of all" makes the list of exactly the properties it
      mentions: those that are not put off in the order of the reply, and the
      long lists at the end, the object list last, each once. */
  lemma {:induction false} ListOfAllIsComplete(env: Env, c: Core, input: Input, prop: nat)
    requires Inv(c) && Fits(input) && c.state.GetListOfAllResponse? && input.data.Some?
    ensures var list := ListOfAll(input.data.value);
      Step(env, c, input).props == Props(Filled(c.props.list, list), |list|, 0) && Step(env, c, input).state == GetPropertyRequest
    ensures var list := ListOfAll(input.data.value); var filled := Filled(c.props.list, list);
      filled[..|list|] == list && filled[|list|] == END
    ensures var list := ListOfAll(input.data.value);
      && (prop in list <==> Mentions(input.data.value, prop))
      && Others(input.data.value) <= list
      && multiset(list)[PROP_OBJECT_LIST] <= 1 && multiset(list)[PROP_STRUCTURED_OBJECT_LIST] <= 1
      && (Mentions(input.data.value, PROP_OBJECT_LIST) ==> list[|list| - 1] == PROP_OBJECT_LIST)
  {
    hide ListOfAll, Mentions, Others, Response, Filled, Ended;
    ListOfAllMeans(input.data.value, prop);
    ListOfAllReplaces(c, input);
  }

  // ---- The walk ----

  /** Fixed lists are not replaced by different ones while they are walked. */
  ghost predicate Settled(env: Env, c: Core) {
    |c.props.list| == LIST_SIZE && Rebuilt(env, c).props == c.props
  }

  lemma SettledStays(env: Env, c: Core, c2: Core)
    requires Settled(env, c) && c2.props == c.props && c2.current == c.current && c2.hasRpm == c.hasRpm
    ensures Settled(env, c2) && Rebuilt(env, c2) == c2
  {
    hide Filled, Wanted;
  }

  /** Nothing has come for the request: no packet, or one for somebody else. */
  predicate Idle(input: Input) {
    input.data.None? && input.error.None? && input.status.Waiting?
  }

  /** The invoke id was freed without an answer or an error. */
  predicate Lost(input: Input) {
    input.data.None? && input.error.None? && input.status.Free?
  }

  /** The device gave up on the request. */
  predicate Refused(input: Input) {
    input.data.None? && input.error.Some? && input.status.Free?
  }

  /** Element `i` of an array of `n`; element 0 is its length. */
  predicate Element(input: Input, prop: nat, n: uint32, i: nat) {
    && input.data.Some? && input.data.value != []
    && var p := input.data.value[0];
       p.id == prop && p.arrayIndex == i && (i == 0 ==> p.values == [Unsigned(n)])
  }

  /** The inputs, from a request or a wait for the answer to one, read elements
      i..n: any number of idle turns, requests that are lost, then the element. */
  predicate Reads(inputs: seq<Input>, prop: nat, n: uint32, i: nat, waiting: bool)
    decreases |inputs|
  {
    if i > n || inputs == [] then i > n && inputs == [] && !waiting
    else
      var input, rest := inputs[0], inputs[1..];
      if !waiting then input.sentId > 0 && Reads(rest, prop, n, i, true)
      else
        || (Idle(input) && Reads(rest, prop, n, i, true))
        || (Lost(input) && Reads(rest, prop, n, i, false))
        || (Element(input, prop, n, i) && Reads(rest, prop, n, i + 1, false))
  }

  /** The same after a request for the whole array that the device refuses. */
  predicate RefusedThenReads(inputs: seq<Input>, prop: nat, n: uint32, waiting: bool)
    decreases |inputs|
  {
    inputs != []
    && var input, rest := inputs[0], inputs[1..];
       if !waiting then input.sentId > 0 && RefusedThenReads(rest, prop, n, true)
       else
         || (Idle(input) && RefusedThenReads(rest, prop, n, true))
         || (Lost(input) && RefusedThenReads(rest, prop, n, false))
         || (Refused(input) && StartsWalk(input.error.value) && Reads(rest, prop, n, 0, false))
  }

  predicate StartsWalk(problem: Problem) {
    problem.errorClass != ERROR_CLASS_PROPERTY && problem.code != ERROR_CODE_UNKNOWN_PROPERTY
  }

  /** How often the request is lost and made again. */
  function Losses(inputs: seq<Input>, waiting: bool): nat
    decreases |inputs|
  {
    if inputs == [] then 0
    else if !waiting || Idle(inputs[0]) then Losses(inputs[1..], true)
    else (if Lost(inputs[0]) then 1 else 0) + Losses(inputs[1..], false)
  }

  /** Requests for elements i..n in order, an element repeated or not. */
  ghost predicate Covers(asked: seq<Asked>, target: ObjectId, prop: int, i: nat, n: nat)
    decreases |asked|
  {
    if i > n then asked == []
    else
      && asked != [] && i < UINT32 && asked[0] == Asked(target, prop, i)
      && (Covers(asked[1..], target, prop, i, n) || Covers(asked[1..], target, prop, i + 1, n))
  }

  function Indices(target: ObjectId, prop: int, i: nat, n: nat): seq<Asked>
    requires i <= n + 1 < UINT32
    decreases n + 1 - i
  {
    if i > n then [] else [Asked(target, prop, i)] + Indices(target, prop, i + 1, n)
  }

  /** Without repetition there is one request for each element. */
  lemma {:induction false} CoversOnce(asked: seq<Asked>, target: ObjectId, prop: int, i: nat, n: nat)
    requires i <= n + 1 < UINT32 && Covers(asked, target, prop, i, n)
    ensures |asked| >= n + 1 - i
    ensures |asked| == n + 1 - i ==> asked == Indices(target, prop, i, n)
    decreases |asked|
  {
    if i > n {
    } else if Covers(asked[1..], target, prop, i + 1, n) {
      CoversOnce(asked[1..], target, prop, i + 1, n);
    } else {
      CoversOnce(asked[1..], target, prop, i, n);
    }
  }

  /** About to ask for element `i` of `n`, or waiting for it. */
  ghost predicate Walking(env: Env, c: Core, prop: nat, n: uint32, i: nat) {
    && Inv(c) && Settled(env, c) && !Finished(c)
    && (c.state.GetPropertyRequest? || (c.state.GetPropertyResponse? && !c.error))
    && c.props.length > 0 && c.props.index < c.props.length
    && c.props.list[c.props.index] == prop && IsArray(prop)
    && c.walk.on && c.walk.index == i && i <= n < UINT32 - 1
    && c.walk.length == if i == 0 then 0 else n
  }

  /** The request for element `i`. */
  lemma {:induction false} AsksFor(env: Env, c: Core, prop: nat, n: uint32, i: nat, input: Input)
    requires Walking(env, c, prop, n, i) && c.state.GetPropertyRequest? && input.sentId > 0 && Fits(input)
    ensures var c1 := Step(env, c, input);
      && Walking(env, c1, prop, n, i) && c1.state.GetPropertyResponse?
      && c1 == c.(error := false, longArray := false, id := input.sentId, state := GetPropertyResponse,
                  log := c.log + [Asked(c.current, prop, i)])
  {
    assert Ended(c.props) && c.props.list[c.props.index] != END;
    hide Rebuilt, Ended;
    SettledStays(env, c, c.(error := false));
    var c1 := Step(env, c, input);
    SettledStays(env, c, c1);
  }

  /** A reply for the element the walk is at leaves the index alone, and takes
      over the length from element 0. */
  lemma {:induction false} ElementPrinted(c: Core, p: Property, values: seq<Value>)
    requires c.walk.on && c.walk.index == p.arrayIndex
    ensures SameButPrinted(c, ArrayValues(c, p, values))
    ensures p.arrayIndex > 0 ==> ArrayValues(c, p, values).walk == c.walk
    ensures p.arrayIndex == 0 && |values| == 1 && values[0].Unsigned? ==>
      ArrayValues(c, p, values).walk == c.walk.(length := values[0].n)
    decreases |values|
  {
    hide ArrayValue;
    ArrayValuesKeep(c, p, values);
    if values == [] {
    } else {
      ArrayValueKeeps(c, p, values[0]);
      var next := ArrayValue(c, p, values[0]);
      if p.arrayIndex > 0 {
        ElementPrinted(next, p, values[1..]);
      } else if |values| == 1 {
        assert values[1..] == [];
      }
    }
  }

  /** The answer for element `i`: on to the next one, or after the last to the
      next property. */
  lemma {:induction false} Moves(env: Env, c: Core, prop: nat, n: uint32, i: nat, input: Input)
    requires Walking(env, c, prop, n, i) && c.state.GetPropertyResponse? && Element(input, prop, n, i) && Fits(input)
    ensures var r := Step(env, c, input);
      && r.state.GetPropertyRequest? && r.log == c.log && r.current == c.current && r.hasRpm == c.hasRpm
      && r.walk == Walk(i < n, n, i + 1)
      && r.props == if i < n then c.props else c.props.(index := c.props.index + 1)
  {
    hide Printed, Ended, Settled, Fits, ListOfAll;
    var c1 := Reported(c, input);
    var p := input.data.value[0];
    PrintedElement(c1, p, n);
    AdvancedWalk(Printed(c1, p), n);
  }

  lemma PrintedElement(c: Core, p: Property, n: uint32)
    requires c.walk.on && c.walk.index == p.arrayIndex && (p.arrayIndex == 0 ==> p.values == [Unsigned(n)])
    ensures SameButPrinted(c, Printed(c, p))
    ensures IsArray(p.id) ==> Printed(c, p).walk == if p.arrayIndex == 0 then c.walk.(length := n) else c.walk
  {
    hide ArrayValues;
    ElementPrinted(c, p, p.values);
    PrintedKeeps(c, p);
  }

  lemma AdvancedWalk(c: Core, n: uint32)
    requires c.walk.on && c.walk.length == n && c.walk.index <= n < UINT32 - 1
    ensures var r := Goto(Advanced(c), GetPropertyRequest); var more := c.walk.index < n;
      && r.state.GetPropertyRequest? && r.log == c.log && r.current == c.current && r.hasRpm == c.hasRpm
      && r.walk == Walk(more, n, c.walk.index + 1)
      && r.props == if more then c.props else c.props.(index := c.props.index + 1)
  {}

  /** One turn of a walk. */
  lemma {:induction false} WalkTurn(env: Env, c: Core, prop: nat, n: uint32, i: nat, input: Input)
    requires Walking(env, c, prop, n, i) && Fits(input)
    requires c.state.GetPropertyRequest? ==> input.sentId > 0
    requires c.state.GetPropertyResponse? ==> Idle(input) || Lost(input) || Element(input, prop, n, i)
    ensures var r := Step(env, c, input);
      && Inv(r) && r.current == c.current && r.hasRpm == c.hasRpm
      && r.log == c.log + (if c.state.GetPropertyRequest? then [Asked(c.current, prop, i)] else [])
      && (if c.state.GetPropertyResponse? && Element(input, prop, n, i)
          then && r.state.GetPropertyRequest?
               && if i < n then Walking(env, r, prop, n, i + 1) && r.props == c.props
                  else !r.walk.on && r.props == c.props.(index := c.props.index + 1)
          else && Walking(env, r, prop, n, i) && r.props == c.props
               && (r.state.GetPropertyResponse? <==> c.state.GetPropertyRequest? || Idle(input)))
  {
    hide Printed, Ended, Settled;
    StepKeepsInv(env, c, input);
    var r := Step(env, c, input);
    if c.state.GetPropertyRequest? {
      AsksFor(env, c, prop, n, i, input);
    } else if Element(input, prop, n, i) {
      Moves(env, c, prop, n, i, input);
      if i < n {
        SettledStays(env, c, r);
      }
    } else {
      SettledStays(env, c, r);
    }
  }

  lemma {:induction false} RunTurn(env: Env, c: Core, inputs: seq<Input>)
    requires Inv(c) && (forall input <- inputs :: Fits(input)) && inputs != [] && !Finished(c)
    ensures Inv(Step(env, c, inputs[0])) && Run(env, c, inputs) == Run(env, Step(env, c, inputs[0]), inputs[1..])
  {
    hide Step, Inv, Fits;
    StepKeepsInv(env, c, inputs[0]);
  }

  /** A walked array whose element reads succeed in the end is asked for at
      indices i, ..., n in order, once each and again only after a loss, before
      the next property. */
  lemma {:induction false} WalkAsksInOrder(env: Env, c: Core, prop: nat, n: uint32, i: nat, inputs: seq<Input>)
    requires Walking(env, c, prop, n, i) && forall input <- inputs :: Fits(input)
    requires Reads(inputs, prop, n, i, c.state.GetPropertyResponse?)
    ensures var r := Run(env, c, inputs);
      && c.log <= r.log
      && var asked := r.log[|c.log|..];
      && Covers(if c.state.GetPropertyRequest? then asked else [Asked(c.current, prop, i)] + asked, c.current, prop, i, n)
      && |asked| + i == n + Losses(inputs, c.state.GetPropertyResponse?) + (if c.state.GetPropertyRequest? then 1 else 0)
      && !r.walk.on && r.state.GetPropertyRequest? && r.props == c.props.(index := c.props.index + 1)
      && r.current == c.current
    decreases |inputs|
  {
    hide Step, Fits, Settled, Ended;
    var input, rest := inputs[0], inputs[1..];
    WalkTurn(env, c, prop, n, i, input);
    RunTurn(env, c, inputs);
    var c1 := Step(env, c, input);
    var r := Run(env, c, inputs);
    if c1.walk.on {
      WalkAsksInOrder(env, c1, prop, n, c1.walk.index, rest);
      assert r.log[|c.log|..] == c1.log[|c.log|..] + r.log[|c1.log|..];
    } else {
      assert rest == [];
    }
  }

  /** About to ask for a whole array, or waiting for it. */
  ghost predicate WantsArray(env: Env, c: Core, prop: nat) {
    && Inv(c) && !Finished(c) && !c.walk.on && IsArray(prop)
    && (c.state.GetPropertyRequest? || (c.state.GetPropertyResponse? && !c.error && c.longArray && Settled(env, c)))
    && var p := Rebuilt(env, c).props; p.index < p.length < |p.list| && p.list[p.index] == prop
  }

  /** The request for the whole array; afterwards the list is settled. */
  lemma {:induction false} AsksForAll(env: Env, c: Core, prop: nat, input: Input)
    requires WantsArray(env, c, prop) && c.state.GetPropertyRequest? && input.sentId > 0 && Fits(input)
    ensures var r := Step(env, c, input);
      && WantsArray(env, r, prop) && r.state.GetPropertyResponse? && r.props == Rebuilt(env, r).props == Rebuilt(env, c).props
      && r.log == c.log + [Asked(c.current, prop, ARRAY_ALL)] && r.current == c.current
  {
    StepKeepsInv(env, c, input);
    AskingSettles(env, c.(error := false), input.sentId);
    RebuiltIsEnded(env, c);
    assert Rebuilt(env, c.(error := false)).props == Rebuilt(env, c).props;
    hide Rebuilt, Filled, Wanted;
    SettledStays(env, ReadProperties(env, c.(error := false), input.sentId), Step(env, c, input));
  }

  /** A refusal starts the walk; a loss has the whole array asked for again. */
  lemma WaitsForAll(env: Env, c: Core, prop: nat, n: uint32, input: Input)
    requires WantsArray(env, c, prop) && c.state.GetPropertyResponse? && Fits(input) && n < UINT32 - 1
    requires Idle(input) || Lost(input) || (Refused(input) && StartsWalk(input.error.value))
    ensures var r := Step(env, c, input);
      && r.props == c.props == Rebuilt(env, c).props && r.log == c.log && r.current == c.current
      && (r.state.GetPropertyResponse? <==> Idle(input))
      && if Refused(input) then Walking(env, r, prop, n, 0) && r.state.GetPropertyRequest?
         else WantsArray(env, r, prop) && Rebuilt(env, r).props == c.props
  {
    hide Filled, Wanted, Rebuilt, Ended;
    StepKeepsInv(env, c, input);
    SettledStays(env, c, Step(env, c, input));
  }

  /** What has been asked for: the whole array, again after a loss, and then its
      elements from 0. */
  ghost predicate AllThenElements(asked: seq<Asked>, target: ObjectId, prop: int, n: nat)
    decreases |asked|
  {
    && asked != [] && asked[0] == Asked(target, prop, ARRAY_ALL)
    && (AllThenElements(asked[1..], target, prop, n) || Covers(asked[1..], target, prop, 0, n))
  }

  /** A long array that the device will not give as a whole is asked for as a
      whole and then at 0, 1, ..., n, before the next property. */
  lemma {:induction false} RefusedArrayIsWalked(env: Env, c: Core, prop: nat, n: uint32, inputs: seq<Input>)
    requires WantsArray(env, c, prop) && n < UINT32 - 1 && forall input <- inputs :: Fits(input)
    requires RefusedThenReads(inputs, prop, n, c.state.GetPropertyResponse?)
    ensures var r := Run(env, c, inputs); var p := Rebuilt(env, c).props;
      && c.log <= r.log
      && var asked := r.log[|c.log|..]; var all := Asked(c.current, prop, ARRAY_ALL);
      && AllThenElements(if c.state.GetPropertyRequest? then asked else [all] + asked, c.current, prop, n)
      && |asked| == n + 1 + Losses(inputs, c.state.GetPropertyResponse?) + (if c.state.GetPropertyRequest? then 1 else 0)
      && !r.walk.on && r.state.GetPropertyRequest? && r.props == p.(index := p.index + 1) && r.current == c.current
    decreases |inputs|
  {
    hide Step, Fits, Settled, Ended, Rebuilt, Covers;
    var input, rest := inputs[0], inputs[1..];
    RunTurn(env, c, inputs);
    var c1 := Step(env, c, input);
    var r := Run(env, c, inputs);
    if c.state.GetPropertyRequest? {
      AsksForAll(env, c, prop, input);
      RefusedArrayIsWalked(env, c1, prop, n, rest);
      assert r.log[|c.log|..] == [Asked(c.current, prop, ARRAY_ALL)] + r.log[|c1.log|..];
    } else {
      WaitsForAll(env, c, prop, n, input);
      if Refused(input) {
        WalkAsksInOrder(env, c1, prop, n, 0, rest);
      } else {
        RefusedArrayIsWalked(env, c1, prop, n, rest);
      }
    }
  }

  /** Without losses: one request for the whole, one for each element. */
  lemma RefusedArrayIsWalkedOnce(env: Env, c: Core, prop: nat, n: uint32, inputs: seq<Input>)
    requires WantsArray(env, c, prop) && c.state.GetPropertyRequest? && n < UINT32 - 1 && forall input <- inputs :: Fits(input)
    requires RefusedThenReads(inputs, prop, n, false) && Losses(inputs, false) == 0
    ensures Run(env, c, inputs).log == c.log + [Asked(c.current, prop, ARRAY_ALL)] + Indices(c.current, prop, 0, n)
  {
    assert Inv(c);
    hide WantsArray, RefusedThenReads, Losses, Covers, Indices, Run, AllThenElements, Rebuilt, Inv, Fits;
    RefusedArrayIsWalked(env, c, prop, n, inputs);
    LogFrom(c.log, Run(env, c, inputs).log, c.current, prop, n);
  }

  lemma LogFrom(before: seq<Asked>, log: seq<Asked>, target: ObjectId, prop: int, n: nat)
    requires n + 1 < UINT32 && before <= log && |log| == |before| + n + 2
    requires AllThenElements(log[|before|..], target, prop, n)
    ensures log == before + [Asked(target, prop, ARRAY_ALL)] + Indices(target, prop, 0, n)
  {
    hide AllThenElements, Indices;
    AllOnce(log[|before|..], target, prop, n);
    assert log == before + log[|before|..];
  }

  lemma {:induction false} AllOnce(asked: seq<Asked>, target: ObjectId, prop: int, n: nat)
    requires n + 1 < UINT32 && AllThenElements(asked, target, prop, n)
    ensures |asked| >= n + 2
    ensures |asked| == n + 2 ==> asked == [Asked(target, prop, ARRAY_ALL)] + Indices(target, prop, 0, n)
    decreases |asked|
  {
    if Covers(asked[1..], target, prop, 0, n) {
      CoversOnce(asked[1..], target, prop, 0, n);
    } else {
      AllOnce(asked[1..], target, prop, n);
    }
  }

  /** A property that cannot be read as a whole is walked if it is a long array
      the device knows; any other is skipped. */
  lemma FallsBackToWalk(env: Env, c: Core, n: uint32, input: Input)
    requires Inv(c) && c.state.GetPropertyResponse? && Fits(input) && Refused(input) && n < UINT32 - 1
    ensures var r := Step(env, c, input); var problem := input.error.value;
      && r.log == c.log && r.current == c.current
      && if c.longArray && StartsWalk(problem) then
           r.state.GetPropertyRequest? && r.walk == Walk(true, 0, 0) && r.props == c.props
         else
           && r.walk == c.walk && r.props == c.props.(index := c.props.index + 1)
           && (r.state.GetPropertyRequest? <==> r.props.index < r.props.length)
           && (r.state.NextObject? <==> r.props.index == r.props.length)
  {
    hide Ended;
  }

  /** Read_Properties leaves a list that it would build again as it is. */
  lemma AskingSettles(env: Env, c: Core, sentId: byte)
    requires Inv(c) && c.state.GetPropertyRequest?
    ensures Settled(env, ReadProperties(env, c, sentId))
  {
    var items := Wanted(env, c.current.kind);
    var b := Rebuilt(env, c);
    if (!c.hasRpm && c.props.index == 0) || c.props.length == 0 {
      FilledTwice(c.props.list, items);
    }
    hide Filled, Wanted;
    assert Rebuilt(env, b).props == b.props;
    SettledStays(env, b, ReadProperties(env, c, sentId));
  }

  lemma FilledTwice(list: seq<int>, items: seq<nat>)
    requires |items| < |list|
    ensures Filled(Filled(list, items), items) == Filled(list, items)
  {
  }

  // ---- From object to object ----

  function NoDevices(keys: seq<ObjectId>): seq<ObjectId> {
    if keys == [] then [] else (if keys[0].kind == OBJECT_DEVICE then [] else [keys[0]]) + NoDevices(keys[1..])
  }

  lemma {:induction false} SkipsDevices(keys: seq<ObjectId>, from: nat)
    requires from <= |keys|
    ensures var k := NextKey(keys, from);
      NoDevices(keys[from..]) == if k < |keys| then [keys[k]] + NoDevices(keys[k + 1..]) else []
    decreases |keys| - from
  {
    if from == |keys| {
    } else {
      assert keys[from..][0] == keys[from] && keys[from..][1..] == keys[from + 1..];
      if keys[from].kind == OBJECT_DEVICE {
        SkipsDevices(keys, from + 1);
      }
    }
  }

  /** Where NEXT_OBJECT starts to look. */
  function LooksFrom(c: Core): int {
    if c.current.kind == OBJECT_DEVICE then 0 else c.cursor + 1
  }

  /** Only the device is asked for, and it is the device's turn. */
  predicate LeavesAfterDevice(env: Env, c: Core) {
    c.current.kind == OBJECT_DEVICE && env.deviceObjectOnly
  }

  lemma MovesTo(env: Env, c: Core)
    requires !LeavesAfterDevice(env, c) && 0 <= LooksFrom(c) <= |c.keys|
    ensures var next := ToNextObject(env, c); var k := NextKey(c.keys, LooksFrom(c));
      && next.keys == c.keys
      && if k < |c.keys| then next.current == c.keys[k] && next.cursor == k else Finished(next)
  {
    hide NextKey;
  }

  /** The objects that the NEXT_OBJECT turns of a run move to. */
  ghost function Visited(env: Env, c: Core, inputs: seq<Input>): seq<ObjectId>
    requires Inv(c) && forall input <- inputs :: Fits(input)
    decreases |inputs|
  {
    if inputs == [] || Finished(c) then []
    else
      StepKeepsInv(env, c, inputs[0]);
      var next := Step(env, c, inputs[0]);
      (if c.state.NextObject? && !Finished(next) then [next.current] else []) + Visited(env, next, inputs[1..])
  }

  /** What is left to visit; nothing if the place is past the end of the list. */
  function ToVisit(env: Env, c: Core): seq<ObjectId> {
    if Finished(c) || LeavesAfterDevice(env, c) || !(0 <= LooksFrom(c) <= |c.keys|) then []
    else NoDevices(c.keys[LooksFrom(c)..])
  }

  // ---- What a listed object does to the visits ----

  /** Where AddKey puts the key. */
  function Place(keys: seq<ObjectId>, k: ObjectId): (q: nat)
    ensures q <= |keys|
  {
    if keys == [] || !Less(keys[0], k) then 0 else 1 + Place(keys[1..], k)
  }

  lemma {:induction false} AddKeyAt(keys: seq<ObjectId>, k: ObjectId)
    ensures var q := Place(keys, k);
      && AddKey(keys, k) == keys[..q] + [k] + keys[q..]
      && (forall i :: 0 <= i < q ==> Less(keys[i], k))
  {
    if keys == [] || !Less(keys[0], k) {
    } else {
      AddKeyAt(keys[1..], k);
      assert keys == [keys[0]] + keys[1..];
    }
  }

  lemma {:induction false} NoDevicesAppend(a: seq<ObjectId>, b: seq<ObjectId>)
    ensures NoDevices(a + b) == NoDevices(a) + NoDevices(b)
  {
    if a == [] {
      assert a + b == b;
    } else {
      assert (a + b)[1..] == a[1..] + b;
      NoDevicesAppend(a[1..], b);
    }
  }

  lemma {:induction false} NoDevicesAmong(keys: seq<ObjectId>)
    ensures |NoDevices(keys)| <= |keys|
    ensures forall k <- NoDevices(keys) :: k in keys && k.kind != OBJECT_DEVICE
  {
    if keys == [] {
    } else {
      NoDevicesAmong(keys[1..]);
    }
  }

  /** What one key counts for. */
  function Single(k: ObjectId): seq<ObjectId> {
    if k.kind == OBJECT_DEVICE then [] else [k]
  }

  lemma {:induction false} NoDevicesIn(a: seq<ObjectId>, k: ObjectId, b: seq<ObjectId>)
    ensures NoDevices(a + [k] + b) == NoDevices(a) + Single(k) + NoDevices(b)
  {
    NoDevicesAppend(a + [k], b);
    NoDevicesAppend(a, [k]);
    assert [k][1..] == [];
    assert NoDevices([k]) == Single(k);
    hide NoDevices;
  }

  lemma ShiftDiffers(x: seq<ObjectId>, a: seq<ObjectId>, v: seq<ObjectId>)
    requires |x| <= 1 && |v| <= 1
    requires forall k <- x + a, l <- v :: Less(k, l)
    ensures x + a == a + v <==> x == [] && v == []
  {
    if v == [] {
      assert a + v == a;
    } else if |x| == |v| {
      var k := (x + a)[|a|];
      assert k in x + a && Less(k, v[0]);
      assert (a + v)[|a|] == v[0] != k;
    }
  }

  /** Dropping a smaller key in front and adding one behind makes a difference,
      unless neither is to be visited. */
  lemma DropAndAdd(x: ObjectId, a: seq<ObjectId>, v: ObjectId, b: seq<ObjectId>)
    requires Less(x, v) && forall k <- a :: Less(k, v)
    ensures NoDevices([x] + a + b) == NoDevices(a + [v] + b) <==> x.kind == OBJECT_DEVICE && v.kind == OBJECT_DEVICE
  {
    hide NoDevices;
    var na, nb, sx, sv := NoDevices(a), NoDevices(b), Single(x), Single(v);
    InFront(x, a, b);
    NoDevicesIn(a, v, b);
    NoDevicesAmong(a);
    SameFront(sx + na, na + sv, nb);
    ShiftDiffers(sx, na, sv);
  }

  lemma {:induction false} InFront(x: ObjectId, a: seq<ObjectId>, b: seq<ObjectId>)
    ensures NoDevices([x] + a + b) == Single(x) + NoDevices(a) + NoDevices(b)
  {
    hide NoDevices;
    NothingToVisit();
    NoDevicesIn([], x, a + b);
    NoDevicesAppend(a, b);
    assert [] + [x] + (a + b) == [x] + a + b;
    assert [] + Single(x) + (NoDevices(a) + NoDevices(b)) == Single(x) + NoDevices(a) + NoDevices(b);
  }

  lemma SameFront(a: seq<ObjectId>, b: seq<ObjectId>, c: seq<ObjectId>)
    ensures a + c == b + c <==> a == b
  {
    if a + c == b + c {
      assert |a| == |b|;
      assert a == (a + c)[..|a|] && b == (b + c)[..|b|];
    }
  }

  /** The value can be printed without a change to what is to be visited.  Of the
      device's own list that is so for devices.  Later, a value of a whole array
      moves the place on by one: its key has to come no later than the place,
      or nothing is there to visit and nothing comes in.  In a walk the place
      stays: a key before it pushes back the current object, one behind is new. */
  predicate Harmless(c: Core, p: Property, v: Value) {
    p.id == PROP_OBJECT_LIST ==>
      var s, n := LooksFrom(c), |c.keys|;
      if c.current.kind == OBJECT_DEVICE then v.Id? ==> v.id.kind == OBJECT_DEVICE
      else if c.walk.on then
        v.Id? ==>
          if Place(c.keys, v.id) < s then n < s || c.keys[s - 1].kind == OBJECT_DEVICE
          else v.id.kind == OBJECT_DEVICE
      else
        || (v.Id? && Place(c.keys, v.id) <= s)
        || n <= s
        || (0 <= s && c.keys[s].kind == OBJECT_DEVICE && (v.Id? ==> v.id.kind == OBJECT_DEVICE))
  }

  /** What a printed value does to the keys and the place. */
  lemma {:induction false} ValueMoves(c: Core, p: Property, v: Value)
    ensures var r := ArrayValue(c, p, v); var listed := p.id == PROP_OBJECT_LIST;
      && r.keys == (if listed && v.Id? then AddKey(c.keys, v.id) else c.keys)
      && r.cursor == (if listed && !c.walk.on then c.cursor + 1 else c.cursor)
      && r.current == c.current && r.walk.on == c.walk.on
  {
    hide AddKey, Counted, Kept;
    CountedMoves(c, p);
    KeptMoves(Counted(c, p), p, v);
  }

  lemma CountedMoves(c: Core, p: Property)
    ensures var r := Counted(c, p);
      && r.keys == c.keys && r.current == c.current && r.walk.on == c.walk.on
      && r.cursor == (if p.id == PROP_OBJECT_LIST && !c.walk.on then c.cursor + 1 else c.cursor)
  {}

  lemma KeptMoves(c: Core, p: Property, v: Value)
    ensures var r := Kept(c, p, v);
      && r.keys == (if p.id == PROP_OBJECT_LIST && v.Id? then AddKey(c.keys, v.id) else c.keys)
      && r.cursor == c.cursor && r.current == c.current && r.walk.on == c.walk.on
  {
    hide AddKey;
  }

  lemma AddedAhead(keys: seq<ObjectId>, k: ObjectId)
    ensures NoDevices(AddKey(keys, k)) == NoDevices(keys) <==> k.kind == OBJECT_DEVICE
  {
    AddKeyAt(keys, k);
    var q := Place(keys, k);
    NoDevicesIn(keys[..q], k, keys[q..]);
    NoDevicesAppend(keys[..q], keys[q..]);
    assert keys[..q] + keys[q..] == keys;
  }

  /** The place moves on and no key is added. */
  lemma OneDropped(keys: seq<ObjectId>, s: nat)
    requires s < |keys|
    ensures NoDevices(keys[s + 1..]) == NoDevices(keys[s..]) <==> keys[s].kind == OBJECT_DEVICE
  {
    assert keys[s..] == [] + [keys[s]] + keys[s + 1..];
    NoDevicesIn([], keys[s], keys[s + 1..]);
  }

  /** The keys from a place on, around the new one. */
  lemma TailOfAdded(keys: seq<ObjectId>, k: ObjectId, s: nat)
    requires s <= |keys|
    ensures var q, r := Place(keys, k), AddKey(keys, k);
      && (q <= s ==> r[s + 1..] == keys[s..])
      && (q >= s ==> r[s..] == keys[s..q] + [k] + keys[q..] && keys[s..] == keys[s..q] + keys[q..])
      && forall x <- keys[..q] :: Less(x, k)
  {
    AddKeyAt(keys, k);
    hide AddKey;
  }

  /** A key that is added while the place stays. */
  lemma AddedInWalk(keys: seq<ObjectId>, k: ObjectId, s: nat)
    requires s <= |keys|
    ensures NoDevices(AddKey(keys, k)[s..]) == NoDevices(keys[s..])
      <==> if Place(keys, k) < s then keys[s - 1].kind == OBJECT_DEVICE else k.kind == OBJECT_DEVICE
  {
    hide AddKey, NoDevices;
    var q := Place(keys, k);
    if q < s {
      TailOfAdded(keys, k, s - 1);
      OneDropped(keys, s - 1);
    } else {
      TailOfAdded(keys, k, s);
      NoDevicesIn(keys[s..q], k, keys[q..]);
      NoDevicesAppend(keys[s..q], keys[q..]);
    }
  }

  /** A key that is added while the place moves on by one. */
  lemma AddedInArray(keys: seq<ObjectId>, k: ObjectId, s: nat)
    requires s <= |keys|
    ensures NoDevices(AddKey(keys, k)[s + 1..]) == NoDevices(keys[s..])
      <==> Place(keys, k) <= s || (keys[s].kind == OBJECT_DEVICE && k.kind == OBJECT_DEVICE)
  {
    hide AddKey, NoDevices;
    var q := Place(keys, k);
    if q <= s {
      TailOfAdded(keys, k, s);
    } else {
      var a, b := keys[s + 1..q], keys[q..];
      TailOfAdded(keys, k, s + 1);
      assert keys[s..] == [keys[s]] + (a + b) == [keys[s]] + a + b;
      AllLess(keys, q, s, k);
      DropAndAdd(keys[s], a, k, b);
    }
  }

  lemma AllLess(keys: seq<ObjectId>, q: nat, s: nat, k: ObjectId)
    requires s < q <= |keys| && forall x <- keys[..q] :: Less(x, k)
    ensures Less(keys[s], k) && forall x <- keys[s + 1..q] :: Less(x, k)
  {
    assert keys[..q][s] == keys[s];
    forall x <- keys[s + 1..q] ensures Less(x, k) {
      var i :| s + 1 <= i < q && keys[i] == x;
      assert keys[..q][i] == x;
    }
  }

  /** Exactly the harmless values change nothing of what is to be visited. */
  lemma {:induction false} HarmlessIff(env: Env, c: Core, p: Property, v: Value)
    requires !Finished(c) && !LeavesAfterDevice(env, c) && c.cursor >= -1
    ensures ToVisit(env, ArrayValue(c, p, v)) == ToVisit(env, c) <==> Harmless(c, p, v)
  {
    hide AddKey, ArrayValue, NoDevices;
    ValueMoves(c, p, v);
    var s, keys := LooksFrom(c), c.keys;
    if p.id == PROP_OBJECT_LIST {
      if v.Id? {
        AddKeyAt(keys, v.id);
      }
      if c.current.kind == OBJECT_DEVICE {
        if v.Id? {
          AddedAhead(keys, v.id);
          assert keys[0..] == keys && AddKey(keys, v.id)[0..] == AddKey(keys, v.id);
        }
      } else if |keys| < s {
        assert v.Id? && s == |keys| + 1 ==> AddKey(keys, v.id)[s..] == [];
        NothingToVisit();
      } else if c.walk.on {
        if v.Id? {
          AddedInWalk(keys, v.id, s);
        }
      } else if v.Id? {
        AddedInArray(keys, v.id, s);
      } else if s < |keys| {
        OneDropped(keys, s);
      } else {
        assert keys[s..] == [];
        NothingToVisit();
      }
    }
  }

  lemma NothingToVisit()
    ensures NoDevices([]) == []
  {}

  /** Value by value. */
  predicate HarmlessValues(c: Core, p: Property, values: seq<Value>)
    decreases |values|
  {
    values == [] || (Harmless(c, p, values[0]) && HarmlessValues(ArrayValue(c, p, values[0]), p, values[1..]))
  }

  predicate HarmlessProperty(c: Core, p: Property) {
    IsArray(p.id) ==>
      HarmlessValues(if p.values == [] || c.walk.on then c else c.(walk := c.walk.(index := 0, length := 0)), p, p.values)
  }

  predicate HarmlessAll(c: Core, ps: seq<Property>)
    decreases |ps|
  {
    ps == [] || (HarmlessProperty(c, ps[0]) && HarmlessAll(Printed(c, ps[0]), ps[1..]))
  }

  /** What is printed of a reply. */
  function PrintedOf(c: Core, input: Input): seq<Property> {
    if input.data.None? then []
    else if c.state.GetAllResponse? then input.data.value
    else if c.state.GetPropertyResponse? && input.data.value != [] then [input.data.value[0]]
    else []
  }

  predicate HarmlessTurn(c: Core, input: Input) {
    HarmlessAll(Reported(c, input), PrintedOf(c, input))
  }

  ghost predicate HarmlessRun(env: Env, c: Core, inputs: seq<Input>)
    requires Inv(c) && forall input <- inputs :: Fits(input)
    decreases |inputs|
  {
    inputs == [] || Finished(c)
    || (HarmlessTurn(c, inputs[0])
        && (StepKeepsInv(env, c, inputs[0]); HarmlessRun(env, Step(env, c, inputs[0]), inputs[1..])))
  }

  /** Same keys, place and current object, and with it the same left to visit. */
  predicate SamePlace(c: Core, r: Core) {
    r.keys == c.keys && r.cursor == c.cursor && r.current == c.current && r.asserted == c.asserted
  }

  lemma {:induction false} ValuesKeepVisits(env: Env, c: Core, p: Property, values: seq<Value>)
    requires HarmlessValues(c, p, values) && !Finished(c) && !LeavesAfterDevice(env, c) && c.cursor >= -1
    ensures ToVisit(env, ArrayValues(c, p, values)) == ToVisit(env, c)
    decreases |values|
  {
    hide Harmless, ToVisit, ArrayValue;
    if values == [] {
    } else {
      HarmlessIff(env, c, p, values[0]);
      ArrayValueKeeps(c, p, values[0]);
      ValuesKeepVisits(env, ArrayValue(c, p, values[0]), p, values[1..]);
    }
  }

  lemma PrintedKeepsVisits(env: Env, c: Core, p: Property)
    requires HarmlessProperty(c, p) && !Finished(c) && !LeavesAfterDevice(env, c) && c.cursor >= -1
    ensures ToVisit(env, Printed(c, p)) == ToVisit(env, c)
  {
    hide HarmlessValues, ArrayValues;
    if p.values != [] && IsArray(p.id) {
      ValuesKeepVisits(env, if c.walk.on then c else c.(walk := c.walk.(index := 0, length := 0)), p, p.values);
    }
  }

  lemma {:induction false} PrintedAllKeepsVisits(env: Env, c: Core, ps: seq<Property>)
    requires HarmlessAll(c, ps) && !Finished(c) && !LeavesAfterDevice(env, c) && c.cursor >= -1
    ensures ToVisit(env, PrintedAll(c, ps)) == ToVisit(env, c)
    decreases |ps|
  {
    hide Printed, HarmlessProperty, ToVisit;
    if ps == [] {
    } else {
      PrintedKeepsVisits(env, c, ps[0]);
      PrintedKeeps(c, ps[0]);
      PrintedAllKeepsVisits(env, Printed(c, ps[0]), ps[1..]);
    }
  }

  // ---- One turn that is not NEXT_OBJECT ----

  /** It prints what it prints, and leaves the place alone otherwise. */
  lemma {:induction false} OtherTurnsPrint(env: Env, c: Core, input: Input)
    requires Inv(c) && Fits(input) && !c.state.NextObject?
    ensures SamePlace(PrintedAll(Reported(c, input), PrintedOf(c, input)), Step(env, c, input))
  {
    hide Ended, Response, PropertyResponse, ReadProperties, ListOfAll;
    if c.state.GetPropertyRequest? {
      RequestStays(env, c.(error := false), input.sentId);
    } else if c.state.GetPropertyResponse? {
      PropertyReplyPrints(c, input);
    } else if Responding(c.state) {
      ReplyPrints(c, input);
    }
  }

  lemma {:induction false} ReplyPrints(c: Core, input: Input)
    requires |c.props.list| == LIST_SIZE && Fits(input) && Responding(c.state)
    ensures SamePlace(PrintedAll(Reported(c, input), PrintedOf(c, input)), Response(c, input))
  {
    assert PrintedAll(Reported(c, input), []) == Reported(c, input);
    hide ListOfAll, Filled, Freed, Processed, PrintedAll;
    var c1 := Reported(c, input);
    FreedStays(c1);
    if input.data.Some? {
      ProcessedPrints(c1, input.data.value);
    }
  }

  lemma ProcessedPrints(c: Core, ps: seq<Property>)
    requires |c.props.list| == LIST_SIZE && |ListOfAll(ps)| < MAX_PROPS && Responding(c.state)
    ensures SamePlace(if c.state.GetAllResponse? then PrintedAll(c, ps) else c, Processed(c, ps))
  {
    hide ListOfAll, Filled, PrintedAll;
  }

  lemma FreedStays(c: Core)
    ensures SamePlace(c, Freed(c))
  {}

  lemma AdvancedStays(c: Core)
    ensures SamePlace(c, PropertyFreed(c)) && SamePlace(c, Goto(Advanced(c), GetPropertyRequest))
  {}

  lemma {:induction false} PropertyReplyPrints(c: Core, input: Input)
    requires c.state.GetPropertyResponse?
    ensures SamePlace(PrintedAll(Reported(c, input), PrintedOf(c, input)), PropertyResponse(c, input))
  {
    var c1 := Reported(c, input);
    AdvancedStays(c1);
    if input.data.Some? && input.data.value != [] {
      assert [input.data.value[0]][1..] == [];
      AdvancedStays(Printed(c1, input.data.value[0]));
    }
    hide Printed, PrintedAll, PropertyFreed, Advanced;
  }

  lemma RequestStays(env: Env, c: Core, sentId: byte)
    requires |c.props.list| == LIST_SIZE && c.props.index < LIST_SIZE
    ensures SamePlace(c, ReadProperties(env, c, sentId))
  {
    hide Filled, Wanted;
  }

  // ---- Every run visits what is left ----

  /** Object types have ten bits. */
  predicate TenBits(keys: seq<ObjectId>) {
    forall k <- keys :: k.kind < MAX_BACNET_OBJECT_TYPE
  }

  /** The object identifiers in the values of object lists. */
  function Ids(values: seq<Value>): seq<ObjectId> {
    if values == [] then [] else (if values[0].Id? then [values[0].id] else []) + Ids(values[1..])
  }

  function ListedIn(ps: seq<Property>): seq<ObjectId> {
    if ps == [] then [] else (if ps[0].id == PROP_OBJECT_LIST then Ids(ps[0].values) else []) + ListedIn(ps[1..])
  }

  /** All that a run stores of the object lists it prints. */
  ghost function Listed(env: Env, c: Core, inputs: seq<Input>): seq<ObjectId>
    requires Inv(c) && forall input <- inputs :: Fits(input)
    decreases |inputs|
  {
    if inputs == [] || Finished(c) then []
    else
      StepKeepsInv(env, c, inputs[0]);
      ListedIn(PrintedOf(c, inputs[0])) + Listed(env, Step(env, c, inputs[0]), inputs[1..])
  }

  function AddKeys(keys: seq<ObjectId>, ids: seq<ObjectId>): seq<ObjectId>
    decreases |ids|
  {
    if ids == [] then keys else AddKeys(AddKey(keys, ids[0]), ids[1..])
  }

  lemma {:induction false} AddKeysAppend(keys: seq<ObjectId>, a: seq<ObjectId>, b: seq<ObjectId>)
    ensures AddKeys(keys, a + b) == AddKeys(AddKeys(keys, a), b)
    decreases |a|
  {
    if a == [] {
      assert a + b == b;
    } else {
      assert (a + b)[1..] == a[1..] + b;
      AddKeysAppend(AddKey(keys, a[0]), a[1..], b);
    }
  }

  lemma {:induction false} ValuesAreListed(c: Core, p: Property, values: seq<Value>)
    ensures ArrayValues(c, p, values).keys == if p.id == PROP_OBJECT_LIST then AddKeys(c.keys, Ids(values)) else c.keys
    decreases |values|
  {
    hide ArrayValue, AddKey;
    if values == [] {
    } else {
      ValueMoves(c, p, values[0]);
      ValuesAreListed(ArrayValue(c, p, values[0]), p, values[1..]);
      var id := if values[0].Id? then [values[0].id] else [];
      assert Ids(values) == id + Ids(values[1..]);
      AddKeysAppend(c.keys, id, Ids(values[1..]));
      assert AddKeys(c.keys, id) == if values[0].Id? then AddKey(c.keys, values[0].id) else c.keys by {
        assert id != [] ==> id[1..] == [];
      }
    }
  }

  lemma {:induction false} PropertiesAreListed(c: Core, ps: seq<Property>)
    ensures PrintedAll(c, ps).keys == AddKeys(c.keys, ListedIn(ps))
    decreases |ps|
  {
    assert Ids([]) == [];
    hide ArrayValues, AddKey, Ids;
    if ps == [] {
    } else {
      var p := ps[0];
      var c1 := if c.walk.on then c else c.(walk := c.walk.(index := 0, length := 0));
      ValuesAreListed(c1, p, p.values);
      PropertiesAreListed(Printed(c, p), ps[1..]);
      AddKeysAppend(c.keys, if p.id == PROP_OBJECT_LIST then Ids(p.values) else [], ListedIn(ps[1..]));
    }
  }

  /** In every run the keys are those at the start and all ids listed since. */
  lemma {:induction false} KeysAreListed(env: Env, c: Core, inputs: seq<Input>)
    requires Inv(c) && forall input <- inputs :: Fits(input)
    ensures Run(env, c, inputs).keys == AddKeys(c.keys, Listed(env, c, inputs))
    decreases |inputs|
  {
    assert AddKeys(c.keys, []) == c.keys;
    hide Step, Fits, Ended, AddKeys, ListedIn, PrintedOf;
    if inputs == [] || Finished(c) {
    } else {
      assert Fits(inputs[0]);
      RunTurn(env, c, inputs);
      TurnListsKeys(env, c, inputs[0]);
      var next := Step(env, c, inputs[0]);
      KeysAreListed(env, next, inputs[1..]);
      AddKeysAppend(c.keys, ListedIn(PrintedOf(c, inputs[0])), Listed(env, next, inputs[1..]));
    }
  }

  lemma TurnListsKeys(env: Env, c: Core, input: Input)
    requires Inv(c) && Fits(input)
    ensures Step(env, c, input).keys == AddKeys(c.keys, ListedIn(PrintedOf(c, input)))
  {
    if c.state.NextObject? {
      assert PrintedOf(c, input) == [];
    } else {
      hide Step, PrintedAll, PrintedOf, AddKeys, ListedIn;
      OtherTurnsPrint(env, c, input);
      PropertiesAreListed(Reported(c, input), PrintedOf(c, input));
    }
  }

  /** One NEXT_OBJECT turn takes the first of what is left to visit. */
  lemma VisitsNext(env: Env, c: Core)
    requires Inv(c) && !Finished(c) && TenBits(c.keys)
    ensures var next := ToNextObject(env, c);
      if Finished(next) then ToVisit(env, c) == [] else ToVisit(env, c) == [next.current] + ToVisit(env, next)
  {
    hide NextKey, NoDevices, Ended;
    if !LeavesAfterDevice(env, c) && LooksFrom(c) <= |c.keys| {
      MovesTo(env, c);
      SkipsDevices(c.keys, LooksFrom(c));
    }
  }

  lemma {:induction false} VisitTurn(env: Env, c: Core, input: Input)
    requires Inv(c) && Fits(input) && HarmlessTurn(c, input) && !Finished(c) && TenBits(c.keys)
    ensures var next := Step(env, c, input);
      if c.state.NextObject? && Finished(next) then ToVisit(env, c) == []
      else
        && !Finished(next)
        && ToVisit(env, c) == (if c.state.NextObject? then [next.current] else []) + ToVisit(env, next)
  {
    if c.state.NextObject? {
      hide NoDevices, Inv, ToNextObject, ToVisit;
      VisitsNext(env, c);
    } else {
      hide Step, NoDevices, HarmlessTurn, Ended, ToVisit;
      OtherTurnsKeepVisits(env, c, input);
    }
  }

  lemma {:induction false} OtherTurnsKeepVisits(env: Env, c: Core, input: Input)
    requires Inv(c) && Fits(input) && HarmlessTurn(c, input) && !Finished(c) && !c.state.NextObject?
    ensures ToVisit(env, Step(env, c, input)) == ToVisit(env, c) && Step(env, c, input).current == c.current
  {
    hide Step, NoDevices, PrintedAll, HarmlessAll, PrintedOf, Ended, Fits;
    var c1, ps := Reported(c, input), PrintedOf(c, input);
    OtherTurnsPrint(env, c, input);
    PrintedAllKeeps(c1, ps);
    if !LeavesAfterDevice(env, c) {
      PrintedAllKeepsVisits(env, c1, ps);
    }
  }

  /** The NEXT_OBJECT turns of any run of harmless turns move to the objects that
      are left, in order and no device among them; a run that comes to its end
      has visited them all. */
  lemma {:induction false} VisitsEveryObject(env: Env, c: Core, inputs: seq<Input>)
    requires Inv(c) && (forall input <- inputs :: Fits(input)) && !Finished(c)
    requires HarmlessRun(env, c, inputs) && TenBits(c.keys) && TenBits(Listed(env, c, inputs))
    ensures var r := Run(env, c, inputs); var visited := Visited(env, c, inputs);
      && visited <= ToVisit(env, c)
      && (if Finished(r) then visited == ToVisit(env, c) else visited + ToVisit(env, r) == ToVisit(env, c))
    decreases |inputs|
  {
    hide Step, Fits, Ended, ToVisit, ToNextObject, HarmlessTurn, LeavesAfterDevice, TenBits, ListedIn, PrintedOf;
    if inputs == [] {
    } else {
      assert Fits(inputs[0]);
      RunTurn(env, c, inputs);
      VisitTurn(env, c, inputs[0]);
      TurnListsKeys(env, c, inputs[0]);
      var next := Step(env, c, inputs[0]);
      if !Finished(next) {
        TenBitsSplit(c.keys, ListedIn(PrintedOf(c, inputs[0])), Listed(env, next, inputs[1..]));
        VisitsEveryObject(env, next, inputs[1..]);
      }
    }
  }

  lemma TenBitsSplit(keys: seq<ObjectId>, a: seq<ObjectId>, b: seq<ObjectId>)
    requires TenBits(keys) && TenBits(a + b)
    ensures TenBits(AddKeys(keys, a)) && TenBits(b)
  {
    assert forall k <- a :: k in a + b;
    assert forall k <- b :: k in a + b;
    AddKeysSort(keys, a);
    forall k <- AddKeys(keys, a) ensures k.kind < MAX_BACNET_OBJECT_TYPE {
      assert k in multiset(AddKeys(keys, a));
      assert k in keys || k in a;
    }
  }

  // ---- From the device's object list to the visits ----

  ghost predicate Sorted(keys: seq<ObjectId>) {
    forall i, j :: 0 <= i < j < |keys| ==> !Less(keys[j], keys[i])
  }

  lemma {:induction false} AddKeySorts(keys: seq<ObjectId>, k: ObjectId)
    ensures multiset(AddKey(keys, k)) == multiset(keys) + multiset{k}
    ensures Sorted(keys) ==> Sorted(AddKey(keys, k))
  {
    AddKeyAt(keys, k);
    var q, r := Place(keys, k), AddKey(keys, k);
    assert keys == keys[..q] + keys[q..];
    if Sorted(keys) {
      NotLessFrom(keys, k);
      forall i, j | 0 <= i < j < |r| ensures !Less(r[j], r[i]) {
        assert r[i] == if i < q then keys[i] else if i == q then k else keys[i - 1];
        assert r[j] == if j < q then keys[j] else if j == q then k else keys[j - 1];
      }
    }
  }

  lemma NotLessFrom(keys: seq<ObjectId>, k: ObjectId)
    requires Sorted(keys)
    ensures forall j :: Place(keys, k) <= j < |keys| ==> !Less(keys[j], k)
  {
    StopsAt(keys, k);
    var q := Place(keys, k);
    forall j | q <= j < |keys| ensures !Less(keys[j], k) {
      assert j > q ==> !Less(keys[j], keys[q]);
    }
  }

  lemma {:induction false} StopsAt(keys: seq<ObjectId>, k: ObjectId)
    ensures var q := Place(keys, k); q < |keys| ==> !Less(keys[q], k)
  {
    if keys == [] || !Less(keys[0], k) {
    } else {
      StopsAt(keys[1..], k);
    }
  }

  lemma {:induction false} AddKeysSort(keys: seq<ObjectId>, ids: seq<ObjectId>)
    ensures multiset(AddKeys(keys, ids)) == multiset(keys) + multiset(ids)
    ensures Sorted(keys) ==> Sorted(AddKeys(keys, ids))
    decreases |ids|
  {
    hide Sorted, AddKey;
    if ids == [] {
    } else {
      AddKeySorts(keys, ids[0]);
      AddKeysSort(AddKey(keys, ids[0]), ids[1..]);
      assert ids == [ids[0]] + ids[1..];
    }
  }

  lemma {:induction false} NoDevicesCount(keys: seq<ObjectId>, k: ObjectId)
    ensures multiset(NoDevices(keys))[k] == if k.kind == OBJECT_DEVICE then 0 else multiset(keys)[k]
  {
    if keys == [] {
    } else {
      NoDevicesCount(keys[1..], k);
      assert keys == [keys[0]] + keys[1..];
    }
  }

  lemma {:induction false} NoDevicesSorted(keys: seq<ObjectId>)
    requires Sorted(keys)
    ensures Sorted(NoDevices(keys))
  {
    if keys == [] {
    } else {
      var rest := NoDevices(keys[1..]);
      NoDevicesSorted(keys[1..]);
      NoDevicesAmong(keys[1..]);
      forall i | 0 <= i < |rest| ensures !Less(rest[i], keys[0]) {
        assert rest[i] in keys[1..];
      }
    }
  }

  /** From the start of the scan: once the device itself is done with, a run of
      harmless turns that comes to its end has visited exactly the objects that
      the device listed and that are no devices, each as often as it was listed,
      in the order of type and instance. */
  lemma {:induction false} ListedObjectsAreVisited(env: Env, list: seq<int>, device: nat, before: seq<Input>, later: seq<Input>)
    requires |list| == LIST_SIZE && !env.deviceObjectOnly
    requires (forall input <- before :: Fits(input)) && (forall input <- later :: Fits(input))
    requires var c := Run(env, Start(list, device), before);
      && c.state.NextObject? && c.current.kind == OBJECT_DEVICE
      && HarmlessRun(env, c, later) && TenBits(Listed(env, c, later))
    requires TenBits(Listed(env, Start(list, device), before))
    ensures var listed := NoDevices(Listed(env, Start(list, device), before));
      var c := Run(env, Start(list, device), before);
      var visited := Visited(env, c, later);
      && Sorted(visited)
      && multiset(visited) <= multiset(listed)
      && (Finished(Run(env, c, later)) ==> multiset(visited) == multiset(listed))
  {
    assert Inv(Start(list, device));
    hide Run, Visited, Listed, HarmlessRun, Inv, NoDevices, AddKeys, Fits;
    var ids := Listed(env, Start(list, device), before);
    var c := Run(env, Start(list, device), before);
    KeysAreListed(env, Start(list, device), before);
    assert Start(list, device).keys == [];
    AddKeysSort([], ids);
    TenBitsKeys(c.keys, ids);
    VisitsEveryObject(env, c, later);
    assert c.keys[0..] == c.keys;
    NoDevicesSorted(c.keys);
    SameVisits(c.keys, ids);
    PrefixOfSorted(Visited(env, c, later), NoDevices(c.keys));
  }

  lemma TenBitsKeys(keys: seq<ObjectId>, ids: seq<ObjectId>)
    requires multiset(keys) == multiset(ids) && TenBits(ids)
    ensures TenBits(keys)
  {
    forall k <- keys ensures k.kind < MAX_BACNET_OBJECT_TYPE {
      assert k in multiset(keys);
    }
  }

  lemma SameVisits(keys: seq<ObjectId>, ids: seq<ObjectId>)
    requires multiset(keys) == multiset(ids)
    ensures multiset(NoDevices(keys)) == multiset(NoDevices(ids))
  {
    forall k: ObjectId ensures multiset(NoDevices(keys))[k] == multiset(NoDevices(ids))[k] {
      NoDevicesCount(keys, k);
      NoDevicesCount(ids, k);
    }
  }

  lemma PrefixOfSorted(a: seq<ObjectId>, b: seq<ObjectId>)
    requires a <= b && Sorted(b)
    ensures Sorted(a) && multiset(a) <= multiset(b)
  {
    assert b == a + b[|a|..];
  }

  /** A value of an object list in a later reply moves the place on: the object
      that should have come next is not visited. */
  lemma {:induction false} ListedObjectsSkip(env: Env, c: Core, a: ObjectId, b: ObjectId, device: ObjectId, last: Input)
    requires Inv(c) && c.state.GetAllResponse? && !c.walk.on && c.keys == [a, b] && c.cursor == 0 && c.current == a
    requires a.kind < b.kind < device.kind == OBJECT_DEVICE && Fits(last)
    ensures var reply := Input(true, 0, None, Some([Property(PROP_OBJECT_LIST, ARRAY_ALL, [Id(device)])]), Free);
      && Fits(reply)
      && ToVisit(env, c) == [b]
      && Visited(env, c, [reply, last]) == [] && Finished(Run(env, c, [reply, last]))
  {
    var p := Property(PROP_OBJECT_LIST, ARRAY_ALL, [Id(device)]);
    var reply := Input(true, 0, None, Some([p]), Free);
    assert [a, b][1..] == [b] && [b][1..] == [];
    assert NoDevices([a, b][1..]) == [b];
    var next := Step(env, c, reply);
    ListingStep(env, c, p, reply);
    ListingPrinted(c, p, a, b, device);
    StepKeepsInv(env, c, reply);
    assert NextKey(next.keys, 2) == 3;
    StepKeepsInv(env, next, last);
    hide NextKey, Printed, Inv, Fits, AddKey;
    var done := Step(env, next, last);
    assert Finished(done);
    var inputs := [reply, last];
    assert inputs[1..] == [last] && [last][1..] == [];
    RunTurn(env, c, inputs);
    RunTurn(env, next, [last]);
    hide Step;
    assert Visited(env, done, []) == [] && Run(env, done, []) == done;
    assert Visited(env, next, [last]) == [];
  }

  lemma ListingStep(env: Env, c: Core, p: Property, reply: Input)
    requires Inv(c) && c.state.GetAllResponse? && reply == Input(true, 0, None, Some([p]), Free)
    ensures Fits(reply) && Step(env, c, reply) == Goto(Printed(c, p), NextObject)
  {
    hide Printed, Ended, Filled;
    assert [p][1..] == [] && PrintedAll(c, [p]) == Printed(c, p);
  }

  lemma ListingPrinted(c: Core, p: Property, a: ObjectId, b: ObjectId, device: ObjectId)
    requires !c.walk.on && c.keys == [a, b] && c.cursor == 0 && p == Property(PROP_OBJECT_LIST, ARRAY_ALL, [Id(device)])
    requires a.kind < b.kind < device.kind
    ensures Printed(c, p).keys == [a, b, device] && Printed(c, p).cursor == 1 && Printed(c, p).current == c.current
    ensures Printed(c, p).props == c.props
  {
    assert [a, b][1..] == [b] && [b][1..] == [];
    assert AddKey([], device) == [device];
    assert AddKey([b], device) == [b] + [device];
    assert AddKey([a, b], device) == [a] + [b, device];
    assert p.values[1..] == [];
    var c1 := c.(walk := c.walk.(index := 0, length := 0));
    assert ArrayValues(c1, p, p.values) == ArrayValue(c1, p, Id(device));
    PrintedKeeps(c, p);
  }
}
