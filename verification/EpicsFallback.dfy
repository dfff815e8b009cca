/** How the EPICS scanner falls back: from everything at once to a list of all,
    and to one property at a time; and that it stays there once the device has
    refused ReadPropertyMultiple. */
module EpicsFallback {
  import opened Octets
  import opened Epics

  // ---- One response ----

  /** About to read these properties of the current object one by one. */
  ghost predicate AboutToRead(env: Env, c: Core, items: seq<int>) {
    && Inv(c) && c.state.GetPropertyRequest? && c.props.index == 0
    && var p := Rebuilt(env, c).props;
       p.length == |items| && p.list[..|items|] == items
  }

  /** What a turn at a response leaves as it is. */
  predicate SameObject(c: Core, r: Core) {
    r.current == c.current && r.cursor == c.cursor && r.keys == c.keys && r.log == c.log && r.walk == c.walk
  }

  /** The fixed list, if it fits: the required properties of the object's type,
      and the optional ones if they are asked for. */
  lemma FixedListHolds(env: Env, kind: nat, prop: nat)
    requires |env.special(kind).required| + |env.special(kind).optional| <= 128
    ensures prop in Wanted(env, kind)
      <==> prop in env.special(kind).required || (env.optionalProperties && prop in env.special(kind).optional)
    ensures env.special(kind).required <= Wanted(env, kind)
  {}

  lemma FixedList(env: Env, c: Core)
    requires Inv(c) && c.state.GetPropertyRequest? && c.props.length == 0
    ensures AboutToRead(env, c, Wanted(env, c.current.kind))
  {
    var items := Wanted(env, c.current.kind);
    assert Filled(c.props.list, items)[..|items|] == items;
  }

  /** A refused ReadPropertyMultiple: a device that does not know the service is
      never asked that way again, and its object is read property by property; so
      is one it cannot segment, and one whose list of all was refused; any other
      refusal of all values has the list of all asked for. */
  lemma RefusalLeadsTo(env: Env, c: Core, input: Input)
    requires Inv(c) && (c.state.GetAllResponse? || c.state.GetListOfAllResponse?) && Fits(input) && Refused(input)
    ensures var r := Step(env, c, input); var code := input.error.value.code;
      && SameObject(c, r)
      && r.hasRpm == (c.hasRpm && code != 67)
      && if code == 67 || code == 54 || c.state.GetListOfAllResponse?
         then AboutToRead(env, r, Wanted(env, c.current.kind))
         else r.state == GetListOfAllRequest
  {
    StepKeepsInv(env, c, input);
    var r := Step(env, c, input);
    if r.state.GetPropertyRequest? {
      FixedList(env, r);
    }
  }

  /** An answered ReadPropertyMultiple: all values are printed and the object is
      done; a list of all is read property by property, but the fixed list takes
      its place if it is empty, or if the device has refused the service before. */
  lemma {:induction false} AnswerLeadsTo(env: Env, c: Core, input: Input)
    requires Inv(c) && (c.state.GetAllResponse? || c.state.GetListOfAllResponse?) && Fits(input) && input.data.Some?
    ensures var r := Step(env, c, input); var list := ListOfAll(input.data.value);
      && r.current == c.current && r.log == c.log && r.hasRpm == c.hasRpm
      && if c.state.GetAllResponse? then r.state == NextObject
         else AboutToRead(env, r, if list == [] || !c.hasRpm then Wanted(env, c.current.kind) else list)
  {
    hide Processed, AboutToRead, Ended, ListOfAll, Wanted;
    AnswerKeeps(Reported(c, input), input.data.value);
    if c.state.GetListOfAllResponse? {
      ListOfAllLeadsTo(env, c, input);
    }
  }

  lemma AnswerKeeps(c: Core, ps: seq<Property>)
    requires |c.props.list| == LIST_SIZE && |ListOfAll(ps)| < MAX_PROPS
    ensures var r := Processed(c, ps);
      && r.current == c.current && r.log == c.log && r.hasRpm == c.hasRpm
      && (c.state.GetAllResponse? ==> r.state == NextObject)
  {
    hide PrintedAll, ListOfAll, Filled;
    PrintedAllKeeps(c, ps);
  }

  lemma ListOfAllLeadsTo(env: Env, c: Core, input: Input)
    requires Inv(c) && c.state.GetListOfAllResponse? && Fits(input) && input.data.Some?
    ensures var list := ListOfAll(input.data.value);
      AboutToRead(env, Step(env, c, input), if list == [] || !c.hasRpm then Wanted(env, c.current.kind) else list)
  {
    hide Ended, Wanted, ListOfAll, Filled;
    StepKeepsInv(env, c, input);
    var r, list := Step(env, c, input), ListOfAll(input.data.value);
    ListOfAllReplaces(c, input);
    Begins(c.props.list, list);
    Begins(r.props.list, Wanted(env, c.current.kind));
  }

  lemma Begins(list: seq<int>, items: seq<nat>)
    requires |items| < |list|
    ensures Filled(list, items)[..|items|] == items
  {}

  /** Without an answer or a refusal: a request that was lost or timed out is made
      again; an error for a request that is still open gives the object up; else
      the scanner waits. */
  lemma SilenceLeadsTo(env: Env, c: Core, input: Input)
    requires Inv(c) && (c.state.GetAllResponse? || c.state.GetListOfAllResponse?) && Fits(input)
    requires input.data.None? && !Refused(input) && !c.error
    ensures var r := Step(env, c, input);
      && SameObject(c, r) && r.hasRpm == c.hasRpm
      && if input.status.Free? then
           if c.hasRpm then r.state == GetAllRequest else AboutToRead(env, r, Wanted(env, c.current.kind))
         else if input.status.Failed? then r.state == GetAllRequest
         else if input.error.Some? then r.state == NextObject
         else r == c
  {
    hide Ended, Wanted, ListOfAll;
    StepKeepsInv(env, c, input);
    var r := Step(env, c, input);
    if r.state.GetPropertyRequest? {
      FixedList(env, r);
    }
  }

  /** Nothing is asked before the device is bound. */
  lemma BindingComesFirst(env: Env, list: seq<int>, device: nat, input: Input)
    requires |list| == LIST_SIZE && Fits(input)
    ensures var c := Start(list, device); var r := Step(env, c, input);
      c.hasRpm && c.current == ObjectId(8, device) && if input.bound then r == c.(state := GetHeadingInfo) else r == c
  {}

  /** The next object is asked for all its values, or read by its fixed list once
      ReadPropertyMultiple has been refused. */
  lemma NextObjectIsAsked(env: Env, c: Core, input: Input)
    requires Inv(c) && c.state.NextObject? && Fits(input)
    ensures var r := Step(env, c, input);
      && r.log == c.log && r.hasRpm == c.hasRpm && r.keys == c.keys
      && (!Finished(r) ==> if c.hasRpm then r.state == GetAllRequest else AboutToRead(env, r, Wanted(env, r.current.kind)))
  {
    hide NextKey, Ended, AboutToRead, Wanted;
    StepKeepsInv(env, c, input);
    var r := Step(env, c, input);
    if !Finished(r) && !c.hasRpm {
      FixedList(env, r);
    }
  }

  /** The heading is printed whatever comes of its request. */
  lemma HeadingIsPrinted(env: Env, c: Core, input: Input)
    requires Inv(c) && c.state.GetHeadingResponse? && Fits(input) && !c.error
    ensures var r := Step(env, c, input);
      SameObject(c, r) && r.hasRpm == c.hasRpm && if Idle(input) then r == c else r.state == PrintHeading
  {
    hide Ended, ListOfAll;
  }

  // ---- Errors are those of the request ----

  predicate Waits(s: State) {
    Responding(s) || s.GetPropertyResponse?
  }

  lemma ErrorStaysNew(env: Env, c: Core, input: Input)
    requires Inv(c) && Fits(input) && (Waits(c.state) ==> !c.error)
    ensures Waits(Step(env, c, input).state) ==> !Step(env, c, input).error
  {
    hide Ended, Response, PropertyResponse, ReadProperties, ToNextObject, ListOfAll;
    if Responding(c.state) {
      StillResponding(c, input);
    } else if c.state.GetPropertyResponse? {
      StillWaiting(c, input);
    } else if c.state.GetPropertyRequest? {
      AskingKeeps(env, c.(error := false), input.sentId);
    } else if c.state.NextObject? {
      NextIsAsked(env, c);
    }
  }

  lemma StillResponding(c: Core, input: Input)
    requires Inv(c) && Responding(c.state) && Fits(input) && !c.error
    ensures Waits(Response(c, input).state) ==> Response(c, input) == c
  {
    hide Ended, Processed, Freed, ListOfAll;
    if input.data.Some? {
      ProcessedIsDone(Reported(c, input), input.data.value);
    } else {
      FreedIsDone(Reported(c, input));
    }
  }

  lemma ProcessedIsDone(c: Core, ps: seq<Property>)
    requires |c.props.list| == LIST_SIZE && |ListOfAll(ps)| < MAX_PROPS
    ensures !Waits(Processed(c, ps).state)
  {
    hide PrintedAll, ListOfAll, Filled;
  }

  lemma FreedIsDone(c: Core)
    ensures !Waits(Freed(c).state)
  {}

  lemma StillWaiting(c: Core, input: Input)
    requires c.state.GetPropertyResponse? && !c.error
    ensures Waits(PropertyResponse(c, input).state) ==> PropertyResponse(c, input) == c
  {
    hide Printed, Advanced;
  }

  lemma NextIsAsked(env: Env, c: Core)
    requires c.state.NextObject?
    ensures var r := ToNextObject(env, c);
      && r.hasRpm == c.hasRpm && r.log == c.log && !Waits(r.state)
      && (Finished(r) || (r.props.length == 0 && r.props.index == 0 && r.state.GetPropertyRequest?) || c.hasRpm)
      && (!c.hasRpm ==> r.state.GetPropertyRequest? || r.state.NextObject?)
  {
    hide NextKey;
  }

  /** While a request is open there is no error of an earlier one. */
  lemma {:induction false} ErrorIsNew(env: Env, c: Core, inputs: seq<Input>)
    requires Inv(c) && (forall input <- inputs :: Fits(input)) && (Waits(c.state) ==> !c.error)
    ensures var r := Run(env, c, inputs); Waits(r.state) ==> !r.error
    decreases |inputs|
  {
    hide Step, Ended;
    if inputs != [] && !Finished(c) {
      StepKeepsInv(env, c, inputs[0]);
      ErrorStaysNew(env, c, inputs[0]);
      ErrorIsNew(env, Step(env, c, inputs[0]), inputs[1..]);
    }
  }

  /** A turn that asks with ReadPropertyMultiple. */
  predicate AsksMultiple(s: State) {
    s.GetHeadingInfo? || s.PrintHeading? || s.GetAllRequest? || s.GetListOfAllRequest?
  }

  /** It starts the object anew.  A request that cannot be sent is made again, but
      for the one for the heading; after the heading all values are asked for. */
  lemma MultipleIsAsked(env: Env, c: Core, input: Input)
    requires Inv(c) && AsksMultiple(c.state) && Fits(input)
    ensures var r := Step(env, c, input);
      && SameObject(c, r) && r.hasRpm == c.hasRpm && !r.error && r.id == input.sentId
      && r.props.length == 0 && r.props.index == 0
      && match c.state
         case GetHeadingInfo => r.state == GetHeadingResponse
         case GetListOfAllRequest => r.state == if input.sentId > 0 then GetListOfAllResponse else GetListOfAllRequest
         case _ => r.state == if input.sentId > 0 then GetAllResponse else GetAllRequest
  {
  }

  // ---- Once ReadPropertyMultiple has been refused ----

  /** One property at a time. */
  predicate ByProperty(c: Core) {
    !c.hasRpm && (c.state.GetPropertyRequest? || c.state.GetPropertyResponse? || c.state.NextObject?)
  }

  /** The request for a property times out. */
  predicate TimesOut(c: Core, input: Input) {
    c.state.GetPropertyResponse? && input.data.None? && input.status.Failed?
  }

  lemma ByPropertyStays(env: Env, c: Core, input: Input)
    requires Inv(c) && ByProperty(c) && Fits(input)
    ensures var r := Step(env, c, input);
      if TimesOut(c, input) then r.state == PrintHeading else ByProperty(r)
  {
    hide Ended, ListOfAll, ReadProperties, PropertyResponse, ToNextObject;
    if c.state.GetPropertyRequest? {
      AskingKeeps(env, c.(error := false), input.sentId);
    } else if c.state.GetPropertyResponse? {
      PropertyResponseLeadsTo(c, input);
    } else {
      NextIsAsked(env, c);
    }
  }

  lemma AskingKeeps(env: Env, c: Core, sentId: byte)
    requires |c.props.list| == LIST_SIZE && c.props.index < LIST_SIZE
    ensures var r := ReadProperties(env, c, sentId); r.hasRpm == c.hasRpm && r.current == c.current && r.error == c.error
  {
    hide Filled, Wanted;
  }

  lemma PropertyResponseLeadsTo(c: Core, input: Input)
    requires c.state.GetPropertyResponse?
    ensures var r := PropertyResponse(c, input);
      && r.hasRpm == c.hasRpm && r.current == c.current
      && if TimesOut(c, input) then r.state == PrintHeading
         else r.state.GetPropertyRequest? || r.state.GetPropertyResponse? || r.state.NextObject?
  {
    if input.data.Some? {
      AnswerMovesOn(c, input);
    } else {
      NoAnswerMovesOn(c, input);
    }
  }

  /** What a turn at the response to one property leaves as it is. */
  predicate SameList(c: Core, r: Core) {
    r.current == c.current && r.log == c.log && r.hasRpm == c.hasRpm
    && r.props.list == c.props.list && r.props.length == c.props.length
  }

  /** An answer leads to the next request: for the next property, or in a walk for
      the next element. */
  lemma AnswerMovesOn(c: Core, input: Input)
    requires c.state.GetPropertyResponse? && input.data.Some?
    ensures var r := PropertyResponse(c, input);
      && SameList(c, r) && r.state == GetPropertyRequest
      && (r.props.index == c.props.index + 1 || (r.props.index == c.props.index && c.walk.on))
  {
    hide Printed, Advanced;
    var c1 := Reported(c, input);
    if input.data.value != [] {
      PrintedKeeps(c1, input.data.value[0]);
      AdvancedMoves(Printed(c1, input.data.value[0]));
    } else {
      AdvancedMoves(c1);
    }
  }

  lemma AdvancedMoves(c: Core)
    ensures var r := Advanced(c);
      && SameList(c, r) && (r.props.index == c.props.index + 1 || (r.props.index == c.props.index && c.walk.on))
  {}

  /** Without an answer the property is asked for again, or walked, or skipped if
      the device refuses it; a time-out and an error of an open request leave it. */
  lemma NoAnswerMovesOn(c: Core, input: Input)
    requires c.state.GetPropertyResponse? && input.data.None?
    ensures var r := PropertyResponse(c, input);
      && SameList(c, r)
      && if input.status.Failed? then r.state == PrintHeading
         else if input.status.Waiting? then
           if input.error.Some? || c.error then r.state == NextObject
           else r == c
         else if r.props.index == c.props.index then r.state == GetPropertyRequest
         else r.props.index == c.props.index + 1
              && r.state == if c.props.index + 1 >= c.props.length then NextObject else GetPropertyRequest
  {
    hide PropertyFreed;
    FreedMoves(Reported(c, input));
  }

  lemma FreedMoves(c: Core)
    ensures var r := PropertyFreed(c);
      && SameList(c, r)
      && if r.props.index == c.props.index then r.state == GetPropertyRequest
         else r.props.index == c.props.index + 1
              && r.state == if c.props.index + 1 >= c.props.length then NextObject else GetPropertyRequest
  {}

  /** Some state of the run asks with ReadPropertyMultiple. */
  ghost predicate EverAsksMultiple(env: Env, c: Core, inputs: seq<Input>)
    requires Inv(c) && forall input <- inputs :: Fits(input)
    decreases |inputs|
  {
    || AsksMultiple(c.state)
    || (inputs != [] && !Finished(c)
        && (StepKeepsInv(env, c, inputs[0]); EverAsksMultiple(env, Step(env, c, inputs[0]), inputs[1..])))
  }

  ghost predicate EverTimesOut(env: Env, c: Core, inputs: seq<Input>)
    requires Inv(c) && forall input <- inputs :: Fits(input)
    decreases |inputs|
  {
    && inputs != [] && !Finished(c)
    && (TimesOut(c, inputs[0])
        || (StepKeepsInv(env, c, inputs[0]); EverTimesOut(env, Step(env, c, inputs[0]), inputs[1..])))
  }

  lemma {:induction false} ByPropertyUntilTimeOut(env: Env, c: Core, inputs: seq<Input>)
    requires Inv(c) && ByProperty(c) && forall input <- inputs :: Fits(input)
    ensures EverAsksMultiple(env, c, inputs) <==> EverTimesOut(env, c, inputs)
    decreases |inputs|
  {
    hide Step, Ended;
    if inputs != [] && !Finished(c) {
      StepKeepsInv(env, c, inputs[0]);
      ByPropertyStays(env, c, inputs[0]);
      if !TimesOut(c, inputs[0]) {
        ByPropertyUntilTimeOut(env, Step(env, c, inputs[0]), inputs[1..]);
      }
    }
  }

  /** A device that rejects ReadPropertyMultiple as unrecognized is asked with it
      again if and only if the request for a property times out: the time-out sets
      the state to the number 3, which is PRINT_HEADING. */
  lemma {:induction false} RejectedForGoodIff(env: Env, c: Core, rejection: Input, inputs: seq<Input>)
    requires Inv(c) && (c.state.GetAllResponse? || c.state.GetListOfAllResponse?)
    requires Fits(rejection) && Refused(rejection) && rejection.error.value.code == 67
    requires forall input <- inputs :: Fits(input)
    ensures Inv(Step(env, c, rejection))
    ensures EverAsksMultiple(env, Step(env, c, rejection), inputs) <==> EverTimesOut(env, Step(env, c, rejection), inputs)
  {
    hide Step;
    RefusalLeadsTo(env, c, rejection);
    StepKeepsInv(env, c, rejection);
    ByPropertyUntilTimeOut(env, Step(env, c, rejection), inputs);
  }

  // ---- Property by property ----

  /** The requests read the listed properties of `target` in their order, each at
      least once (again after a loss, or at the indices of a walk), and then the
      fixed list of each of the other objects, in their order. */
  ghost predicate ReadInOrder(env: Env, asked: seq<Asked>, target: ObjectId, items: seq<int>, rest: seq<ObjectId>)
    decreases |asked|, |rest|
  {
    if items == [] then
      if rest == [] then asked == []
      else ReadInOrder(env, asked, rest[0], Wanted(env, rest[0].kind), rest[1..])
    else
      && asked != [] && asked[0].target == target && asked[0].prop == items[0]
      && (ReadInOrder(env, asked[1..], target, items, rest) || ReadInOrder(env, asked[1..], target, items[1..], rest))
  }

  /** The properties of the current object that are still to be read. */
  function Left(env: Env, c: Core): seq<int> {
    if Finished(c) || |c.props.list| != LIST_SIZE then []
    else
      var p := if c.state.GetPropertyRequest? then Rebuilt(env, c).props else c.props;
      if (c.state.GetPropertyRequest? || c.state.GetPropertyResponse?) && p.index <= p.length <= |p.list|
      then p.list[p.index..p.length] else []
  }

  /** The request can be sent, and comes to an answer or is freed; the next object
      is not asked for all at once. */
  predicate Plain(env: Env, c: Core, input: Input) {
    match c.state
    case GetPropertyRequest => input.sentId > 0
    case GetPropertyResponse => input.data.Some? || input.status.Free? || Idle(input)
    case NextObject => !c.hasRpm
    case _ => false
  }

  ghost predicate PlainRun(env: Env, c: Core, inputs: seq<Input>)
    requires Inv(c) && forall input <- inputs :: Fits(input)
    decreases |inputs|
  {
    inputs == [] || Finished(c)
    || (Plain(env, c, inputs[0]) && (StepKeepsInv(env, c, inputs[0]); PlainRun(env, Step(env, c, inputs[0]), inputs[1..])))
  }

  /** A request that is made or open, or the turn between two objects. */
  ghost predicate Reading(env: Env, c: Core) {
    && Inv(c)
    && (c.state.GetPropertyRequest? || c.state.GetPropertyResponse? || c.state.NextObject?)
    && (c.state.GetPropertyResponse? ==> !c.error && Settled(env, c) && !Finished(c))
  }

  /** The request that is open, if there is one. */
  function Open(c: Core): seq<Asked>
    requires c.state.GetPropertyResponse? ==> c.props.index < |c.props.list|
  {
    if c.state.GetPropertyResponse? then [Asked(c.current, c.props.list[c.props.index], 0)] else []
  }

  lemma RequestReads(env: Env, c: Core, input: Input)
    requires Reading(env, c) && c.state.GetPropertyRequest? && !Finished(c) && input.sentId > 0 && Fits(input)
    ensures var r := Step(env, c, input); var left := Left(env, c);
      && Reading(env, r) && r.current == c.current && Left(env, r) == left && !Finished(r)
      && if left == [] then r.state.NextObject? && r.log == c.log
         else && r.state.GetPropertyResponse? && |r.log| == |c.log| + 1 && c.log <= r.log
              && r.log[|c.log|].target == c.current && r.log[|c.log|].prop == left[0]
              && Open(r) == [Asked(c.current, left[0], 0)]
  {
    hide Wanted, Filled, Rebuilt, ReadProperties, Ended;
    StepKeepsInv(env, c, input);
    Asks(env, c, input.sentId);
    AskingSettles(env, c.(error := false), input.sentId);
    SettledStays(env, ReadProperties(env, c.(error := false), input.sentId), Step(env, c, input));
  }

  /** Read_Properties on the list as it is, or as it is built anew. */
  lemma Asks(env: Env, c: Core, sentId: byte)
    requires Inv(c) && c.state.GetPropertyRequest? && sentId > 0
    ensures var p := Rebuilt(env, c).props; var r := ReadProperties(env, c.(error := false), sentId);
      && r.props == p && p.index <= p.length < |p.list| && p.index == c.props.index
      && r.current == c.current && r.state == c.state && !r.error
      && if p.index == p.length then r.id == 0 && r.log == c.log
         else r.id == sentId && r.log == c.log + [Asked(c.current, p.list[p.index], ArrayIndex(c.walk))]
  {
    var c0 := c.(error := false);
    RebuiltIsEnded(env, c0);
    RebuiltIgnoresError(env, c);
    hide Wanted, Filled, Rebuilt;
  }

  lemma RebuiltIgnoresError(env: Env, c: Core)
    requires |c.props.list| == LIST_SIZE
    ensures Rebuilt(env, c.(error := false)) == Rebuilt(env, c).(error := false)
  {}

  lemma ResponseReads(env: Env, c: Core, input: Input)
    requires Reading(env, c) && c.state.GetPropertyResponse? && Plain(env, c, input) && Fits(input)
    ensures var r := Step(env, c, input); var left := Left(env, c);
      && Reading(env, r) && r.current == c.current && r.log == c.log && !Finished(r)
      && left != [] && Open(c)[0].prop == left[0]
      && (r == c || (!r.state.GetPropertyResponse? && (Left(env, r) == left || Left(env, r) == left[1..])))
  {
    hide PropertyResponse, Wanted, Filled;
    StepKeepsInv(env, c, input);
    if input.data.Some? {
      AnswerMovesOn(c, input);
    } else {
      NoAnswerMovesOn(c, input);
    }
  }

  lemma NextReads(env: Env, c: Core, input: Input)
    requires Reading(env, c) && c.state.NextObject? && !c.hasRpm && Fits(input)
    ensures var r := Step(env, c, input);
      && Reading(env, r) && r.log == c.log && Left(env, c) == []
      && (!Finished(r) ==> r.state.GetPropertyRequest? && Left(env, r) == Wanted(env, r.current.kind))
  {
    hide ToNextObject, Filled, Wanted;
    StepKeepsInv(env, c, input);
    NextIsAsked(env, c);
    var r := Step(env, c, input);
    Begins(r.props.list, Wanted(env, r.current.kind));
  }

  lemma SameHead(env: Env, a: Asked, b: Asked, asked: seq<Asked>, target: ObjectId, items: seq<int>, rest: seq<ObjectId>)
    requires a.target == b.target && a.prop == b.prop && items != []
    ensures ReadInOrder(env, [a] + asked, target, items, rest) == ReadInOrder(env, [b] + asked, target, items, rest)
  {
    assert ([a] + asked)[1..] == ([b] + asked)[1..] == asked;
  }

  lemma NothingAsked(log: seq<Asked>)
    ensures log[|log|..] == []
  {}

  /** What a run of plain turns has asked for once nothing is left to be read. */
  lemma {:induction false} PlainRunReads(env: Env, c: Core, inputs: seq<Input>)
    requires Reading(env, c) && (forall input <- inputs :: Fits(input)) && PlainRun(env, c, inputs)
    requires Run(env, c, inputs).state.NextObject? || Finished(Run(env, c, inputs))
    ensures var r := Run(env, c, inputs);
      && c.log <= r.log
      && ReadInOrder(env, Open(c) + r.log[|c.log|..], c.current, Left(env, c), Visited(env, c, inputs))
    decreases |inputs|
  {
    hide Step, Ended, Plain, Left, ReadInOrder, Settled;
    var r := Run(env, c, inputs);
    if inputs == [] || Finished(c) {
      RunIsOver(env, c, inputs);
    } else {
      var input, c1 := inputs[0], Step(env, c, inputs[0]);
      OneTurn(env, c, input);
      PlainRunReads(env, c1, inputs[1..]);
      TurnReads(env, c, input, r.log, Visited(env, c1, inputs[1..]));
    }
  }

  lemma RunIsOver(env: Env, c: Core, inputs: seq<Input>)
    requires Reading(env, c) && (forall input <- inputs :: Fits(input)) && (inputs == [] || Finished(c))
    requires c.state.NextObject? || Finished(c)
    ensures Run(env, c, inputs) == c && Visited(env, c, inputs) == [] && Open(c) + c.log[|c.log|..] == []
    ensures ReadInOrder(env, [], c.current, Left(env, c), [])
  {
    hide Step, Ended, Settled;
  }

  lemma OneTurn(env: Env, c: Core, input: Input)
    requires Reading(env, c) && !Finished(c) && Fits(input) && Plain(env, c, input)
    ensures Reading(env, Step(env, c, input)) && Inv(Step(env, c, input))
  {
    hide Ended, Left;
    if c.state.GetPropertyRequest? {
      RequestReads(env, c, input);
    } else if c.state.GetPropertyResponse? {
      ResponseReads(env, c, input);
    } else {
      NextReads(env, c, input);
    }
  }

  /** From what is asked after a turn to what is asked from it on. */
  lemma {:induction false} TurnReads(env: Env, c: Core, input: Input, log: seq<Asked>, rest: seq<ObjectId>)
    requires Reading(env, c) && !Finished(c) && Fits(input) && Plain(env, c, input)
    requires Reading(env, Step(env, c, input)) && Step(env, c, input).log <= log
    requires var r := Step(env, c, input); ReadInOrder(env, Open(r) + log[|r.log|..], r.current, Left(env, r), rest)
    requires c.state.NextObject? && Finished(Step(env, c, input)) ==> rest == [] && log == Step(env, c, input).log
    ensures c.log <= log
    ensures var r := Step(env, c, input);
      ReadInOrder(env, Open(c) + log[|c.log|..], c.current, Left(env, c),
                  (if c.state.NextObject? && !Finished(r) then [r.current] else []) + rest)
  {
    hide Step, Ended, Left, Settled;
    var r, left, asked := Step(env, c, input), Left(env, c), log[|Step(env, c, input).log|..];
    if c.state.GetPropertyRequest? {
      assert Plain(env, c, input);
      assert input.sentId > 0;
      RequestReads(env, c, input);
      if left != [] {
        var a := r.log[|c.log|];
        assert log[|c.log|..] == [a] + asked;
        SameHead(env, a, Open(r)[0], asked, c.current, left, rest);
        assert Open(c) + log[|c.log|..] == [a] + asked;
      } else {
        assert Open(c) + log[|c.log|..] == asked && Open(r) + asked == asked;
      }
    } else if c.state.GetPropertyResponse? {
      ResponseReads(env, c, input);
      assert (Open(c) + asked)[1..] == asked;
      if r != c {
        assert Open(r) + asked == asked;
      }
    } else {
      NextReads(env, c, input);
      assert Open(c) + asked == asked;
      if Finished(r) {
        assert asked == [] && [] + rest == [];
      } else {
        assert Open(r) + asked == asked;
        assert ([r.current] + rest)[1..] == rest;
      }
    }
    assert !c.state.NextObject? ==> [] + rest == rest;
  }

  lemma ReadingStarts(env: Env, c: Core, items: seq<int>)
    requires AboutToRead(env, c, items) && !Finished(c)
    ensures Reading(env, c) && Left(env, c) == items && forall log: seq<Asked> :: Open(c) + log == log
  {
    hide Ended, Rebuilt, Wanted, Filled;
    RebuiltIsEnded(env, c);
  }

  /** Whenever single properties have to do (the service is unknown, the answer
      cannot be segmented, or the list of all was refused as well), the requests
      are for the fixed list of the object, property by property; and if the
      service is unknown, for the fixed list of every object visited after it. */
  lemma {:induction false} RefusedIsReadByProperty(env: Env, c: Core, refusal: Input, inputs: seq<Input>)
    requires Inv(c) && (c.state.GetAllResponse? || c.state.GetListOfAllResponse?) && !Finished(c)
    requires Fits(refusal) && Refused(refusal)
    requires refusal.error.value.code == 67 || refusal.error.value.code == 54 || c.state.GetListOfAllResponse?
    requires forall input <- inputs :: Fits(input)
    ensures Inv(Step(env, c, refusal))
    ensures var c1 := Step(env, c, refusal); var r := Run(env, c1, inputs);
      PlainRun(env, c1, inputs) && (r.state.NextObject? || Finished(r)) ==>
        && c.log <= r.log
        && ReadInOrder(env, r.log[|c.log|..], c.current, Wanted(env, c.current.kind), Visited(env, c1, inputs))
  {
    hide Step, Ended, ReadInOrder, AboutToRead, Reading, Left;
    RefusalLeadsTo(env, c, refusal);
    StepKeepsInv(env, c, refusal);
    var c1 := Step(env, c, refusal);
    ReadingStarts(env, c1, Wanted(env, c.current.kind));
    if PlainRun(env, c1, inputs) && (Run(env, c1, inputs).state.NextObject? || Finished(Run(env, c1, inputs))) {
      PlainRunReads(env, c1, inputs);
    }
  }

  /** A list of all that comes is read property by property. */
  lemma {:induction false} ListOfAllIsRead(env: Env, c: Core, answer: Input, inputs: seq<Input>)
    requires Inv(c) && c.state.GetListOfAllResponse? && !Finished(c) && c.hasRpm
    requires Fits(answer) && answer.data.Some? && ListOfAll(answer.data.value) != []
    requires forall input <- inputs :: Fits(input)
    ensures Inv(Step(env, c, answer))
    ensures var c1 := Step(env, c, answer); var r := Run(env, c1, inputs);
      PlainRun(env, c1, inputs) && r.state.NextObject? ==>
        && c.log <= r.log
        && ReadInOrder(env, r.log[|c.log|..], c.current, ListOfAll(answer.data.value), Visited(env, c1, inputs))
  {
    hide Step, Ended, ReadInOrder, AboutToRead, Reading, Left, ListOfAll;
    AnswerLeadsTo(env, c, answer);
    StepKeepsInv(env, c, answer);
    var c1 := Step(env, c, answer);
    ReadingStarts(env, c1, ListOfAll(answer.data.value));
    if PlainRun(env, c1, inputs) && Run(env, c1, inputs).state.NextObject? {
      PlainRunReads(env, c1, inputs);
    }
  }

  /** The comment has a timed-out property asked for again.  The code prints the
      heading again and asks for the whole object; where the device refuses that,
      the object is read again from its first property. */
  lemma {:induction false} TimeOutStartsOver(env: Env, c: Core, timeOut: Input, request: Input, rejection: Input)
    requires Inv(c) && TimesOut(c, timeOut) && Fits(timeOut) && Fits(request) && Fits(rejection)
    requires request.sentId > 0 && Refused(rejection) && rejection.error.value.code == 67
    ensures var c1 := Step(env, c, timeOut);
      && Inv(c1) && c1.state == PrintHeading
      && var c2 := Step(env, c1, request);
      && Inv(c2) && c2.state == GetAllResponse
      && var c3 := Step(env, c2, rejection);
         c3.log == c.log && AboutToRead(env, c3, Wanted(env, c.current.kind))
  {
    hide Step, AboutToRead, Ended;
    StepKeepsInv(env, c, timeOut);
    TimeOutPrintsHeading(env, c, timeOut);
    var c1 := Step(env, c, timeOut);
    StepKeepsInv(env, c1, request);
    MultipleIsAsked(env, c1, request);
    RefusalLeadsTo(env, Step(env, c1, request), rejection);
  }

  lemma TimeOutPrintsHeading(env: Env, c: Core, timeOut: Input)
    requires Inv(c) && TimesOut(c, timeOut) && Fits(timeOut)
    ensures var r := Step(env, c, timeOut); r.state == PrintHeading && SameList(c, r)
  {
    hide PropertyResponse, Ended;
    NoAnswerMovesOn(c, timeOut);
  }

  // ---- When a property is walked ----

  /** The property that is waited for is an array, asked for as a whole. */
  predicate WholeArray(c: Core)
    requires c.props.index < |c.props.list|
  {
    !c.walk.on && c.props.list[c.props.index] in {76, 110, 209, 210, 211}
  }

  ghost predicate LongArrayTold(c: Core) {
    c.state.GetPropertyResponse? ==> c.props.index < |c.props.list| && (c.longArray <==> WholeArray(c))
  }

  lemma AskingTells(env: Env, c: Core, sentId: byte)
    requires |c.props.list| == LIST_SIZE && c.props.index < LIST_SIZE
    ensures var r := ReadProperties(env, c, sentId);
      r.id != 0 ==> r.props.index < |r.props.list| && (r.longArray <==> WholeArray(r))
  {
    hide Filled, Wanted;
  }

  lemma StepTells(env: Env, c: Core, input: Input)
    requires Inv(c) && Fits(input) && LongArrayTold(c) && (Waits(c.state) ==> !c.error)
    ensures LongArrayTold(Step(env, c, input))
  {
    hide Ended, Response, PropertyResponse, ReadProperties, ToNextObject, ListOfAll;
    if Responding(c.state) {
      StillResponding(c, input);
    } else if c.state.GetPropertyResponse? {
      StillWaiting(c, input);
    } else if c.state.GetPropertyRequest? {
      AskingTells(env, c.(error := false), input.sentId);
    } else if c.state.NextObject? {
      NextIsAsked(env, c);
    }
  }

  lemma {:induction false} RunTells(env: Env, c: Core, inputs: seq<Input>)
    requires Inv(c) && (forall input <- inputs :: Fits(input)) && LongArrayTold(c) && (Waits(c.state) ==> !c.error)
    ensures LongArrayTold(Run(env, c, inputs))
    decreases |inputs|
  {
    hide Step, Ended, LongArrayTold;
    if inputs != [] && !Finished(c) {
      StepKeepsInv(env, c, inputs[0]);
      ErrorStaysNew(env, c, inputs[0]);
      StepTells(env, c, inputs[0]);
      RunTells(env, Step(env, c, inputs[0]), inputs[1..]);
    }
  }

  /** In every run: a refused property is walked from index 0 exactly if it is one
      of the arrays, was asked for as a whole, and neither the class nor the code
      of the error speaks of the property; any other is skipped. */
  lemma {:induction false} WalkedIff(env: Env, list: seq<int>, device: nat, inputs: seq<Input>, refusal: Input)
    requires |list| == LIST_SIZE && (forall input <- inputs :: Fits(input)) && Fits(refusal) && Refused(refusal)
    requires Run(env, Start(list, device), inputs).state.GetPropertyResponse?
    ensures var c := Run(env, Start(list, device), inputs); var problem := refusal.error.value;
      && c.props.index < c.props.length <= |c.props.list|
      && var r := Step(env, c, refusal);
         if WholeArray(c) && problem.errorClass != 2 && problem.code != 32
         then r.state == GetPropertyRequest && r.props == c.props && r.walk == Walk(true, 0, 0)
         else r.props == c.props.(index := c.props.index + 1) && r.walk == c.walk
  {
    hide Run, Step, Ended;
    var c := Run(env, Start(list, device), inputs);
    RunTells(env, Start(list, device), inputs);
    EveryRunEndsItsList(env, list, device, inputs);
    FallsBackToWalk(env, c, 0, refusal);
  }
}
