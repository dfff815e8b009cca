/** The EPICS scanner over its static variables, one turn of main() at a time. */
module EpicsProcess {
  import opened Octets
  import E = Epics
  import opened Epics

  class Scanner {
    const env: Env
    const propertyList: array<int>
    var myState: State
    var propertyListLength: nat
    var propertyListIndex: nat
    var walk: Walk
    var isLongArray: bool
    var hasRpm: bool
    var errorDetected: bool
    var last: Problem
    var requestInvokeId: byte
    var objectList: seq<ObjectId>
    var objectListIndex: int
    var myObject: ObjectId
    ghost var asserted: bool
    ghost var log: seq<Asked>

    ghost function Props(): E.Props
      reads this, propertyList
    {
      E.Props(propertyList[..], propertyListLength, propertyListIndex)
    }

    ghost function View(): Core
      reads this, propertyList
    {
      Core(myState, Props(), walk, isLongArray, hasRpm, errorDetected, last, requestInvokeId,
           objectList, objectListIndex, myObject, asserted, log)
    }

    constructor (env: Env, device: nat)
      ensures propertyList.Length == LIST_SIZE && fresh(propertyList) && this.env == env
      ensures View() == Start(propertyList[..], device)
    {
      this.env := env;
      propertyList := new int[LIST_SIZE](_ => 0);
      myState, propertyListLength, propertyListIndex, walk := InitialBinding, 0, 0, Walk(false, 0, 0);
      isLongArray, hasRpm, errorDetected, last, requestInvokeId := false, true, false, Problem(0, 0), 0;
      objectList, objectListIndex, myObject := [], 0, ObjectId(OBJECT_DEVICE, device);
      asserted, log := false, [];
    }

    method StartNextObject()
      modifies this`errorDetected, this`propertyListLength, this`propertyListIndex
      ensures View() == E.StartNextObject(old(View()))
    {
      errorDetected, propertyListLength, propertyListIndex := false, 0, 0;
    }

    /** The copy loop of Read_Properties and its end marker. */
    method CopyList()
      requires propertyList.Length == LIST_SIZE
      modifies propertyList, this`propertyListLength
      ensures propertyList[..] == Filled(old(propertyList[..]), Wanted(env, myObject.kind))
      ensures propertyListLength == |Wanted(env, myObject.kind)|
    {
      var special := env.special(myObject.kind);
      ghost var items := Wanted(env, myObject.kind);
      propertyListLength := |special.required|;
      if env.optionalProperties {
        propertyListLength := |special.required| + |special.optional|;
      }
      if propertyListLength > MAX_PROPS {
        propertyListLength := MAX_PROPS;
      }
      var i, j := 0, 0;
      while i < propertyListLength
        invariant 0 <= i <= propertyListLength == |items|
        invariant j == if i <= |special.required| then 0 else i - |special.required|
        invariant forall k :: 0 <= k < i ==> propertyList[k] == items[k]
        invariant forall k :: i <= k < LIST_SIZE ==> propertyList[k] == old(propertyList[k])
        modifies propertyList
      {
        if i < |special.required| {
          propertyList[i] := special.required[i];
        } else if env.optionalProperties {
          propertyList[i] := special.optional[j];
          j := j + 1;
        }
        i := i + 1;
      }
      propertyList[i] := END;
    }

    /** The fixed list replaces one that could not be fetched. */
    method Rebuild()
      requires propertyList.Length == LIST_SIZE
      modifies propertyList, this`propertyListLength
      ensures View() == Rebuilt(env, old(View()))
    {
      hide Wanted, Filled;
      if (!hasRpm && propertyListIndex == 0) || propertyListLength == 0 {
        CopyList();
      }
    }

    method ReadProperties(sentId: byte)
      requires propertyList.Length == LIST_SIZE && propertyListIndex < LIST_SIZE
      modifies this, propertyList
      ensures View() == E.ReadProperties(env, old(View()), sentId)
    {
      hide Rebuilt;
      Rebuild();
      requestInvokeId := 0;
      if propertyList[propertyListIndex] != END {
        var prop := propertyList[propertyListIndex];
        var arrayIndex: uint32;
        isLongArray := false;
        if walk.on {
          arrayIndex := if walk.length == 0 then 0 else walk.index;
        } else {
          arrayIndex := ARRAY_ALL;
          isLongArray := IsArray(prop);
        }
        log := log + [Asked(myObject, prop, arrayIndex)];
        requestInvokeId := sentId;
      }
    }

    /** The part of PrintReadPropertyData that keeps state. */
    method PrintReadPropertyData(p: Property)
      modifies this`walk, this`objectList, this`objectListIndex, this`asserted
      ensures View() == Printed(old(View()), p)
    {
      if p.values == [] {
        return;
      }
      if !walk.on {
        walk := walk.(index := 0, length := 0);
      }
      var k := 0;
      ghost var start := View();
      assert p.values[0..] == p.values;
      while k < |p.values| && IsArray(p.id)
        invariant 0 <= k <= |p.values|
        invariant ArrayValues(View(), p, p.values[k..]) == ArrayValues(start, p, p.values)
        invariant !IsArray(p.id) ==> View() == start
      {
        assert p.values[k..][0] == p.values[k] && p.values[k..][1..] == p.values[k + 1..];
        PrintArrayValue(p, p.values[k]);
        k := k + 1;
      }
    }

    method PrintArrayValue(p: Property, value: Value)
      modifies this`walk, this`objectList, this`objectListIndex, this`asserted
      ensures View() == ArrayValue(old(View()), p, value)
    {
      hide Counted, Kept;
      if walk.on && p.arrayIndex == 0 && value.Unsigned? {
        walk := walk.(length := value.n);
        return;
      }
      Count(p);
      Keep(p, value);
    }

    method Count(p: Property)
      modifies this`walk, this`objectListIndex, this`asserted
      ensures View() == Counted(old(View()), p)
    {
      if walk.on {
        asserted := asserted || walk.index != p.arrayIndex;
      } else {
        walk := walk.(index := (walk.index + 1) % UINT32);
        if p.id == PROP_OBJECT_LIST {
          objectListIndex := objectListIndex + 1;
        }
      }
    }

    method Keep(p: Property, value: Value)
      modifies this`objectList, this`asserted
      ensures View() == Kept(old(View()), p, value)
    {
      hide AddKey;
      if walk.index == 1 && value.Null? {
        return;
      }
      if p.id == PROP_OBJECT_LIST {
        if !value.Id? {
          asserted := true;
          return;
        }
        objectList := AddKey(objectList, value.id);
      } else if p.id == PROP_SUBORDINATE_LIST {
        asserted := asserted || !value.Id?;
      }
    }

    /** The list holds `items`, and behind them what was there before. */
    ghost predicate Lists(items: seq<nat>, before: seq<int>)
      reads this, propertyList
    {
      && propertyList.Length == |before| == LIST_SIZE && |items| == propertyListIndex == propertyListLength <= LIST_SIZE
      && (forall i :: 0 <= i < |items| ==> propertyList[i] == items[i])
      && (forall i :: |items| <= i < LIST_SIZE ==> propertyList[i] == before[i])
    }

    /** ProcessRPMData for GET_LIST_OF_ALL_RESPONSE. */
    method ProcessListOfAll(ps: seq<Property>)
      requires propertyList.Length == LIST_SIZE && propertyListLength == propertyListIndex == 0
      requires |ListOfAll(ps)| < MAX_PROPS
      modifies this`propertyListLength, this`propertyListIndex, propertyList
      ensures propertyList[..] == Filled(old(propertyList[..]), ListOfAll(ps))
      ensures propertyListLength == |ListOfAll(ps)| && propertyListIndex == 0
    {
      ghost var before := propertyList[..];
      var hasObjectList, hasStructuredViewList := false, false;
      var k := 0;
      assert Others(ps[..0]) == [] && !Mentions(ps[..0], PROP_OBJECT_LIST) && !Mentions(ps[..0], PROP_STRUCTURED_OBJECT_LIST);
      assert Lists(Others(ps[..0]), before);
      hide Others, Mentions, Filled, ListOfAll, Lists;
      while k < |ps|
        invariant 0 <= k <= |ps| && Lists(Others(ps[..k]), before)
        invariant hasObjectList == Mentions(ps[..k], PROP_OBJECT_LIST)
        invariant hasStructuredViewList == Mentions(ps[..k], PROP_STRUCTURED_OBJECT_LIST)
        modifies this`propertyListLength, this`propertyListIndex, propertyList
      {
        OthersNext(ps, k);
        LongNext(ps, k, PROP_OBJECT_LIST);
        LongNext(ps, k, PROP_STRUCTURED_OBJECT_LIST);
        if ps[k].id == PROP_OBJECT_LIST {
          hasObjectList := true;
        } else if ps[k].id == PROP_STRUCTURED_OBJECT_LIST {
          hasStructuredViewList := true;
        } else {
          Put(ps[k].id, Others(ps[..k]), before);
        }
        k := k + 1;
      }
      assert ps[..k] == ps;
      ListedAre(ps);
      PutLongLists(hasStructuredViewList, hasObjectList, Others(ps), before);
    }

    static lemma ListedAre(ps: seq<Property>)
      ensures |Others(ps)| <= |ListOfAll(ps)|
      ensures ListOfAll(ps)
           == Others(ps) + (if Mentions(ps, PROP_STRUCTURED_OBJECT_LIST) then [PROP_STRUCTURED_OBJECT_LIST] else [])
              + (if Mentions(ps, PROP_OBJECT_LIST) then [PROP_OBJECT_LIST] else [])
    {
    }

    /** The properties that were put off, and the end marker. */
    method PutLongLists(hasStructuredViewList: bool, hasObjectList: bool, ghost others: seq<nat>, ghost before: seq<int>)
      requires Lists(others, before) && |others| < MAX_PROPS
      modifies this`propertyListLength, this`propertyListIndex, propertyList
      ensures var items := others + (if hasStructuredViewList then [PROP_STRUCTURED_OBJECT_LIST] else [])
                           + (if hasObjectList then [PROP_OBJECT_LIST] else []);
        propertyListLength == |items| && propertyListIndex == 0 && propertyList[..] == Filled(before, items)
    {
      ghost var items := others;
      if hasStructuredViewList {
        Put(PROP_STRUCTURED_OBJECT_LIST, items, before);
        items := items + [PROP_STRUCTURED_OBJECT_LIST];
      }
      if hasObjectList {
        Put(PROP_OBJECT_LIST, items, before);
        items := items + [PROP_OBJECT_LIST];
      }
      propertyList[propertyListIndex] := END;
      propertyListIndex := 0;
    }

    method Put(prop: nat, ghost items: seq<nat>, ghost before: seq<int>)
      requires Lists(items, before) && |items| < LIST_SIZE
      modifies this`propertyListLength, this`propertyListIndex, propertyList
      ensures Lists(items + [prop], before)
    {
      propertyList[propertyListIndex] := prop;
      propertyListIndex := propertyListIndex + 1;
      propertyListLength := propertyListLength + 1;
    }

    static lemma OthersNext(ps: seq<Property>, k: nat)
      requires k < |ps|
      ensures Others(ps[..k + 1]) == if Deferred(ps[k].id) then Others(ps[..k]) else Others(ps[..k]) + [ps[k].id]
      ensures |Others(ps[..k + 1])| <= |Others(ps)| <= |ListOfAll(ps)|
    {
      assert ps[..k + 1][..k] == ps[..k];
      OthersGrow(ps, k + 1);
    }

    static lemma LongNext(ps: seq<Property>, k: nat, prop: nat)
      requires k < |ps|
      ensures Mentions(ps[..k + 1], prop) <==> Mentions(ps[..k], prop) || ps[k].id == prop
    {
      MentionsNext(ps[..k], ps[k], prop);
      assert ps[..k + 1] == ps[..k] + [ps[k]];
    }

    static lemma MentionsNext(ps: seq<Property>, p: Property, prop: nat)
      ensures Mentions(ps + [p], prop) <==> Mentions(ps, prop) || p.id == prop
    {
      if Mentions(ps, prop) {
        var q :| q in ps && q.id == prop;
        assert q in ps + [p];
      }
      assert p in ps + [p];
    }

    static lemma {:induction false} OthersGrow(ps: seq<Property>, k: nat)
      requires k <= |ps|
      ensures |Others(ps[..k])| <= |Others(ps)|
      decreases |ps|
    {
      if k < |ps| {
        OthersGrow(ps[..|ps| - 1], k);
        assert ps[..|ps| - 1][..k] == ps[..k];
      } else {
        assert ps[..k] == ps;
      }
    }

    /** ProcessRPMData. */
    method ProcessRPMData(ps: seq<Property>)
      requires propertyList.Length == LIST_SIZE && E.Inv(View()) && Responding(myState) && |ListOfAll(ps)| < MAX_PROPS
      modifies this, propertyList
      ensures View() == Processed(old(View()), ps)
    {
      hide ListOfAll, Printed, Filled;
      if myState == GetHeadingResponse {
        myState := PrintHeading;
      } else if myState == GetAllResponse {
        PrintAll(ps);
        myState := NextObject;
      } else {
        ProcessListOfAll(ps);
        myState := GetPropertyRequest;
      }
      requestInvokeId := 0;
    }

    method PrintAll(ps: seq<Property>)
      modifies this`walk, this`objectList, this`objectListIndex, this`asserted
      ensures View() == PrintedAll(old(View()), ps)
    {
      hide Printed;
      var k := 0;
      assert ps[0..] == ps;
      while k < |ps|
        invariant 0 <= k <= |ps| && PrintedAll(View(), ps[k..]) == PrintedAll(old(View()), ps)
      {
        assert ps[k..][0] == ps[k] && ps[k..][1..] == ps[k + 1..];
        PrintReadPropertyData(ps[k]);
        k := k + 1;
      }
    }

    /** GET_HEADING_RESPONSE, GET_ALL_RESPONSE and GET_LIST_OF_ALL_RESPONSE. */
    method Response(input: Input)
      requires propertyList.Length == LIST_SIZE && E.Inv(View()) && Responding(myState) && Fits(input)
      modifies this, propertyList
      ensures View() == E.Response(old(View()), input)
    {
      hide Processed, ListOfAll;
      Report(input);
      if input.data.Some? {
        assert E.Inv(View());
        ProcessRPMData(input.data.value);
      } else if input.status.Free? {
        InvokeIdFree();
      } else if input.status.Failed? {
        myState := if myState == GetHeadingResponse then PrintHeading else GetAllRequest;
        requestInvokeId := 0;
      } else if errorDetected {
        myState := if myState == GetHeadingResponse then PrintHeading else NextObject;
        requestInvokeId := 0;
      }
    }

    /** The error, abort and reject handlers. */
    method Report(input: Input)
      modifies this`errorDetected, this`last
      ensures View() == Reported(old(View()), input)
    {
      if input.error.Some? {
        errorDetected, last := true, input.error.value;
      }
    }

    method InvokeIdFree()
      modifies this`requestInvokeId, this`myState, this`hasRpm, this`errorDetected
      modifies this`propertyListLength, this`propertyListIndex
      ensures View() == Freed(old(View()))
    {
      requestInvokeId := 0;
      if myState == GetHeadingResponse {
        myState := PrintHeading;
      } else if errorDetected {
        if last.code == ERROR_CODE_REJECT_UNRECOGNIZED_SERVICE {
          hasRpm := false;
          myState := GetPropertyRequest;
        } else if last.code == ERROR_CODE_ABORT_SEGMENTATION_NOT_SUPPORTED {
          myState := GetPropertyRequest;
          StartNextObject();
        } else if myState == GetAllResponse {
          myState := GetListOfAllRequest;
        } else {
          myState := GetPropertyRequest;
          StartNextObject();
        }
      } else if hasRpm {
        myState := GetAllRequest;
      } else {
        myState := GetPropertyRequest;
      }
    }

    method PropertyResponse(input: Input)
      modifies this
      ensures View() == E.PropertyResponse(old(View()), input)
    {
      hide Printed;
      Report(input);
      if input.data.Some? {
        if input.data.value != [] {
          PrintReadPropertyData(input.data.value[0]);
        }
        Advance();
        requestInvokeId := 0;
        myState := GetPropertyRequest;
      } else if input.status.Free? {
        PropertyInvokeIdFree();
      } else if input.status.Failed? {
        requestInvokeId := 0;
        myState := PrintHeading; // number 3
      } else if errorDetected {
        requestInvokeId := 0;
        myState := NextObject;
      }
    }

    method Advance()
      modifies this`walk, this`propertyListIndex
      ensures View() == Advanced(old(View()))
    {
      if walk.on {
        walk := walk.(index := (walk.index + 1) % UINT32);
        if walk.index > walk.length {
          propertyListIndex := propertyListIndex + 1;
          walk := walk.(on := false);
        }
      } else {
        propertyListIndex := propertyListIndex + 1;
      }
    }

    method PropertyInvokeIdFree()
      modifies this`requestInvokeId, this`myState, this`walk, this`propertyListIndex
      ensures View() == PropertyFreed(old(View()))
    {
      requestInvokeId := 0;
      myState := GetPropertyRequest;
      if errorDetected {
        if last.errorClass != ERROR_CLASS_PROPERTY && last.code != ERROR_CODE_UNKNOWN_PROPERTY {
          if isLongArray {
            walk := Walk(true, 0, 0);
            return;
          }
        }
        propertyListIndex := propertyListIndex + 1;
        if propertyListIndex >= propertyListLength {
          myState := NextObject;
        }
      }
    }

    /** NEXT_OBJECT: past devices to the next object in the list. */
    method ToNextObject()
      requires objectListIndex >= -1
      modifies this
      ensures View() == E.ToNextObject(env, old(View()))
    {
      ghost var start := if myObject.kind == OBJECT_DEVICE then 0 else objectListIndex + 1;
      if myObject.kind == OBJECT_DEVICE {
        objectListIndex := -1;
        if env.deviceObjectOnly {
          myObject := myObject.(kind := MAX_BACNET_OBJECT_TYPE);
          return;
        }
      }
      var next := SkipDevices(start);
      objectListIndex := next;
      myObject := if next < |objectList| then objectList[next] else myObject.(kind := MAX_BACNET_OBJECT_TYPE);
      if hasRpm {
        myState := GetAllRequest;
      } else {
        myState := GetPropertyRequest;
        StartNextObject();
      }
    }

    /** The do loop over Object_List_Index. */
    method SkipDevices(ghost start: nat) returns (next: nat)
      requires start == objectListIndex + 1
      ensures next == if start <= |objectList| then NextKey(objectList, start) else start
    {
      next := objectListIndex + 1;
      while next < |objectList| && objectList[next].kind == OBJECT_DEVICE
        invariant start <= next && (start > |objectList| ==> next == start)
        invariant start <= |objectList| ==> next <= |objectList| && NextKey(objectList, next) == NextKey(objectList, start)
      {
        next := next + 1;
      }
    }

    /** One turn of the loop of main(). */
    method Turn(input: Input)
      requires propertyList.Length == LIST_SIZE && E.Inv(View()) && Fits(input)
      modifies this, propertyList
      ensures View() == Step(env, old(View()), input) && E.Inv(View())
    {
      hide E.Response, E.PropertyResponse, E.ReadProperties, E.ToNextObject, E.StartNextObject, Fits, Ended;
      StepKeepsInv(env, View(), input);
      if Responding(myState) {
        Response(input);
      } else if myState == GetPropertyRequest {
        PropertyRequest(input.sentId);
      } else if myState == GetPropertyResponse {
        PropertyResponse(input);
      } else if myState == NextObject {
        ToNextObject();
      } else if myState != InitialBinding {
        SendMultiple(input.sentId);
      } else if input.bound {
        myState := GetHeadingInfo;
      }
    }

    method PropertyRequest(sentId: byte)
      requires propertyList.Length == LIST_SIZE && propertyListIndex < LIST_SIZE
      modifies this, propertyList
      ensures var r := E.ReadProperties(env, old(View()).(error := false), sentId);
        View() == r.(state := if r.id == 0 then NextObject else GetPropertyResponse)
    {
      hide E.ReadProperties;
      errorDetected := false;
      ReadProperties(sentId);
      myState := if requestInvokeId == 0 then NextObject else GetPropertyResponse;
    }

    /** The states that send a ReadPropertyMultiple request; PRINT_HEADING falls
        through to GET_ALL_REQUEST. */
    method SendMultiple(sentId: byte)
      requires myState.GetHeadingInfo? || myState.PrintHeading? || myState.GetAllRequest? || myState.GetListOfAllRequest?
      modifies this`errorDetected, this`propertyListLength, this`propertyListIndex, this`requestInvokeId, this`myState
      ensures View() == E.StartNextObject(old(View())).(id := sentId, state := Sent(old(myState), sentId))
    {
      if myState == PrintHeading {
        myState := GetAllRequest;
      }
      StartNextObject();
      requestInvokeId := sentId;
      if myState == GetHeadingInfo {
        myState := GetHeadingResponse;
      } else if requestInvokeId > 0 {
        myState := if myState == GetListOfAllRequest then GetListOfAllResponse else GetAllResponse;
      }
    }
  }
}
