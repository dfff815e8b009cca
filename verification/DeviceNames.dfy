/** Writes to the name and the identifier of the Device object, which keep all
    object names in the device distinct. */
module DeviceNames {
  import opened Octets
  import opened DeviceObjects

  /** The static variables behind the Device object. */
  datatype Dev = Dev(instance: uint32, name: CharString, revision: uint32)

  /** The table entry of the Device object: the first one. */
  function DeviceEntry(d: Dev): Entry {
    Entry(OBJECT_DEVICE, Some(1), Some((_: uint32) => d.instance), None,
          Some((n: uint32) => if n == d.instance then Some(d.name) else None))
  }

  function Objects(d: Dev, others: Table): Table {
    [DeviceEntry(d)] + others
  }

  function DeviceId(d: Dev): ObjectId {
    ObjectId(OBJECT_DEVICE, d.instance)
  }

  /** `valid` is the verdict of WPValidateString on the value. */
  datatype Write = SetName(valid: bool, name: CharString) | SetId(kind: nat, instance: uint32)
  datatype Result = Ok | InvalidString | DuplicateName | ValueOutOfRange

  /** What a write is for: a name goes to the device unless it belongs to an
      object, and an identifier unless it is not one of a device. */
  function After(d: Dev, others: Table, w: Write): Dev {
    match w
    case SetName(valid, name) =>
      if valid && Some(name) !in Names(Objects(d, others)) then d.(name := name, revision := (d.revision + 1) % UINT32) else d
    case SetId(kind, instance) =>
      if kind == OBJECT_DEVICE && instance <= BACNET_MAX_INSTANCE
      then d.(instance := instance, revision := (d.revision + 1) % UINT32) else d
  }

  function AfterAll(d: Dev, others: Table, ws: seq<Write>): Dev
    decreases |ws|
  {
    if ws == [] then d else AfterAll(After(d, others, ws[0]), others, ws[1..])
  }

  ghost predicate Distinct(names: seq<Option<CharString>>) {
    forall i, j :: 0 <= i < j < |names| && names[i].Some? ==> names[i] != names[j]
  }

  /** No two objects of the device have the same name. */
  ghost predicate DistinctNames(d: Dev, others: Table) {
    Distinct(Names(Objects(d, others)))
  }

  ghost predicate OtherTypes(others: Table) {
    WellFormed(others) && |All(others)| < UINT32 - 2 && forall e <- others :: e.kind != OBJECT_DEVICE
  }

  // ---- The table around the Device object ----

  lemma {:induction false} DeviceFirst(d: Dev, others: Table)
    requires OtherTypes(others)
    ensures All(Objects(d, others)) == [DeviceId(d)] + All(others)
    ensures WellFormed(Objects(d, others))
    ensures Names(Objects(d, others)) == [Some(d.name)] + Names(others)
  {
    var t, all := Objects(d, others), All(others);
    DeviceListed(d, others);
    var names, rest := Names(t), Names(others);
    assert NameOf(t, DeviceId(d)) == Some(d.name);
    hide All, WellFormed, ListOf, FindFunctions, NameOf;
    assert |names| == 1 + |rest| && names[0] == Some(d.name);
    forall i | 0 <= i < |all| ensures names[i + 1] == rest[i] {
      KindsInRange(others, i);
      OtherNames(d, others, all[i]);
    }
  }

  lemma DeviceListed(d: Dev, others: Table)
    requires OtherTypes(others)
    ensures All(Objects(d, others)) == [DeviceId(d)] + All(others)
    ensures WellFormed(Objects(d, others))
  {
    var t := Objects(d, others);
    assert t[1..] == others;
    assert ListOf(DeviceEntry(d)) == [DeviceId(d)];
  }

  /** Names of other objects are looked up behind the device's entry. */
  lemma OtherNames(d: Dev, others: Table, id: ObjectId)
    requires id.kind != OBJECT_DEVICE
    ensures NameOf(Objects(d, others), id) == NameOf(others, id)
  {
    assert Objects(d, others)[1..] == others;
  }

  lemma DistinctAround(name: CharString, names: seq<Option<CharString>>)
    ensures Distinct([Some(name)] + names) <==> Distinct(names) && Some(name) !in names
  {
    var all := [Some(name)] + names;
    if Distinct(all) {
      forall i | 0 <= i < |names| ensures names[i] != Some(name) {
        assert all[0] != all[i + 1];
      }
      forall i, j | 0 <= i < j < |names| && names[i].Some? ensures names[i] != names[j] {
        assert all[i + 1] != all[j + 1];
      }
    }
    if Distinct(names) && Some(name) !in names {
      forall i, j | 0 <= i < j < |all| && all[i].Some? ensures all[i] != all[j] {
        assert all[j] == names[j - 1];
        assert i > 0 ==> all[i] == names[i - 1];
      }
    }
  }

  lemma {:induction false} WriteKeepsDistinct(d: Dev, others: Table, w: Write)
    requires OtherTypes(others) && DistinctNames(d, others)
    ensures DistinctNames(After(d, others, w), others)
  {
    hide Distinct;
    var d' := After(d, others, w);
    DeviceFirst(d, others);
    DeviceFirst(d', others);
    DistinctAround(d.name, Names(others));
    DistinctAround(d'.name, Names(others));
  }

  /** Over any sequence of writes, valid or not, all names stay distinct. */
  lemma {:induction false} NamesStayDistinct(d: Dev, others: Table, ws: seq<Write>)
    requires OtherTypes(others) && DistinctNames(d, others)
    ensures DistinctNames(AfterAll(d, others, ws), others)
    decreases |ws|
  {
    if ws == [] {
    } else {
      WriteKeepsDistinct(d, others, ws[0]);
      NamesStayDistinct(After(d, others, ws[0]), others, ws[1..]);
    }
  }

  // ---- What the writes come to ----

  predicate TakesName(others: Table, w: Write) {
    w.SetName? && w.valid && Some(w.name) !in Names(others)
  }

  predicate TakesId(w: Write) {
    w.SetId? && w.kind == 8 && w.instance <= 0x3F_FFFF
  }

  /** The last valid name that no other object has. */
  function LastName(d: Dev, others: Table, ws: seq<Write>): CharString {
    if ws == [] then d.name
    else if TakesName(others, ws[|ws| - 1]) then ws[|ws| - 1].name
    else LastName(d, others, ws[..|ws| - 1])
  }

  /** The last instance in range from an identifier of a device. */
  function LastInstance(d: Dev, ws: seq<Write>): uint32 {
    if ws == [] then d.instance
    else if TakesId(ws[|ws| - 1]) then ws[|ws| - 1].instance
    else LastInstance(d, ws[..|ws| - 1])
  }

  /** The writes that change the name, or set an instance, even to the same. */
  function Changes(d: Dev, others: Table, ws: seq<Write>): nat {
    if ws == [] then 0
    else
      var before, last := ws[..|ws| - 1], ws[|ws| - 1];
      Changes(d, others, before)
      + if TakesId(last) || (TakesName(others, last) && last.name != LastName(d, others, before)) then 1 else 0
  }

  lemma {:induction false} LastWrite(d: Dev, others: Table, ws: seq<Write>)
    requires ws != []
    ensures AfterAll(d, others, ws) == After(AfterAll(d, others, ws[..|ws| - 1]), others, ws[|ws| - 1])
    decreases |ws|
  {
    hide After;
    if |ws| > 1 {
      LastWrite(After(d, others, ws[0]), others, ws[1..]);
      assert ws[1..][..|ws| - 2] == ws[..|ws| - 1][1..];
    }
  }

  lemma OneWrite(d: Dev, others: Table, w: Write)
    requires OtherTypes(others)
    ensures var d' := After(d, others, w); var changes := TakesId(w) || (TakesName(others, w) && w.name != d.name);
      && d'.name == (if TakesName(others, w) then w.name else d.name)
      && d'.instance == (if TakesId(w) then w.instance else d.instance)
      && d'.revision == if changes then (d.revision + 1) % 0x1_0000_0000 else d.revision
  {
    DeviceFirst(d, others);
    hide OtherTypes, Names;
  }

  /** After any writes the device has the last valid name that is no other
      object's, the last instance in range, and a revision that counts every
      change (modulo 2^32). */
  lemma {:induction false} WritesTakeEffect(d: Dev, others: Table, ws: seq<Write>)
    requires OtherTypes(others)
    ensures var d' := AfterAll(d, others, ws);
      && d'.name == LastName(d, others, ws) && d'.instance == LastInstance(d, ws)
      && d'.revision == (d.revision + Changes(d, others, ws)) % 0x1_0000_0000
    decreases |ws|
  {
    hide OtherTypes, After, TakesName, TakesId;
    if ws == [] {
    } else {
      WritesTakeEffect(d, others, ws[..|ws| - 1]);
      LastWrite(d, others, ws);
      OneWrite(AfterAll(d, others, ws[..|ws| - 1]), others, ws[|ws| - 1]);
    }
  }

  class Device {
    const others: Table
    var instance: uint32
    var name: CharString
    var revision: uint32

    ghost function View(): Dev
      reads this
    {
      Dev(instance, name, revision)
    }

    ghost predicate Valid()
      reads this
    {
      OtherTypes(others) && DistinctNames(View(), others)
    }

    /** The object name branch of Device_Write_Property_Local. */
    method WriteObjectName(valid: bool, value: CharString) returns (r: Result)
      requires Valid()
      modifies this
      ensures Valid() && View() == After(old(View()), others, SetName(valid, value))
      ensures r == if !valid then InvalidString
                   else if value != old(name) && Some(value) in Names(others) then DuplicateName else Ok
    {
      if !valid {
        return InvalidString;
      }
      ghost var d := View();
      DeviceFirst(d, others);
      WriteKeepsDistinct(d, others, SetName(valid, value));
      var t := Objects(Dev(instance, name, revision), others);
      var found := ValidObjectName(t, value);
      if found.Some? {
        FoundAtDevice(d, others, found.value, value);
        r := if found.value == ObjectId(OBJECT_DEVICE, instance) then Ok else DuplicateName;
      } else {
        SetObjectName(value);
        r := Ok;
      }
    }

    /** Device_Set_Object_Name. */
    method SetObjectName(value: CharString)
      modifies this`name, this`revision
      ensures name == value && revision == if value == old(name) then old(revision) else (old(revision) + 1) % UINT32
    {
      if name != value {
        name := value;
        revision := (revision + 1) % UINT32;
      }
    }

    /** The object identifier branch, and Device_Set_Object_Instance_Number. */
    method WriteObjectIdentifier(kind: nat, value: uint32) returns (r: Result)
      requires Valid()
      modifies this
      ensures Valid() && View() == After(old(View()), others, SetId(kind, value))
      ensures r == if kind == OBJECT_DEVICE && value <= BACNET_MAX_INSTANCE then Ok else ValueOutOfRange
    {
      WriteKeepsDistinct(View(), others, SetId(kind, value));
      if kind == OBJECT_DEVICE && value <= BACNET_MAX_INSTANCE {
        instance := value;
        revision := (revision + 1) % UINT32;
        r := Ok;
      } else {
        r := ValueOutOfRange;
      }
    }
  }

  /** With distinct names, a name is found at the device exactly when it is the
      device's own. */
  lemma FoundAtDevice(d: Dev, others: Table, id: ObjectId, name: CharString)
    requires OtherTypes(others) && DistinctNames(d, others)
    requires var t := Objects(d, others); exists k: nat :: FirstNamed(t, name, k) && id == All(t)[k]
    ensures id == DeviceId(d) <==> name == d.name
  {
    hide NameOf, Distinct, WellFormed;
    var t := Objects(d, others);
    DeviceFirst(d, others);
    var k: nat :| FirstNamed(t, name, k) && id == All(t)[k];
    assert Names(t)[0] == Some(d.name);
    if k > 0 {
      assert All(t)[k] == All(others)[k - 1];
      KindsInRange(others, k - 1);
      assert Some(d.name) in Names(t)[..k];
    }
  }
}
