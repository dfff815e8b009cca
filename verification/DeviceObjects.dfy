/** The objects of a device (apps/piface/device.c): one table entry per object
    type, read as one concatenated array, with names that stay unique. */
module DeviceObjects {
  import opened Octets

  const OBJECT_DEVICE: nat := 8
  const MAX_BACNET_OBJECT_TYPE: nat := 1024
  const BACNET_MAX_INSTANCE: nat := 0x3F_FFFF
  const START_OF_ITERATION: uint32 := 0xFFFF_FFFF

  datatype CharString = CharString(encoding: byte, value: seq<byte>)
  datatype ObjectId = ObjectId(kind: nat, instance: uint32)

  /** object_functions_t; absent functions are null pointers. */
  datatype Entry = Entry(
    kind: nat,
    count: Option<uint32>,
    indexToInstance: Option<uint32 -> uint32>,
    walk: Option<uint32 -> uint32>,
    name: Option<uint32 -> Option<CharString>>)

  type Table = seq<Entry>

  /** The internal index the iterator reaches after `k` steps from the first. */
  function Iterated(next: uint32 -> uint32, k: nat): uint32 {
    if k == 0 then next(START_OF_ITERATION) else next(Iterated(next, k - 1))
  }

  function IndexOf(e: Entry, k: uint32): uint32 {
    if e.walk.Some? then Iterated(e.walk.value, k) else k
  }

  /** The objects of one type, in order. */
  function ListOf(e: Entry): seq<ObjectId> {
    if e.count.None? || e.indexToInstance.None? then []
    else seq(e.count.value, k requires 0 <= k < e.count.value => ObjectId(e.kind, e.indexToInstance.value(IndexOf(e, k))))
  }

  function All(t: Table): seq<ObjectId> {
    if t == [] then [] else ListOf(t[0]) + All(t[1..])
  }

  /** Real types come before the end marker, and types that count objects can
      list them; an unsigned int can count one past the total. */
  ghost predicate WellFormed(t: Table) {
    && (forall e <- t :: e.kind < MAX_BACNET_OBJECT_TYPE && (e.count.Some? ==> e.indexToInstance.Some?))
    && |All(t)| < UINT32 - 1
  }

  lemma {:induction false} AllSplits(t: Table, k: nat)
    requires k <= |t|
    ensures All(t) == All(t[..k]) + All(t[k..])
  {
    hide ListOf;
    if k == 0 {
      assert t[..0] == [] && t[0..] == t;
    } else {
      AllSplits(t[1..], k - 1);
      assert t[..k][1..] == t[1..][..k - 1] && t[1..][k - 1..] == t[k..];
    }
  }

  lemma AllStep(t: Table, k: nat)
    requires k < |t|
    ensures All(t[..k + 1]) == All(t[..k]) + ListOf(t[k])
    ensures |All(t[..k + 1])| <= |All(t)|
  {
    AllSplits(t[..k + 1], k);
    assert t[..k + 1][..k] == t[..k] && t[..k + 1][k..] == [t[k]];
    assert All([t[k]]) == ListOf(t[k]);
    AllSplits(t, k + 1);
  }

  /** What the table walks need to know about the p-th entry. */
  lemma EntryAt(t: Table, p: nat)
    requires WellFormed(t) && p < |t|
    ensures t[p].count.Some? ==> t[p].indexToInstance.Some?
    ensures |ListOf(t[p])| == if t[p].count.Some? then t[p].count.value else 0
    ensures |All(t[..p + 1])| == |All(t[..p])| + |ListOf(t[p])| <= |All(t)|
  {
    hide All;
    AllStep(t, p);
    assert t[p] in t;
  }

  lemma ElementAt(t: Table, p: nat, k: nat)
    requires p < |t| && k < |ListOf(t[p])|
    ensures var i := |All(t[..p])| + k; i < |All(t)| && All(t)[i] == ListOf(t[p])[k]
  {
    hide All, ListOf;
    AllStep(t, p);
    AllSplits(t, p + 1);
  }

  /** Device_Object_List_Count: the length of the concatenation. */
  method ObjectListCount(t: Table) returns (count: uint32)
    requires WellFormed(t)
    ensures count == |All(t)|
  {
    count := 0;
    var p := 0;
    while p < |t|
      invariant 0 <= p <= |t| && count == |All(t[..p])|
    {
      EntryAt(t, p);
      if t[p].count.Some? {
        count := count + t[p].count.value;
      }
      p := p + 1;
    }
    assert t[..p] == t;
  }

  /** Device_Object_List_Identifier: elements 1 to N of the virtual array, and
      nothing else.  The unsigned subtraction never wraps. */
  method ObjectListIdentifier(t: Table, arrayIndex: uint32) returns (id: Option<ObjectId>)
    requires WellFormed(t)
    ensures id == if 1 <= arrayIndex <= |All(t)| then Some(All(t)[arrayIndex - 1]) else None
  {
    if arrayIndex == 0 {
      return None;
    }
    assert t[..0] == [] && All(t[..0]) == [];
    hide All, ListOf, WellFormed;
    var objectIndex: uint32, count: uint32 := arrayIndex - 1, 0;
    var p := 0;
    while p < |t|
      invariant 0 <= p <= |t| && count <= objectIndex
      invariant arrayIndex - 1 == |All(t[..p])| + objectIndex - count
    {
      EntryAt(t, p);
      if t[p].count.Some? {
        objectIndex := objectIndex - count;
        count := t[p].count.value;
        if objectIndex < count {
          ElementAt(t, p, objectIndex);
          id := ListedObject(t[p], objectIndex);
          return;
        }
      }
      p := p + 1;
    }
    assert t[..p] == t;
    return None;
  }

  method ListedObject(e: Entry, objectIndex: uint32) returns (id: Option<ObjectId>)
    requires e.count.Some? && e.indexToInstance.Some? && objectIndex < |ListOf(e)|
    ensures id == Some(ListOf(e)[objectIndex])
  {
    var index := InternalIndex(e, objectIndex);
    id := Some(ObjectId(e.kind, e.indexToInstance.value(index)));
  }

  /** Steps through the objects to find the n-th, if there is an iterator. */
  method InternalIndex(e: Entry, objectIndex: uint32) returns (index: uint32)
    ensures index == IndexOf(e, objectIndex)
  {
    index := objectIndex;
    if e.walk.Some? {
      var left: int := objectIndex;
      index := e.walk.value(START_OF_ITERATION);
      while left != 0
        invariant 0 <= left <= objectIndex && index == Iterated(e.walk.value, objectIndex - left)
      {
        index := e.walk.value(index);
        left := left - 1;
      }
    }
  }

  // ---- Reading the object list ----

  /** Tag 12 with four octets: ten bits of type and 22 of instance. */
  function EncodeObjectId(id: ObjectId): (r: seq<byte>)
    ensures |r| == 5
  {
    [0xC4] + EncodeBig(id.kind % 0x400 * 0x40_0000 + id.instance % 0x40_0000, 4)
  }

  /** An application tag (class bit clear) with number 12 and length 4. */
  function DecodeObjectId(r: seq<byte>): Option<ObjectId>
    requires |r| == 5
  {
    if r[0] / 16 != 12 || r[0] / 8 % 2 != 0 || r[0] % 8 != 4 then None
    else
      var v := DecodeBig(r[1..]);
      Some(ObjectId(v / 0x40_0000, v % 0x40_0000))
  }

  lemma ObjectIdRoundTrip(id: ObjectId)
    requires id.kind < 0x400 && id.instance <= BACNET_MAX_INSTANCE
    ensures DecodeObjectId(EncodeObjectId(id)) == Some(id)
  {
    hide EncodeBig, DecodeBig, FitsIn;
    var v := id.kind % 0x400 * 0x40_0000 + id.instance % 0x40_0000;
    Fits32(v);
    BigRoundTrip(v, 4);
    assert EncodeObjectId(id)[1..] == EncodeBig(v, 4);
    KindAndInstance(id.kind, id.instance);
  }

  /** On the wire: the tag octet, then type and instance, the high octets first. */
  lemma ObjectIdOctets(id: ObjectId)
    requires id.kind < 0x400 && id.instance <= BACNET_MAX_INSTANCE
    ensures EncodeObjectId(id) == [0xC4, id.kind / 4, id.kind % 4 * 64 + id.instance / 0x1_0000,
                                   id.instance / 0x100 % 0x100, id.instance % 0x100]
  {
    hide EncodeBig, EncodeObjectId;
    EncodedAs(id);
    BigOctets(id.kind * 0x40_0000 + id.instance);
    OctetsOfId(id.kind, id.instance);
  }

  lemma EncodedAs(id: ObjectId)
    requires id.kind < 0x400 && id.instance <= BACNET_MAX_INSTANCE
    ensures id.kind * 0x40_0000 + id.instance < 0x1_0000_0000
    ensures EncodeObjectId(id) == [0xC4] + EncodeBig(id.kind * 0x40_0000 + id.instance, 4)
  {
    hide EncodeBig;
  }

  lemma BigOctets(v: uint32)
    ensures EncodeBig(v, 4) == [v / 0x100_0000, v / 0x1_0000 % 0x100, v / 0x100 % 0x100, v % 0x100]
  {
    assert EncodeBig(v / 0x100_0000, 1) == EncodeBig(v / 0x100_0000 / 0x100, 0) + [v / 0x100_0000 % 0x100];
    assert EncodeBig(v / 0x1_0000, 2) == EncodeBig(v / 0x1_0000 / 0x100, 1) + [v / 0x1_0000 % 0x100];
    assert EncodeBig(v / 0x100, 3) == EncodeBig(v / 0x100 / 0x100, 2) + [v / 0x100 % 0x100];
  }

  lemma OctetsOfId(kind: nat, instance: nat)
    requires kind < 0x400 && instance < 0x40_0000
    ensures var v := kind * 0x40_0000 + instance;
      && v / 0x100_0000 == kind / 4 && v / 0x1_0000 % 0x100 == kind % 4 * 64 + instance / 0x1_0000
      && v / 0x100 % 0x100 == instance / 0x100 % 0x100 && v % 0x100 == instance % 0x100
  {
    var k, r := kind / 4, kind % 4;
    var v := kind * 0x40_0000 + instance;
    assert v == k * 0x100_0000 + r * 0x40_0000 + instance;
    var high := instance / 0x1_0000;
    assert v / 0x1_0000 == k * 0x100 + r * 64 + high;
    assert v / 0x100 == (kind * 0x4000 + instance / 0x100);
  }

  lemma KindAndInstance(kind: nat, instance: nat)
    requires kind < 0x400 && instance < 0x40_0000
    ensures (kind * 0x40_0000 + instance) / 0x40_0000 == kind && (kind * 0x40_0000 + instance) % 0x40_0000 == instance
  {}

  function EncodeAll(ids: seq<ObjectId>): seq<byte> {
    if ids == [] then [] else EncodeAll(ids[..|ids| - 1]) + EncodeObjectId(ids[|ids| - 1])
  }

  lemma {:induction false} EncodeAllAt(ids: seq<ObjectId>, i: nat)
    ensures |EncodeAll(ids)| == 5 * |ids|
    ensures i < |ids| ==> EncodeAll(ids)[5 * i..5 * i + 5] == EncodeObjectId(ids[i])
  {
    hide EncodeObjectId;
    if ids == [] {
    } else {
      var n := |ids| - 1;
      EncodeAllAt(ids[..n], i);
      EncodeAllAt(ids[..n], 0);
    }
  }

  /** Results of a read of Object_List. */
  datatype ListRead = Count(count: uint32) | Octets(octets: seq<byte>) | Abort | InvalidArrayIndex | InternalError

  const BACNET_ARRAY_ALL: uint32 := 0xFFFF_FFFF

  function ReadOf(t: Table, arrayIndex: uint32, apduMax: nat): ListRead
    requires WellFormed(t)
  {
    var n := |All(t)|;
    if arrayIndex == 0 then Count(n)
    else if arrayIndex == BACNET_ARRAY_ALL then
      if n > 1 && 5 * n >= apduMax then Abort else Octets(EncodeAll(All(t)))
    else if arrayIndex <= n then Octets(EncodeObjectId(All(t)[arrayIndex - 1]))
    else InvalidArrayIndex
  }

  /** PROP_OBJECT_LIST of Device_Read_Property_Local.  Only the first apduMax
      octets of the buffer are written. */
  method ReadObjectList(t: Table, arrayIndex: uint32, apdu: array<byte>, apduMax: nat) returns (r: ListRead)
    requires WellFormed(t) && 5 <= apduMax <= apdu.Length
    modifies apdu
    ensures r == ReadOf(t, arrayIndex, apduMax)
    ensures r.Octets? ==> |r.octets| <= apduMax && apdu[..|r.octets|] == r.octets
    ensures apdu[apduMax..] == old(apdu[apduMax..])
  {
    var count := ObjectListCount(t);
    if arrayIndex == 0 {
      return Count(count);
    } else if arrayIndex == BACNET_ARRAY_ALL {
      r := ReadWholeList(t, count, apdu, apduMax);
    } else {
      var found := ObjectListIdentifier(t, arrayIndex);
      if found.Some? {
        PutObjectId(apdu, 0, found.value);
        assert apdu[..5] == EncodeObjectId(found.value);
        r := Octets(apdu[..5]);
      } else {
        r := InvalidArrayIndex;
      }
    }
  }

  method PutObjectId(apdu: array<byte>, at: nat, id: ObjectId)
    requires at + 5 <= apdu.Length
    modifies apdu
    ensures apdu[..at] == old(apdu[..at]) && apdu[at..at + 5] == EncodeObjectId(id) && apdu[at + 5..] == old(apdu[at + 5..])
  {
    var b := EncodeObjectId(id);
    apdu[at + 1], apdu[at + 2], apdu[at + 3], apdu[at + 4] := b[1], b[2], b[3], b[4];
    apdu[at] := b[0];
    assert apdu[at..at + 5] == b;
  }

  method ReadWholeList(t: Table, count: uint32, apdu: array<byte>, apduMax: nat) returns (r: ListRead)
    requires WellFormed(t) && count == |All(t)| && 5 <= apduMax <= apdu.Length
    modifies apdu
    ensures r == ReadOf(t, BACNET_ARRAY_ALL, apduMax)
    ensures r.Octets? ==> |r.octets| <= apduMax && apdu[..|r.octets|] == r.octets
    ensures apdu[apduMax..] == old(apdu[apduMax..])
  {
    hide EncodeObjectId, WellFormed, ListOf, All;
    ghost var ids := All(t);
    var apduLen: nat, i: nat := 0, 1;
    assert ids[..0] == [];
    while i <= count
      invariant 1 <= i <= count + 1 && apduLen == 5 * (i - 1)
      invariant count > 1 && i > 1 ==> 5 * (if i <= count then i else count) < apduMax
      invariant apduLen <= apduMax
      invariant apdu[..apduLen] == EncodeAll(ids[..i - 1])
      invariant apdu[apduMax..] == old(apdu[apduMax..])
    {
      var found := ObjectListIdentifier(t, i);
      if found.Some? {
        ghost var before := apdu[..apduLen];
        PutObjectId(apdu, apduLen, found.value);
        apduLen := apduLen + 5;
        assert apdu[..apduLen] == before + EncodeObjectId(ids[i - 1]);
        assert ids[..i][..i - 1] == ids[..i - 1];
        if i != count && apduLen + 5 >= apduMax {
          return Abort;
        }
      } else {
        return InternalError;
      }
      i := i + 1;
    }
    assert ids[..count] == ids;
    EncodeAllAt(ids, 0);
    r := Octets(apdu[..apduLen]);
  }

  /** A whole-list read that is not aborted holds exactly what the element reads
      give, in order; decoding it gives back the list. */
  lemma {:induction false} WholeReadIsElementReads(t: Table, apduMax: nat, i: uint32)
    requires WellFormed(t) && 1 <= i <= |All(t)| && i < BACNET_ARRAY_ALL
    requires All(t)[i - 1].instance <= BACNET_MAX_INSTANCE
    ensures var whole := ReadOf(t, BACNET_ARRAY_ALL, apduMax); var element := ReadOf(t, i, apduMax);
      && (whole.Abort? <==> |All(t)| > 1 && 5 * |All(t)| >= apduMax)
      && (!whole.Abort? ==> whole.Octets? && |whole.octets| == 5 * |All(t)|
                            && element == Octets(whole.octets[5 * i - 5..5 * i]))
      && element.Octets? && DecodeObjectId(element.octets) == Some(All(t)[i - 1])
  {
    hide EncodeObjectId, DecodeObjectId, EncodeAll;
    EncodeAllAt(All(t), i - 1);
    KindsInRange(t, i - 1);
    ObjectIdRoundTrip(All(t)[i - 1]);
  }

  /** Outside 1..N there are no elements: index 0 is the count, and others have none. */
  lemma OtherReads(t: Table, apduMax: nat, i: uint32)
    requires WellFormed(t) && i != 0xFFFF_FFFF && !(1 <= i <= |All(t)|)
    ensures ReadOf(t, i, apduMax) == if i == 0 then Count(|All(t)|) else InvalidArrayIndex
  {}

  lemma {:induction false} KindsInRange(t: Table, i: nat)
    requires i < |All(t)|
    ensures exists e :: e in t && All(t)[i].kind == e.kind
  {
    if i < |ListOf(t[0])| {
      assert t[0] in t;
    } else {
      KindsInRange(t[1..], i - |ListOf(t[0])|);
    }
  }

  // ---- Names ----

  /** Device_Objects_Find_Functions. */
  function FindFunctions(t: Table, kind: nat): (r: Option<Entry>)
    ensures r.Some? ==> r.value in t && r.value.kind == kind
    ensures r.None? ==> forall e <- t :: e.kind != kind
  {
    if t == [] then None else if t[0].kind == kind then Some(t[0]) else FindFunctions(t[1..], kind)
  }

  function NameOf(t: Table, id: ObjectId): Option<CharString> {
    match FindFunctions(t, id.kind)
    case None => None
    case Some(e) => if e.name.None? then None else e.name.value(id.instance)
  }

  /** The names of all objects, in the order of the list. */
  function Names(t: Table): (names: seq<Option<CharString>>)
    ensures |names| == |All(t)|
  {
    seq(|All(t)|, i requires 0 <= i < |All(t)| => NameOf(t, All(t)[i]))
  }

  /** The object at place `k` is the first with the name. */
  ghost predicate FirstNamed(t: Table, name: CharString, k: nat) {
    k < |Names(t)| && Names(t)[k] == Some(name) && Some(name) !in Names(t)[..k]
  }

  method FindEntry(t: Table, kind: nat) returns (r: Option<Entry>)
    ensures r == FindFunctions(t, kind)
  {
    var p := 0;
    assert t[0..] == t;
    while p < |t|
      invariant 0 <= p <= |t| && FindFunctions(t, kind) == FindFunctions(t[p..], kind)
    {
      assert t[p..][0] == t[p] && t[p..][1..] == t[p + 1..];
      if t[p].kind == kind {
        return Some(t[p]);
      }
      p := p + 1;
    }
    return None;
  }

  /** Device_Valid_Object_Name: the first object with the name, exactly when one
      exists. */
  method ValidObjectName(t: Table, name: CharString) returns (id: Option<ObjectId>)
    requires WellFormed(t)
    ensures id.None? <==> Some(name) !in Names(t)
    ensures id.Some? ==> exists k: nat :: FirstNamed(t, name, k) && id.value == All(t)[k]
  {
    hide WellFormed;
    var maxObjects := ObjectListCount(t);
    var i: nat := 1;
    while i <= maxObjects
      invariant 1 <= i && i - 1 <= maxObjects
      invariant forall l :: 0 <= l < i - 1 ==> Names(t)[l] != Some(name)
    {
      id := ObjectListIdentifier(t, i);
      if id.Some? {
        var entry := FindEntry(t, id.value.kind);
        if entry.Some? && entry.value.name.Some? && entry.value.name.value(id.value.instance) == Some(name) {
          assert FirstNamed(t, name, i - 1);
          return;
        }
      }
      i := i + 1;
    }
    id := None;
  }
}
