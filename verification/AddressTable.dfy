/** The table of devices that apps/whois has heard of, with a flag on device ids
    that were announced from several addresses. */
module AddressTable {
  import opened Octets

  const MAX_MAC_LEN := 7

  type Octets7 = s: seq<byte> | |s| == 7 witness [0, 0, 0, 0, 0, 0, 0]

  /** BACNET_ADDRESS; the arrays have MAX_MAC_LEN octets whatever the lengths. */
  datatype Address = Address(macLen: byte, mac: Octets7, net: uint16, len: byte, adr: Octets7)

  function Prefix(octets: Octets7, len: byte): seq<byte> {
    octets[..if len > MAX_MAC_LEN then MAX_MAC_LEN else len]
  }

  /** bacnet_address_same: the local address counts only on the local network. */
  predicate Same(a: Address, b: Address) {
    && a.net == b.net && a.len == b.len && Prefix(a.adr, a.len) == Prefix(b.adr, b.len)
    && (a.net == 0 ==> a.macLen == b.macLen && Prefix(a.mac, a.macLen) == Prefix(b.mac, b.macLen))
  }

  method SamePrefix(a: Octets7, b: Octets7, len: byte) returns (same: bool)
    ensures same <==> Prefix(a, len) == Prefix(b, len)
  {
    var maxLen := if len > MAX_MAC_LEN then MAX_MAC_LEN else len;
    var i := 0;
    while i < maxLen
      invariant 0 <= i <= maxLen && a[..i] == b[..i]
    {
      if a[i] != b[i] {
        assert Prefix(a, len)[i] != Prefix(b, len)[i];
        return false;
      }
      assert a[..i + 1] == a[..i] + [a[i]];
      i := i + 1;
    }
    return true;
  }

  method AddressSame(a: Address, b: Address) returns (same: bool)
    ensures same <==> Same(a, b)
  {
    if a.net != b.net || a.len != b.len {
      return false;
    }
    var sameAdr := SamePrefix(a.adr, b.adr, a.len);
    if !sameAdr {
      return false;
    }
    if a.net == 0 {
      if a.macLen != b.macLen {
        return false;
      }
      same := SamePrefix(a.mac, b.mac, a.macLen);
    } else {
      same := true;
    }
  }

  // ---- The table ----

  datatype Entry = Entry(mult: bool, deviceId: uint32, maxApdu: nat, address: Address)

  datatype IAm = IAm(deviceId: uint32, maxApdu: nat, address: Address)

  predicate IsFrom(e: Entry, m: IAm) {
    e.deviceId == m.deviceId && Same(e.address, m.address)
  }

  /** The entry at which the walk returns early, or the length of the list. */
  function Known(es: seq<Entry>, m: IAm): (k: nat)
    ensures k <= |es|
    ensures k < |es| ==> IsFrom(es[k], m)
    ensures forall j :: 0 <= j < k ==> !IsFrom(es[j], m)
  {
    if es == [] || IsFrom(es[0], m) then 0 else 1 + Known(es[1..], m)
  }

  function Flag(e: Entry, id: uint32): Entry {
    if e.deviceId == id then e.(mult := true) else e
  }

  /** The device id occurs among the first `n` entries. */
  predicate Announced(es: seq<Entry>, id: uint32, n: nat)
    requires n <= |es|
  {
    exists e <- es[..n] :: e.deviceId == id
  }

  /** address_table_add: flags on the way, up to an entry for the same address. */
  function Add(es: seq<Entry>, m: IAm): seq<Entry> {
    var k := Known(es, m);
    var flagged := seq(|es|, i requires 0 <= i < |es| => if i < k then Flag(es[i], m.deviceId) else es[i]);
    if k < |es| then flagged
    else flagged + [Entry(Announced(es, m.deviceId, |es|), m.deviceId, m.maxApdu, m.address)]
  }

  ghost predicate NoRepeats(es: seq<Entry>) {
    forall i, j :: 0 <= i < j < |es| ==> !(es[i].deviceId == es[j].deviceId && Same(es[i].address, es[j].address))
  }

  ghost predicate HasOther(es: seq<Entry>, i: nat)
    requires i < |es|
  {
    exists j :: 0 <= j < |es| && j != i && es[j].deviceId == es[i].deviceId
  }

  /** The flag says exactly that another entry has the same device id. */
  ghost predicate FlagsExact(es: seq<Entry>) {
    forall i :: 0 <= i < |es| ==> (es[i].mult <==> HasOther(es, i))
  }

  lemma FlagsAlreadySet(es: seq<Entry>, m: IAm)
    requires FlagsExact(es) && Known(es, m) < |es|
    ensures Add(es, m) == es
  {
    var k := Known(es, m);
    forall i | 0 <= i < k ensures Flag(es[i], m.deviceId) == es[i] {
      assert es[i].deviceId == m.deviceId ==> HasOther(es, i);
    }
  }

  lemma AddKeepsFlags(es: seq<Entry>, m: IAm)
    requires FlagsExact(es)
    ensures FlagsExact(Add(es, m))
  {
    var n := |es|;
    if Known(es, m) < n {
      FlagsAlreadySet(es, m);
    } else {
      var es' := Add(es, m);
      forall i: nat | i <= n ensures es'[i].mult <==> HasOther(es', i) {
        if i < n && HasOther(es, i) {
          var j :| 0 <= j < n && j != i && es[j].deviceId == es[i].deviceId;
          assert es'[j].deviceId == es'[i].deviceId;
        }
        if HasOther(es', i) {
          var j :| 0 <= j <= n && j != i && es'[j].deviceId == es'[i].deviceId;
          assert i < n && j < n ==> es[j].deviceId == es[i].deviceId;
        }
        assert es[..n] == es;
        assert i < n && es[i].deviceId == m.deviceId ==> es'[n].deviceId == es'[i].deviceId;
        if i == n && es'[n].mult {
          var e :| e in es && e.deviceId == m.deviceId;
          var j :| 0 <= j < n && es[j] == e;
          assert es'[j].deviceId == es'[n].deviceId;
        }
      }
    }
  }

  lemma AddKeepsNoRepeats(es: seq<Entry>, m: IAm)
    requires NoRepeats(es)
    ensures NoRepeats(Add(es, m))
  {
    var es' := Add(es, m);
    forall i, j | 0 <= i < j < |es'| ensures !(es'[i].deviceId == es'[j].deviceId && Same(es'[i].address, es'[j].address)) {
      if j == |es| {
        assert !IsFrom(es[i], m);
      } else {
        assert es'[i].address == es[i].address && es'[j].address == es[j].address;
      }
    }
  }

  function AddAll(ms: seq<IAm>): seq<Entry> {
    if ms == [] then [] else Add(AddAll(ms[..|ms| - 1]), ms[|ms| - 1])
  }

  ghost predicate Heard(ms: seq<IAm>, e: Entry) {
    exists i :: 0 <= i < |ms| && e.deviceId == ms[i].deviceId && e.address == ms[i].address && e.maxApdu == ms[i].maxApdu
  }

  /** After any I-Am messages: no entry twice, exact flags, an entry for every
      sender, and no entry that nobody sent. */
  lemma {:induction false} EveryTable(ms: seq<IAm>)
    ensures NoRepeats(AddAll(ms)) && FlagsExact(AddAll(ms))
    ensures forall m <- ms :: exists e <- AddAll(ms) :: IsFrom(e, m)
    ensures forall e <- AddAll(ms) :: Heard(ms, e)
  {
    if ms == [] {
    } else {
      var n := |ms| - 1;
      var before, last := ms[..n], ms[n];
      var es := AddAll(before);
      EveryTable(before);
      assert ms == before + [last] && AddAll(ms) == Add(es, last);
      hide AddAll, Add, NoRepeats, FlagsExact, Heard, IsFrom;
      AddKeepsFlags(es, last);
      AddKeepsNoRepeats(es, last);
      forall m <- ms ensures exists e <- Add(es, last) :: IsFrom(e, m) {
        assert m == last || m in before;
        AddHasSender(es, last, m);
      }
      forall e <- Add(es, last) ensures Heard(ms, e) {
        AddedWasHeard(es, before, last, e);
      }
    }
  }

  lemma AddHasSender(es: seq<Entry>, last: IAm, m: IAm)
    requires m == last || exists e <- es :: IsFrom(e, m)
    ensures exists e <- Add(es, last) :: IsFrom(e, m)
  {
    var es' := Add(es, last);
    if e :| e in es && IsFrom(e, m) {
      var i :| 0 <= i < |es| && es[i] == e;
      assert IsFrom(es'[i], m);
    } else {
      var k := Known(es, last);
      assert IsFrom(es'[k], m);
    }
  }

  lemma AddedWasHeard(es: seq<Entry>, before: seq<IAm>, last: IAm, e: Entry)
    requires forall e <- es :: Heard(before, e)
    requires e in Add(es, last)
    ensures Heard(before + [last], e)
  {
    var es' := Add(es, last);
    var i :| 0 <= i < |es'| && es'[i] == e;
    if i < |es| {
      assert Heard(before, es[i]);
      var j :| 0 <= j < |before| && es[i].deviceId == before[j].deviceId && es[i].address == before[j].address
               && es[i].maxApdu == before[j].maxApdu;
      assert (before + [last])[j] == before[j];
    } else {
      assert (before + [last])[|before|] == last;
    }
  }

  // ---- What the table holds ----

  /** An earlier message had the same device id and address. */
  predicate Repeats(ms: seq<IAm>, i: nat)
    requires i < |ms|
  {
    exists j :: 0 <= j < i && ms[j].deviceId == ms[i].deviceId && Same(ms[j].address, ms[i].address)
  }

  /** The messages that repeat no earlier one. */
  function FirstMessages(ms: seq<IAm>): seq<IAm> {
    if ms == [] then []
    else
      var n := |ms| - 1;
      FirstMessages(ms[..n]) + if Repeats(ms, n) then [] else [ms[n]]
  }

  function Contents(es: seq<Entry>): seq<IAm> {
    seq(|es|, i requires 0 <= i < |es| => IAm(es[i].deviceId, es[i].maxApdu, es[i].address))
  }

  lemma SameIsEquivalence(a: Address, b: Address, c: Address)
    ensures Same(a, a) && (Same(a, b) ==> Same(b, a)) && (Same(a, b) && Same(b, c) ==> Same(a, c))
  {}

  lemma {:induction false} KnownIffRepeats(ms: seq<IAm>)
    requires ms != []
    ensures Known(AddAll(ms[..|ms| - 1]), ms[|ms| - 1]) < |AddAll(ms[..|ms| - 1])| <==> Repeats(ms, |ms| - 1)
  {
    var before, m := ms[..|ms| - 1], ms[|ms| - 1];
    var es := AddAll(before);
    EveryTable(before);
    hide AddAll, NoRepeats, FlagsExact, Same;
    if Known(es, m) < |es| {
      var e := es[Known(es, m)];
      assert Heard(before, e);
      var j :| 0 <= j < |before| && e.deviceId == before[j].deviceId && e.address == before[j].address;
      assert ms[j] == before[j];
    }
    if Repeats(ms, |ms| - 1) {
      var j :| 0 <= j < |ms| - 1 && ms[j].deviceId == m.deviceId && Same(ms[j].address, m.address);
      assert before[j] == ms[j] && before[j] in before;
      var e :| e in es && IsFrom(e, before[j]);
      SameIsEquivalence(e.address, ms[j].address, m.address);
      var i :| 0 <= i < |es| && es[i] == e;
      assert IsFrom(es[i], m);
    }
  }

  /** The table lists the messages that repeat no earlier one, in their order. */
  lemma {:induction false} TableListsFirstMessages(ms: seq<IAm>)
    ensures Contents(AddAll(ms)) == FirstMessages(ms)
  {
    if ms == [] {
    } else {
      var n := |ms| - 1;
      TableListsFirstMessages(ms[..n]);
      KnownIffRepeats(ms);
      AddedContents(AddAll(ms[..n]), ms[n]);
    }
  }

  lemma AddedContents(es: seq<Entry>, m: IAm)
    ensures Contents(Add(es, m)) == Contents(es) + if Known(es, m) < |es| then [] else [m]
  {}

  // ---- The linked list ----

  class Node {
    var next: Node?
    var mult: bool
    var deviceId: uint32
    var maxApdu: nat
    var address: Address
    ghost var place: nat

    /** calloc. */
    constructor (ghost place: nat)
      ensures next == null && this.place == place
    {
      next, mult, deviceId, maxApdu := null, false, 0, 0;
      address := Address(0, [0, 0, 0, 0, 0, 0, 0], 0, 0, [0, 0, 0, 0, 0, 0, 0]);
      this.place := place;
    }

    ghost function View(): Entry
      reads this
    {
      Entry(mult, deviceId, maxApdu, address)
    }
  }

  ghost function At(nodes: seq<Node>, i: nat): Node? {
    if i < |nodes| then nodes[i] else null
  }

  ghost predicate LinkedAt(nodes: seq<Node>, i: nat)
    requires i < |nodes|
    reads nodes[i]
  {
    nodes[i].next == At(nodes, i + 1) && nodes[i].place == i
  }

  class Table {
    var first: Node?
    var last: Node?
    ghost var nodes: seq<Node>

    /** first and last delimit the list. */
    ghost predicate Valid()
      reads this, nodes
    {
      && first == At(nodes, 0)
      && last == (if nodes == [] then null else nodes[|nodes| - 1])
      && forall i: nat :: i < |nodes| ==> LinkedAt(nodes, i)
    }

    ghost function View(): seq<Entry>
      reads this, nodes
    {
      seq(|nodes|, i requires 0 <= i < |nodes| reads this, nodes => nodes[i].View())
    }

    constructor ()
      ensures Valid() && View() == []
    {
      first, last, nodes := null, null, [];
    }

    /** alloc_address_entry: links a node behind the last one. */
    method AllocAddressEntry() returns (rval: Node)
      requires Valid()
      modifies this, last
      ensures Valid() && fresh(rval) && nodes == old(nodes) + [rval]
      ensures forall n <- old(nodes) :: n.View() == old(n.View())
    {
      rval := new Node(|nodes|);
      if first == null {
        first, last := rval, rval;
      } else {
        assert LinkedAt(nodes, |nodes| - 1);
        last.next := rval;
        last := rval;
      }
      nodes := nodes + [rval];
      forall i: nat | i < |nodes| ensures LinkedAt(nodes, i) {
        if i < |old(nodes)| {
          assert old(LinkedAt(nodes, i));
        }
      }
    }

    /** address_table_add. */
    method AddressTableAdd(deviceId: uint32, maxApdu: nat, src: Address)
      requires Valid()
      modifies this, nodes
      ensures Valid() && View() == Add(old(View()), IAm(deviceId, maxApdu, src))
    {
      ghost var m, es := IAm(deviceId, maxApdu, src), View();
      NodeAt(0);
      assert Walked(es, m, 0) && !Announced(es, deviceId, 0);
      hide Valid, Same, LinkedAt, Known, Add, Walked, Announced;
      var pMatch, flags := first, false;
      ghost var i := 0;
      while pMatch != null
        invariant Valid() && 0 <= i <= |nodes| == |es| && pMatch == At(nodes, i)
        invariant Walked(es, m, i)
        invariant flags <==> Announced(es, deviceId, i)
        decreases |nodes| - i
        modifies nodes
      {
        NodeAt(i);
        var same, mult := Visit(pMatch, i, deviceId, src, es, m);
        if same {
          KnownAt(es, m, i);
          FoundAt(es, m, i);
          return;
        }
        flags := flags || mult;
        pMatch := pMatch.next;
        i := i + 1;
      }
      KnownAt(es, m, |es|);
      Append(flags, deviceId, maxApdu, src, es);
    }

    /** The body of the walk for one entry. */
    method Visit(pMatch: Node, ghost i: nat, deviceId: uint32, src: Address, ghost es: seq<Entry>, ghost m: IAm)
      returns (same: bool, mult: bool)
      requires Valid() && Walked(es, m, i) && i < |nodes| && pMatch == nodes[i]
      requires m.deviceId == deviceId && m.address == src
      modifies pMatch`mult
      ensures Valid() && (same <==> IsFrom(es[i], m))
      ensures Walked(es, m, if same then i else i + 1)
      ensures !same ==> (Announced(es, deviceId, i + 1) <==> mult || Announced(es, deviceId, i))
      ensures same ==> forall j :: 0 <= j < i ==> !IsFrom(es[j], m)
    {
      hide Same;
      assert es[..i + 1] == es[..i] + [es[i]];
      same, mult := false, false;
      assert nodes[i].View() == es[i];
      if pMatch.deviceId == deviceId {
        same := AddressSame(pMatch.address, src);
        if !same {
          mult := true;
          SetFlag(pMatch, i);
        }
      }
    }

    /** The first `i` entries have been flagged and none of them matches. */
    ghost predicate Walked(es: seq<Entry>, m: IAm, i: nat)
      reads this, nodes
    {
      && |es| == |nodes| && i <= |nodes|
      && (forall j :: 0 <= j < i ==> nodes[j].View() == Flag(es[j], m.deviceId) && !IsFrom(es[j], m))
      && (forall j :: i <= j < |nodes| ==> nodes[j].View() == es[j])
    }

    lemma NodeAt(i: nat)
      requires Valid()
      ensures first == At(nodes, 0) && (i < |nodes| ==> nodes[i].next == At(nodes, i + 1))
      ensures last == null || last in nodes
    {
      assert i < |nodes| ==> LinkedAt(nodes, i);
    }

    lemma FoundAt(es: seq<Entry>, m: IAm, i: nat)
      requires Walked(es, m, i) && i < |es| && Known(es, m) == i
      ensures View() == Add(es, m)
    {
      hide Known;
    }

    method SetFlag(node: Node, ghost i: nat)
      requires Valid() && i < |nodes| && node == nodes[i]
      modifies node`mult
      ensures Valid() && node.View() == old(node.View()).(mult := true)
      ensures forall j :: 0 <= j < |nodes| && j != i ==> nodes[j].View() == old(nodes[j].View())
    {
      node.mult := true;
      forall j: nat | j < |nodes| ensures LinkedAt(nodes, j) && (j != i ==> nodes[j] != node) {
        assert old(LinkedAt(nodes, j)) && old(LinkedAt(nodes, i));
      }
    }

    static lemma KnownAt(es: seq<Entry>, m: IAm, i: nat)
      requires i <= |es| && (i < |es| ==> IsFrom(es[i], m)) && forall j :: 0 <= j < i ==> !IsFrom(es[j], m)
      ensures Known(es, m) == i
    {
    }

    method Append(flags: bool, deviceId: uint32, maxApdu: nat, src: Address, ghost es: seq<Entry>)
      requires Valid() && Walked(es, IAm(deviceId, maxApdu, src), |nodes|)
      requires flags <==> Announced(es, deviceId, |es|)
      requires Known(es, IAm(deviceId, maxApdu, src)) == |es|
      modifies this, last
      ensures Valid() && View() == Add(es, IAm(deviceId, maxApdu, src))
    {
      hide Known, Add, Announced, LinkedAt;
      ghost var before := nodes;
      var pMatch := AllocAddressEntry();
      Fill(pMatch, |before|, flags, deviceId, maxApdu, src);
      assert forall j :: 0 <= j < |before| ==> nodes[j] == before[j];
      AppendedIsAdd(es, IAm(deviceId, maxApdu, src));
    }

    method Fill(node: Node, ghost i: nat, mult: bool, deviceId: uint32, maxApdu: nat, address: Address)
      requires Valid() && i < |nodes| && node == nodes[i]
      modifies node`mult, node`deviceId, node`maxApdu, node`address
      ensures Valid() && node.View() == Entry(mult, deviceId, maxApdu, address)
      ensures forall j :: 0 <= j < |nodes| && j != i ==> nodes[j].View() == old(nodes[j].View())
    {
      node.mult, node.deviceId, node.maxApdu, node.address := mult, deviceId, maxApdu, address;
      forall j: nat | j < |nodes| ensures LinkedAt(nodes, j) && (j != i ==> nodes[j] != node) {
        assert old(LinkedAt(nodes, j)) && old(LinkedAt(nodes, i));
      }
    }

    lemma AppendedIsAdd(es: seq<Entry>, m: IAm)
      requires |nodes| == |es| + 1 && Known(es, m) == |es|
      requires forall j :: 0 <= j < |es| ==> nodes[j].View() == Flag(es[j], m.deviceId)
      requires nodes[|es|].View() == Entry(Announced(es, m.deviceId, |es|), m.deviceId, m.maxApdu, m.address)
      ensures View() == Add(es, m)
    {
      hide Known, Announced;
    }
  }
}
