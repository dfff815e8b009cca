/** Routing tables (section 6.6.1 of ASHRAE 135) as values: the ports in list
    order, each with the networks learned through it.  Both routers keep this
    table in linked lists; see LinkedTable. */
module RoutingTable {
  import opened Octets

  type Mac = seq<byte>

  datatype Route = Route(net: Net, mac: Mac)
  datatype Port = Port(net: Net, mac: Mac, learned: seq<Route>)
  type Table = seq<Port>

  /** Where the searches of the routers stop. */
  datatype Lookup = Missing | Direct(port: nat) | Via(port: nat, entry: nat)

  /** Index of the first route to `net`, or the length of the list. */
  function RouteIndex(routes: seq<Route>, net: Net): (k: nat)
    ensures k <= |routes|
    ensures k < |routes| ==> routes[k].net == net
    ensures forall l :: 0 <= l < k ==> routes[l].net != net
  {
    if routes == [] || routes[0].net == net then 0 else 1 + RouteIndex(routes[1..], net)
  }

  function SearchFrom(t: Table, i: nat, net: Net): (r: Lookup)
    requires i <= |t|
    decreases |t| - i
    ensures r.Direct? ==> i <= r.port < |t| && t[r.port].net == net
    ensures r.Via? ==> i <= r.port < |t| && t[r.port].net != net
    ensures r.Via? ==> r.entry < |t[r.port].learned| && t[r.port].learned[r.entry].net == net
  {
    if i == |t| then Missing
    else if t[i].net == net then Direct(i)
    else
      var k := RouteIndex(t[i].learned, net);
      if k < |t[i].learned| then Via(i, k) else SearchFrom(t, i + 1, net)
  }

  /** dnet_find of the IPv4/IPv6 router. */
  function Search(t: Table, net: Net): Lookup {
    SearchFrom(t, 0, net)
  }

  /** How a network is reached: on a port itself, or through a next router. */
  datatype Hop = OnPort(port: Net) | NextRouter(port: Net, mac: Mac)

  function HopOf(t: Table, r: Lookup): Option<Hop>
    requires r.Direct? ==> r.port < |t|
    requires r.Via? ==> r.port < |t| && r.entry < |t[r.port].learned|
  {
    match r
    case Missing => None
    case Direct(i) => Some(OnPort(t[i].net))
    case Via(i, k) => Some(NextRouter(t[i].net, t[i].learned[k].mac))
  }

  function Resolve(t: Table, net: Net): Option<Hop> {
    HopOf(t, Search(t, net))
  }

  // ---- The abstract map ----

  /** Slot 0 of a port is its own network, slot k + 1 its k-th learned one. */
  predicate IsSlot(t: Table, i: nat, k: nat) {
    i < |t| && k <= |t[i].learned|
  }

  function NetAt(t: Table, i: nat, k: nat): Net
    requires IsSlot(t, i, k)
  {
    if k == 0 then t[i].net else t[i].learned[k - 1].net
  }

  function HopAt(t: Table, i: nat, k: nat): Hop
    requires IsSlot(t, i, k)
  {
    if k == 0 then OnPort(t[i].net) else NextRouter(t[i].net, t[i].learned[k - 1].mac)
  }

  ghost predicate Lists(t: Table, net: Net) {
    exists i, k :: IsSlot(t, i, k) && NetAt(t, i, k) == net
  }

  ghost predicate Maps(t: Table, net: Net, hop: Hop) {
    exists i, k :: IsSlot(t, i, k) && NetAt(t, i, k) == net && HopAt(t, i, k) == hop
  }

  /** Every network number occurs at most once over ports and learned entries. */
  ghost predicate NoRepeats(t: Table) {
    forall i, k, j, l :: IsSlot(t, i, k) && IsSlot(t, j, l) && NetAt(t, i, k) == NetAt(t, j, l) ==> i == j && k == l
  }

  function SlotOf(r: Lookup): (nat, nat)
    requires !r.Missing?
  {
    if r.Direct? then (r.port, 0) else (r.port, r.entry + 1)
  }

  lemma {:induction false} SearchFinds(t: Table, i: nat, net: Net)
    requires i <= |t|
    ensures SearchFrom(t, i, net).Missing? ==> forall j, k :: i <= j && IsSlot(t, j, k) ==> NetAt(t, j, k) != net
    decreases |t| - i
  {
    if i == |t| {
    } else {
      SearchFinds(t, i + 1, net);
      if SearchFrom(t, i, net).Missing? {
        forall j, k | i <= j && IsSlot(t, j, k) ensures NetAt(t, j, k) != net {
          if j == i && k > 0 {
            assert t[i].learned[k - 1].net != net;
          }
        }
      }
    }
  }

  /** The search is lookup in the abstract map, hits and misses alike. */
  lemma ResolveIsLookup(t: Table, net: Net, hop: Hop)
    requires NoRepeats(t)
    ensures Resolve(t, net) == Some(hop) <==> Maps(t, net, hop)
    ensures Resolve(t, net) == None <==> !Lists(t, net)
  {
    var r := Search(t, net);
    SearchFinds(t, 0, net);
    if !r.Missing? {
      var (i, k) := SlotOf(r);
      assert IsSlot(t, i, k) && NetAt(t, i, k) == net;
      assert Resolve(t, net) == Some(HopAt(t, i, k));
    }
  }

  // ---- Insertion ----

  /** port_add: a new port goes to the end, unless the network is known. */
  function PortAdd(t: Table, snet: Net, mac: Mac): Table {
    if Search(t, snet).Missing? then t + [Port(snet, mac, [])] else t
  }

  function Append(t: Table, i: nat, net: Net, mac: Mac): Table
    requires i < |t|
  {
    t[i := t[i].(learned := t[i].learned + [Route(net, mac)])]
  }

  /** dnet_add: a new route goes to the end of the list of the port through
      which `snet` is reached, unless the network is known or `snet` is not. */
  function DnetAdd(t: Table, snet: Net, net: Net, mac: Mac): Table {
    if !Search(t, net).Missing? then t
    else
      var r := Search(t, snet);
      if r.Missing? then t else Append(t, r.port, net, mac)
  }

  function DnetAddAll(t: Table, snet: Net, nets: seq<Net>, mac: Mac): Table
    decreases |nets|
  {
    if nets == [] then t else DnetAddAll(DnetAdd(t, snet, nets[0], mac), snet, nets[1..], mac)
  }

  /** `t'` is `t` plus one mapping, for a network that was not listed. */
  ghost predicate Inserted(t: Table, t': Table, net: Net, hop: Hop) {
    && !Lists(t, net)
    && NoRepeats(t')
    && (forall n, h :: Maps(t', n, h) <==> Maps(t, n, h) || (n == net && h == hop))
  }

  lemma NotListedAnywhere(t: Table, net: Net)
    requires Search(t, net).Missing?
    ensures !Lists(t, net)
    ensures forall i, k :: IsSlot(t, i, k) ==> NetAt(t, i, k) != net
  {
    SearchFinds(t, 0, net);
  }

  lemma PortAddInserts(t: Table, snet: Net, mac: Mac)
    requires NoRepeats(t)
    ensures if Lists(t, snet) then PortAdd(t, snet, mac) == t
            else Inserted(t, PortAdd(t, snet, mac), snet, OnPort(snet))
  {
    ResolveIsLookup(t, snet, OnPort(snet));
    var t' := PortAdd(t, snet, mac);
    if Search(t, snet).Missing? {
      NotListedAnywhere(t, snet);
      forall n, h ensures Maps(t', n, h) <==> Maps(t, n, h) || (n == snet && h == OnPort(snet)) {
        if Maps(t, n, h) {
          var i: nat, k: nat :| IsSlot(t, i, k) && NetAt(t, i, k) == n && HopAt(t, i, k) == h;
          assert IsSlot(t', i, k) && NetAt(t', i, k) == n && HopAt(t', i, k) == h;
        }
        if Maps(t', n, h) {
          var i: nat, k: nat :| IsSlot(t', i, k) && NetAt(t', i, k) == n && HopAt(t', i, k) == h;
          assert i < |t| ==> IsSlot(t, i, k) && NetAt(t, i, k) == n && HopAt(t, i, k) == h;
        }
        assert IsSlot(t', |t|, 0) && NetAt(t', |t|, 0) == snet;
      }
      SlotsKeepDistinct(t, t', |t|, 0, snet);
    }
  }

  lemma SlotsKeepDistinct(t: Table, t': Table, x: nat, y: nat, net: Net)
    requires NoRepeats(t)
    requires forall i, k :: IsSlot(t, i, k) ==> NetAt(t, i, k) != net
    requires forall i, k :: IsSlot(t', i, k) && !(i == x && k == y) ==> IsSlot(t, i, k) && NetAt(t', i, k) == NetAt(t, i, k)
    requires IsSlot(t', x, y) ==> NetAt(t', x, y) == net
    ensures NoRepeats(t')
  {
    forall i, k, j, l | IsSlot(t', i, k) && IsSlot(t', j, l) && NetAt(t', i, k) == NetAt(t', j, l)
      ensures i == j && k == l
    {
      if !(i == x && k == y) && !(j == x && l == y) {
        assert IsSlot(t, i, k) && IsSlot(t, j, l);
      }
    }
  }

  lemma AppendInserts(t: Table, p: nat, net: Net, mac: Mac)
    requires NoRepeats(t) && p < |t| && Search(t, net).Missing?
    ensures Inserted(t, Append(t, p, net, mac), net, NextRouter(t[p].net, mac))
  {
    var t' := Append(t, p, net, mac);
    var y := |t[p].learned| + 1;
    NotListedAnywhere(t, net);
    assert IsSlot(t', p, y) && NetAt(t', p, y) == net && HopAt(t', p, y) == NextRouter(t[p].net, mac);
    forall n, h ensures Maps(t', n, h) <==> Maps(t, n, h) || (n == net && h == NextRouter(t[p].net, mac)) {
      if Maps(t, n, h) {
        var i: nat, k: nat :| IsSlot(t, i, k) && NetAt(t, i, k) == n && HopAt(t, i, k) == h;
        assert IsSlot(t', i, k) && NetAt(t', i, k) == n && HopAt(t', i, k) == h;
      }
      if Maps(t', n, h) {
        var i: nat, k: nat :| IsSlot(t', i, k) && NetAt(t', i, k) == n && HopAt(t', i, k) == h;
        assert !(i == p && k == y) ==> IsSlot(t, i, k) && NetAt(t, i, k) == n && HopAt(t, i, k) == h;
      }
    }
    SlotsKeepDistinct(t, t', p, y, net);
  }

  /** dnet_add is insert-if-absent into the abstract map. */
  lemma DnetAddInserts(t: Table, snet: Net, net: Net, mac: Mac)
    requires NoRepeats(t)
    ensures var t' := DnetAdd(t, snet, net, mac);
      match Resolve(t, snet)
      case None => t' == t
      case Some(hop) =>
        if Lists(t, net) then t' == t else Inserted(t, t', net, NextRouter(hop.port, mac))
  {
    ResolveIsLookup(t, net, OnPort(net));
    if Search(t, net).Missing? && !Search(t, snet).Missing? {
      AppendInserts(t, Search(t, snet).port, net, mac);
    }
  }

  // ---- Resolved routes never change ----

  /** `t'` keeps the invariant and every route that `t` resolves. */
  ghost predicate Extends(t: Table, t': Table) {
    && (NoRepeats(t) ==> NoRepeats(t'))
    && (NoRepeats(t) ==> forall net :: Resolve(t, net).Some? ==> Resolve(t', net) == Resolve(t, net))
  }

  lemma InsertedExtends(t: Table, t': Table, net: Net, hop: Hop)
    requires NoRepeats(t) && Inserted(t, t', net, hop)
    ensures Extends(t, t') && Resolve(t', net) == Some(hop)
    ensures forall n :: n != net ==> Resolve(t', n) == Resolve(t, n)
  {
    ResolveIsLookup(t', net, hop);
    forall n | n != net ensures Resolve(t', n) == Resolve(t, n) {
      if Resolve(t, n).Some? {
        ResolveIsLookup(t, n, Resolve(t, n).value);
        ResolveIsLookup(t', n, Resolve(t, n).value);
      } else if Resolve(t', n).Some? {
        ResolveIsLookup(t', n, Resolve(t', n).value);
        ResolveIsLookup(t, n, Resolve(t', n).value);
      }
    }
    ResolveIsLookup(t, net, hop);
  }

  lemma PortAddExtends(t: Table, snet: Net, mac: Mac)
    ensures Extends(t, PortAdd(t, snet, mac))
    ensures NoRepeats(t) ==> Resolve(PortAdd(t, snet, mac), snet).Some?
  {
    if NoRepeats(t) {
      PortAddInserts(t, snet, mac);
      ResolveIsLookup(t, snet, OnPort(snet));
      if !Lists(t, snet) {
        InsertedExtends(t, PortAdd(t, snet, mac), snet, OnPort(snet));
      }
    }
  }

  lemma DnetAddExtends(t: Table, snet: Net, net: Net, mac: Mac)
    ensures Extends(t, DnetAdd(t, snet, net, mac))
    ensures forall n :: NoRepeats(t) && n != net ==> Resolve(DnetAdd(t, snet, net, mac), n) == Resolve(t, n)
    ensures NoRepeats(t) && Resolve(t, net).None? && Resolve(t, snet).Some?
            ==> Resolve(DnetAdd(t, snet, net, mac), net) == Some(NextRouter(Resolve(t, snet).value.port, mac))
  {
    if NoRepeats(t) {
      DnetAddInserts(t, snet, net, mac);
      ResolveIsLookup(t, net, OnPort(net));
      if Resolve(t, snet).Some? && !Lists(t, net) {
        InsertedExtends(t, DnetAdd(t, snet, net, mac), net, NextRouter(Resolve(t, snet).value.port, mac));
      }
    }
  }

  /** Learning a list resolves every listed network: new ones through the port
      of `snet` with the given MAC address, known ones as before. */
  lemma {:induction false} DnetAddAllResolves(t: Table, snet: Net, nets: seq<Net>, mac: Mac)
    requires NoRepeats(t) && Resolve(t, snet).Some?
    ensures var t' := DnetAddAll(t, snet, nets, mac);
      && Extends(t, t')
      && NoRepeats(t')
      && (forall net :: net !in nets ==> Resolve(t', net) == Resolve(t, net))
      && (forall net <- nets :: Resolve(t', net)
           == if Resolve(t, net).Some? then Resolve(t, net) else Some(NextRouter(Resolve(t, snet).value.port, mac)))
    decreases |nets|
  {
    if nets == [] {
    } else {
      var t1 := DnetAdd(t, snet, nets[0], mac);
      DnetAddExtends(t, snet, nets[0], mac);
      DnetAddAllResolves(t1, snet, nets[1..], mac);
      forall net <- nets
        ensures Resolve(DnetAddAll(t, snet, nets, mac), net)
           == if Resolve(t, net).Some? then Resolve(t, net) else Some(NextRouter(Resolve(t, snet).value.port, mac))
      {
        assert net == nets[0] || net in nets[1..];
      }
    }
  }
}
