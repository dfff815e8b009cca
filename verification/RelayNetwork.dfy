/** A message among any number of IPv4/IPv6 routers, in any topology and with
    any tables: the hop count as termination measure (section 6.5 of ASHRAE 135). */
module RelayNetwork {
  import opened Octets
  import opened RoutingTable
  import opened NetworkMessages
  import opened Npdu
  import opened Ipv6Router

  /** A router, with the table it has by then, sees the frame on one port. */
  datatype Visit = Visit(table: Table, snet: Net, mac: Mac, left: Dest)

  function SendsOf(f: Frame, v: Visit): seq<Send> {
    match Handle(v.table, v.snet, v.mac, Npdu(f), v.left)
    case Done(_, sends) => sends
    case Undefined => []
  }

  /** The frame after the visits; a router that sends nothing leaves it to the
      next one. */
  function Final(f: Frame, visits: seq<Visit>): Frame
    decreases |visits|
  {
    if visits == [] then f
    else
      var sends := SendsOf(f, visits[0]);
      Final(if sends == [] then f else sends[0].frame, visits[1..])
  }

  /** How many of the visits relay the message. */
  function Relays(f: Frame, visits: seq<Visit>): nat
    decreases |visits|
  {
    if visits == [] then 0
    else
      var sends := SendsOf(f, visits[0]);
      if sends == [] then Relays(f, visits[1..]) else 1 + Relays(sends[0].frame, visits[1..])
  }

  predicate Addressed(f: Frame) {
    f.body.Apdu? && f.destNet != 0 && f.destNet != BROADCAST_NETWORK
  }

  predicate ToDest(f: Frame, dest: Dest) {
    f.destNet == dest.net && f.destAdr == if dest.net != 0 then dest.adr else []
  }

  lemma ZeroIsMissing(t: Table)
    ensures Search(t, 0).Missing? <==> !Lists(t, 0)
  {
    SearchFinds(t, 0, 0);
    var r := Search(t, 0);
    if !r.Missing? {
      var (i, k) := SlotOf(r);
      assert IsSlot(t, i, k) && NetAt(t, i, k) == 0;
    }
  }

  /** A router makes at most one send of an addressed message: to its final
      destination, or one hop further, to whatever remote_dest held. */
  lemma OneCopy(f: Frame, v: Visit)
    requires Addressed(f)
    ensures var sends := SendsOf(f, v);
      && |sends| <= 1
      && (f.hopCount <= 1 ==> sends == [])
      && (|sends| == 1 ==> var s := sends[0];
           && s.frame.body == f.body
           && (f.srcNet != 0 && f.srcAdr != [] ==> s.frame.srcNet == f.srcNet && s.frame.srcAdr == f.srcAdr)
           && s.frame.hopCount == (if s.frame.destNet != 0 then f.hopCount - 1 else 0)
           && ((ToDest(s.frame, NO_DEST) && s.port == f.destNet && s.mac == f.destAdr) || ToDest(s.frame, v.left)))
  {
    var t, r := v.table, Search(v.table, f.destNet);
    if f.hopCount > 1 && r.Via? {
      assert SendsOf(f, v) == [Send(t[r.port].net, t[r.port].learned[r.entry].mac, Relayed(f, v.snet, v.mac, v.left))];
    }
  }

  /** The message is sent to its destination, or on with its destination in it. */
  predicate Keeps(f: Frame, s: Send) {
    || (ToDest(s.frame, NO_DEST) && s.port == f.destNet && s.mac == f.destAdr)
    || ToDest(s.frame, Dest(f.destNet, f.destAdr))
  }

  predicate AllKeep(f: Frame, v: Visit) {
    forall s <- SendsOf(f, v) :: Keeps(f, s)
  }

  /** A message keeps its destination, whatever the stack held, exactly if its
      way does not lead through a next router; if it does, exactly if the stack
      happened to hold DNET and DADR. */
  lemma KeepsDestinationIff(f: Frame, v: Visit)
    requires Addressed(f) && f.hopCount > 1
    ensures (forall left :: AllKeep(f, v.(left := left))) <==> !Search(v.table, f.destNet).Via?
    ensures Search(v.table, f.destNet).Via? ==> (AllKeep(f, v) <==> v.left == Dest(f.destNet, f.destAdr))
  {
    if Search(v.table, f.destNet).Via? {
      var astray := Dest(if f.destNet == 1 then 2 else 1, []);
      SendsTo(f, v);
      SendsTo(f, v.(left := astray));
      assert !AllKeep(f, v.(left := astray));
    } else {
      forall left ensures AllKeep(f, v.(left := left)) {
        OneCopy(f, v.(left := left));
      }
    }
  }

  /** The one send of a message whose way leads through a next router. */
  lemma SendsTo(f: Frame, v: Visit)
    requires Addressed(f) && f.hopCount > 1 && Search(v.table, f.destNet).Via?
    ensures var t, r := v.table, Search(v.table, f.destNet);
      && SendsOf(f, v) == [Send(t[r.port].net, t[r.port].learned[r.entry].mac, Relayed(f, v.snet, v.mac, v.left))]
      && t[r.port].net != f.destNet
      && (AllKeep(f, v) <==> Keeps(f, SendsOf(f, v)[0]))
  {
  }

  /** A message without DNET, as it is delivered, is relayed again exactly by the
      routers that have learned a network 0. */
  lemma DeliveredIsRelayedIff(f: Frame, v: Visit)
    requires f.body.Apdu? && f.destNet == 0
    ensures SendsOf(f, v) != [] <==> Lists(v.table, 0)
  {
    ZeroIsMissing(v.table);
  }

  // ---- The hop count bounds the relays ----

  /** The router can take the DNET off an addressed message. */
  ghost predicate CanDeliver(v: Visit) {
    exists net :: net != 0 && net != BROADCAST_NETWORK
      && (Search(v.table, net).Direct? || (Search(v.table, net).Via? && v.left.net == 0))
  }

  /** The router can make a broadcast of an addressed message. */
  ghost predicate CanBroadcast(v: Visit) {
    exists net :: net != 0 && net != BROADCAST_NETWORK && Search(v.table, net).Via? && v.left.net == BROADCAST_NETWORK
  }

  ghost predicate HasOtherPort(v: Visit) {
    exists p <- v.table :: p.net != v.snet
  }

  ghost predicate Among(visits: seq<Visit>, routers: iset<Visit>) {
    forall v <- visits :: v in routers
  }

  /** What loses its DNET among these routers is not relayed for a network 0, and
      what becomes a broadcast has no other port to go to. */
  ghost predicate Confined(routers: iset<Visit>) {
    forall v, w :: v in routers && w in routers ==>
      (CanDeliver(v) ==> !Lists(w.table, 0)) && (CanBroadcast(v) ==> !HasOtherPort(w))
  }

  function Bound(f: Frame): nat {
    if f.hopCount > 1 then f.hopCount - 1 else 0
  }

  /** No router of these relays a message that has lost its destination. */
  ghost predicate Stuck(f: Frame, routers: iset<Visit>) {
    f.body.Apdu?
    && ((f.destNet == 0 && forall w :: w in routers ==> !Lists(w.table, 0))
        || (f.destNet == BROADCAST_NETWORK && forall w :: w in routers ==> !HasOtherPort(w)))
  }

  lemma BroadcastStops(f: Frame, v: Visit)
    requires f.body.Apdu? && f.destNet == BROADCAST_NETWORK && !HasOtherPort(v)
    ensures SendsOf(f, v) == []
  {
    if IsBroadcast(f) {
      var t' := Learned(v.table, v.snet, v.mac, f);
      var copy := Relayed(f, v.snet, v.mac, EVERYWHERE);
      LearningKeepsPorts(v.table, v.snet, f.srcNet, v.mac);
      SamePortsSameSends(v.table, t', v.snet, [], copy);
      NoOtherPorts(v.table, v.snet, [], copy);
    }
  }

  lemma {:induction false} StuckStays(f: Frame, visits: seq<Visit>, routers: iset<Visit>)
    requires Stuck(f, routers) && Among(visits, routers)
    ensures Relays(f, visits) == 0 && Final(f, visits) == f
    decreases |visits|
  {
    hide SendsOf, HasOtherPort;
    if visits == [] {
    } else {
      if f.destNet == 0 {
        DeliveredIsRelayedIff(f, visits[0]);
      } else {
        BroadcastStops(f, visits[0]);
      }
      StuckStays(f, visits[1..], routers);
    }
  }

  /** A message that leaves a router without its destination tells what it can. */
  lemma WhatItCan(f: Frame, v: Visit)
    requires Addressed(f) && SendsOf(f, v) != []
    ensures f.hopCount > 1
    ensures SendsOf(f, v)[0].frame.destNet == 0 ==> CanDeliver(v)
    ensures SendsOf(f, v)[0].frame.destNet == BROADCAST_NETWORK ==> CanBroadcast(v)
  {
    var r := Search(v.table, f.destNet);
    if r.Via? {
      SendsTo(f, v);
    }
  }

  /** Among such routers a message with hop count h is relayed at most h - 1
      times, and arrives with its APDU and source as they were; and with its
      destination, if the routers kept that. */
  lemma {:induction false} HopCountBounds(f: Frame, visits: seq<Visit>, routers: iset<Visit>)
    requires Addressed(f) && Confined(routers) && Among(visits, routers)
    ensures Relays(f, visits) <= Bound(f)
    ensures var last := Final(f, visits);
      && last.body == f.body
      && (f.srcNet != 0 && f.srcAdr != [] ==> last.srcNet == f.srcNet && last.srcAdr == f.srcAdr)
      && (last.destNet == 0 || last.hopCount == f.hopCount - Relays(f, visits))
      && ((forall v <- visits :: v.left == Dest(f.destNet, f.destAdr)) ==>
           last.destNet == 0 || (last.destNet == f.destNet && last.destAdr == f.destAdr))
    decreases |visits|
  {
    hide SendsOf, CanDeliver, CanBroadcast, HasOtherPort;
    if visits == [] {
    } else {
      OneCopy(f, visits[0]);
      var sends := SendsOf(f, visits[0]);
      if sends == [] {
        HopCountBounds(f, visits[1..], routers);
      } else {
        var next := sends[0].frame;
        WhatItCan(f, visits[0]);
        if next.destNet == 0 || next.destNet == BROADCAST_NETWORK {
          assert visits[0] in routers;
          StuckStays(next, visits[1..], routers);
        } else {
          HopCountBounds(next, visits[1..], routers);
        }
      }
    }
  }

  ghost predicate HopBounded(routers: iset<Visit>) {
    forall f, visits :: Addressed(f) && Among(visits, routers) ==> Relays(f, visits) <= Bound(f)
  }

  /** The hop count bounds the relays of every message on every way through these
      routers if and only if they are confined. */
  lemma BoundHoldsIff(routers: iset<Visit>)
    ensures HopBounded(routers) <==> Confined(routers)
  {
    if Confined(routers) {
      forall f, visits | Addressed(f) && Among(visits, routers) ensures Relays(f, visits) <= Bound(f) {
        HopCountBounds(f, visits, routers);
      }
    } else {
      var v, w :| v in routers && w in routers
                  && ((CanDeliver(v) && Lists(w.table, 0)) || (CanBroadcast(v) && HasOtherPort(w)));
      var f := TwiceRelayed(v, w);
      assert Among([v, w], routers);
      assert Relays(f, [v, w]) > Bound(f);
    }
  }

  /** Two relays of a message with hop count 2. */
  lemma {:induction false} TwiceRelayed(v: Visit, w: Visit) returns (f: Frame)
    requires (CanDeliver(v) && Lists(w.table, 0)) || (CanBroadcast(v) && HasOtherPort(w))
    ensures Addressed(f) && f.hopCount == 2 && Relays(f, [v, w]) == 2
  {
    var net: Net;
    if CanDeliver(v) && Lists(w.table, 0) {
      net :| net != 0 && net != BROADCAST_NETWORK
             && (Search(v.table, net).Direct? || (Search(v.table, net).Via? && v.left.net == 0));
    } else {
      net :| net != 0 && net != BROADCAST_NETWORK && Search(v.table, net).Via? && v.left.net == BROADCAST_NETWORK;
    }
    f := Frame(net, [], 0, [], 2, Apdu([0x10]));
    assert SendsOf(f, v) != [];
    var next := SendsOf(f, v)[0].frame;
    OneCopy(f, v);
    if next.destNet == 0 {
      if Search(v.table, net).Via? {
        SendsTo(f, v);
      }
      DeliveredIsRelayedIff(next, w);
    } else {
      SendsTo(f, v);
      BroadcastLeaves(next, w);
    }
    RelaysTwo(f, v, w);
  }

  lemma RelaysTwo(f: Frame, v: Visit, w: Visit)
    requires SendsOf(f, v) != [] && SendsOf(SendsOf(f, v)[0].frame, w) != []
    ensures Relays(f, [v, w]) == 2
  {
    hide SendsOf;
    assert [v, w][1..] == [w] && [w][1..] == [];
    assert Relays(SendsOf(SendsOf(f, v)[0].frame, w)[0].frame, []) == 0;
    assert Relays(SendsOf(f, v)[0].frame, [w]) == 1;
  }

  lemma BroadcastLeaves(f: Frame, v: Visit)
    requires IsBroadcast(f) && HasOtherPort(v)
    ensures var sends := SendsOf(f, v);
      sends != [] && sends[0].frame.body == f.body && sends[0].frame.destNet == BROADCAST_NETWORK
  {
    hide DnetAdd;
    var t' := Learned(v.table, v.snet, v.mac, f);
    var copy := Relayed(f, v.snet, v.mac, EVERYWHERE);
    LearningKeepsPorts(v.table, v.snet, f.srcNet, v.mac);
    SamePortsSameSends(v.table, t', v.snet, [], copy);
    NoOtherPorts(v.table, v.snet, [], copy);
    OnlyCopies(v.table, v.snet, [], copy);
  }

  // ---- The bound is reached, and broadcasts have none ----

  /** A router that sends network 9 on to a neighbour which does the same. */
  function LoopTo(left: Dest): Visit {
    Visit([Port(1, [1], [Route(9, [2])])], 1, [2], left)
  }

  lemma LoopSends(f: Frame, left: Dest)
    requires Addressed(f) && f.destNet == 9 && f.hopCount > 1
    ensures SendsOf(f, LoopTo(left)) == [Send(1, [2], Relayed(f, 1, [2], left))]
  {
    var t := LoopTo(left).table;
    assert SearchFrom(t, 0, 9) == Via(0, 0) by {
      assert RouteIndex(t[0].learned, 9) == 0;
    }
  }

  lemma {:induction false} BoundIsReached(f: Frame, h: byte)
    requires Addressed(f) && f.destNet == 9 && f.hopCount == h && h >= 1
    ensures var loop := LoopTo(Dest(9, f.destAdr)); Relays(f, seq(h - 1, _ => loop)) == h - 1
    decreases h
  {
    var loop := LoopTo(Dest(9, f.destAdr));
    var visits := seq(h - 1, _ => loop);
    if h > 1 {
      LoopSends(f, loop.left);
      assert visits[0] == loop && visits[1..] == seq(h - 2, _ => loop);
      BoundIsReached(Relayed(f, 1, [2], loop.left), h - 1);
    }
  }

  /** Two routers that both join networks 1 and 2. */
  function Ring(n: nat): Visit {
    Visit([Port(1, [1], []), Port(2, [2], [])], if n % 2 == 0 then 1 else 2, [3], NO_DEST)
  }

  function Around(n: nat, count: nat): seq<Visit> {
    seq(count, i requires i >= 0 => Ring(n + i))
  }

  lemma {:induction false} RingSends(f: Frame, n: nat)
    requires IsBroadcast(f)
    ensures var sends := SendsOf(f, Ring(n));
      && sends != []
      && sends[0].frame.body == f.body && sends[0].frame.destNet == BROADCAST_NETWORK
  {
    var t := Ring(n).table;
    assert t[0] in t && t[1] in t;
    BroadcastLeaves(f, Ring(n));
  }

  /** Whatever its hop count, a broadcast goes around a ring for ever. */
  lemma {:induction false} BroadcastGoesAroundForEver(f: Frame, n: nat, count: nat)
    requires IsBroadcast(f)
    ensures Relays(f, Around(n, count)) == count
    decreases count
  {
    hide SendsOf;
    var visits := Around(n, count);
    if count == 0 {
      assert visits == [];
    } else {
      assert visits[0] == Ring(n) && visits[1..] == Around(n + 1, count - 1);
      RingSends(f, n);
      BroadcastGoesAroundForEver(SendsOf(f, visits[0])[0].frame, n + 1, count - 1);
    }
  }

  /** So does an addressed message, once one router takes a leftover 65535 for
      its DNET. */
  lemma LeftBroadcastHasNoBound(f: Frame, count: nat)
    requires Addressed(f) && f.destNet == 9 && f.hopCount > 1 && f.body.octets != [] && !IsConfirmedRequest(f.body.octets)
    ensures Relays(f, [LoopTo(EVERYWHERE)] + Around(0, count)) == 1 + count
  {
    var visits := [LoopTo(EVERYWHERE)] + Around(0, count);
    LoopSends(f, EVERYWHERE);
    assert visits[1..] == Around(0, count);
    BroadcastGoesAroundForEver(Relayed(f, 1, [2], EVERYWHERE), 0, count);
  }

  // ---- The source on the way ----

  lemma RelayKeepsSource(f: Frame, v: Visit, net: Net, adr: Mac)
    requires f.body.Apdu? && SendsOf(f, v) != [] && net != 0 && adr != []
    requires (f.srcNet == net && f.srcAdr == adr) || (f.srcNet == 0 && net == v.snet && adr == v.mac)
    ensures forall s <- SendsOf(f, v) :: s.frame.body == f.body && s.frame.srcNet == net && s.frame.srcAdr == adr
  {
    if f.destNet == BROADCAST_NETWORK {
      OnlyCopies(Learned(v.table, v.snet, v.mac, f), v.snet, [], Relayed(f, v.snet, v.mac, EVERYWHERE));
    }
  }

  lemma {:induction false} SourceStays(f: Frame, visits: seq<Visit>)
    requires f.body.Apdu? && f.srcNet != 0 && f.srcAdr != []
    ensures var g := Final(f, visits); g.body == f.body && g.srcNet == f.srcNet && g.srcAdr == f.srcAdr
    decreases |visits|
  {
    hide SendsOf;
    if visits == [] {
    } else if SendsOf(f, visits[0]) == [] {
      SourceStays(f, visits[1..]);
    } else {
      RelayKeepsSource(f, visits[0], f.srcNet, f.srcAdr);
      SourceStays(SendsOf(f, visits[0])[0].frame, visits[1..]);
    }
  }

  /** However a station's message travels on, it names the network and the address
      of that station: those of the port and the sender where the first router
      took it up.  The port needs a number other than 0. */
  lemma {:induction false} OriginIsNamed(f: Frame, v: Visit, later: seq<Visit>)
    requires f.body.Apdu? && f.srcNet == 0 && SendsOf(f, v) != [] && v.snet != 0 && v.mac != []
    ensures var g := Final(f, [v] + later); g.body == f.body && g.srcNet == v.snet && g.srcAdr == v.mac
  {
    hide SendsOf;
    assert ([v] + later)[1..] == later;
    RelayKeepsSource(f, v, v.snet, v.mac);
    SourceStays(SendsOf(f, v)[0].frame, later);
  }
}
