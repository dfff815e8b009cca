/** The routes of the IPv4/IPv6 router from what it has received alone, and its
    sends in terms of these routes.  Nothing here goes through the functions of
    Ipv6Router that learn, relay or answer. */
module Ipv6Routes {
  import opened Octets
  import opened RoutingTable
  import opened NetworkMessages
  import opened Npdu
  import opened Ipv6Router

  // ---- What the packets tell ----

  /** A packet that came in on `port` from `mac` names networks behind its sender. */
  datatype Telling = Telling(port: Net, mac: Mac, nets: seq<Net>)

  function FirstTold(told: seq<Telling>, net: Net): Option<Hop> {
    if told == [] then None
    else if net in told[0].nets then Some(NextRouter(told[0].port, told[0].mac))
    else FirstTold(told[1..], net)
  }

  /** A network is reached directly, or through the first router to name it. */
  function Way(ports: seq<Net>, told: seq<Telling>, net: Net): Option<Hop> {
    if net in ports then Some(OnPort(net)) else FirstTold(told, net)
  }

  /** A broadcast goes on unless it is a confirmed request; anything else needs a
      way, and a hop left if it has a destination network. */
  predicate GoesOn(ports: seq<Net>, told: seq<Telling>, f: Frame)
    requires f.body.Apdu?
  {
    if f.destNet == 0xFFFF then f.body.octets != [] && f.body.octets[0] / 16 != 0
    else Way(ports, told, f.destNet).Some? && (f.destNet == 0 || f.hopCount > 1)
  }

  /** The networks a packet names: the source of a message that goes on, the list
      of an I-Am-Router-To-Network, the first entry of an Initialize-Routing-Table. */
  function Names(ports: seq<Net>, told: seq<Telling>, packet: Packet): seq<Net> {
    if !packet.Npdu? then []
    else
      var f := packet.frame;
      match f.body
      case Apdu(_) => if GoesOn(ports, told, f) && f.srcNet != 0 then [f.srcNet] else []
      case Control(kind, payload) =>
        if f.destNet != 0 && f.destNet != 0xFFFF then []
        else if kind == 1 && |payload| % 2 == 0 then Listed(payload)
        else if kind == 6 && |payload| >= 5 && payload[0] > 0 then [Number(payload[1], payload[2])]
        else []
  }

  predicate OnLinks(ports: seq<Net>, events: seq<Event>) {
    forall e <- events :: e.Receive? && e.snet in ports
  }

  function AllTold(ports: seq<Net>, told: seq<Telling>, events: seq<Event>): seq<Telling>
    requires OnLinks(ports, events)
    decreases |events|
  {
    if events == [] then told
    else
      var e := events[0];
      AllTold(ports, told + [Telling(e.snet, e.mac, Names(ports, told, e.packet))], events[1..])
  }

  // ---- The table knows what was told ----

  ghost predicate Knows(ports: seq<Net>, told: seq<Telling>, t: Table) {
    && NoRepeats(t)
    && PortNets(t) == ports
    && forall net :: Resolve(t, net) == Way(ports, told, net)
  }

  lemma {:induction false} FirstToldAppend(told: seq<Telling>, last: Telling, net: Net)
    ensures FirstTold(told + [last], net)
         == if FirstTold(told, net).Some? then FirstTold(told, net)
            else if net in last.nets then Some(NextRouter(last.port, last.mac)) else None
  {
    if told == [] {
      assert [last][1..] == [];
    } else {
      assert (told + [last])[1..] == told[1..] + [last];
      FirstToldAppend(told[1..], last, net);
    }
  }

  lemma AddOne(t: Table, snet: Net, net: Net, mac: Mac)
    ensures DnetAddAll(t, snet, [net], mac) == DnetAdd(t, snet, net, mac)
    ensures DnetAddAll(t, snet, [], mac) == t
  {
    assert [net][1..] == [];
    assert DnetAddAll(DnetAdd(t, snet, net, mac), snet, [], mac) == DnetAdd(t, snet, net, mac);
  }

  /** Every packet adds the networks it names, through the port it came in on. */
  lemma PacketTeaches(ports: seq<Net>, told: seq<Telling>, t: Table, e: Event)
    requires Knows(ports, told, t) && e.Receive?
    ensures After(t, e) == DnetAddAll(t, e.snet, Names(ports, told, e.packet), e.mac)
  {
    hide NoRepeats, SearchFrom, DnetAdd, DnetAddAll, OnOtherPorts, Encode, Way, Reachable, AckPayload6;
    AddOne(t, e.snet, 0, e.mac);
    if !e.packet.Undecodable? {
      var f := e.packet.frame;
      AddOne(t, e.snet, f.srcNet, e.mac);
      assert Resolve(t, f.destNet) == Way(ports, told, f.destNet);
      if f.body.Control? && |f.body.payload| % 2 == 0 {
        ListedIsDecoded(f.body.payload);
      }
      if f.body.Control? && |f.body.payload| >= 5 {
        AddOne(t, e.snet, DecodeUnsigned16(f.body.payload[1], f.body.payload[2]), e.mac);
      }
    }
  }

  lemma StepKnows(ports: seq<Net>, told: seq<Telling>, t: Table, e: Event)
    requires Knows(ports, told, t) && e.Receive? && e.snet in ports
    ensures Knows(ports, told + [Telling(e.snet, e.mac, Names(ports, told, e.packet))], After(t, e))
  {
    var nets := Names(ports, told, e.packet);
    var t' := After(t, e);
    hide NoRepeats, Names, DnetAddAll, Resolve, After, FirstTold;
    PacketTeaches(ports, told, t, e);
    assert Resolve(t, e.snet) == Some(OnPort(e.snet));
    DnetAddAllResolves(t, e.snet, nets, e.mac);
    LearningAllKeepsPorts(t, e.snet, nets, e.mac);
    forall net ensures Resolve(t', net) == Way(ports, told + [Telling(e.snet, e.mac, nets)], net) {
      FirstToldAppend(told, Telling(e.snet, e.mac, nets), net);
      assert Resolve(t, net) == Way(ports, told, net);
    }
  }

  lemma {:induction false} RunKnows(ports: seq<Net>, told: seq<Telling>, t: Table, events: seq<Event>)
    requires Knows(ports, told, t) && OnLinks(ports, events)
    ensures Knows(ports, AllTold(ports, told, events), RunFrom(t, events))
    decreases |events|
  {
    hide Knows, Names;
    if events == [] {
    } else {
      StepKnows(ports, told, t, events[0]);
      RunKnows(ports, told + [Telling(events[0].snet, events[0].mac, Names(ports, told, events[0].packet))],
               After(t, events[0]), events[1..]);
    }
  }

  lemma InitKnows(c: Setup, ipMac: Mac, ip6Mac: Mac)
    ensures Knows(c.Ports(), [], Init(c, ipMac, ip6Mac))
  {
    var t := Init(c, ipMac, ip6Mac);
    PortsOfEveryRun(c, ipMac, ip6Mac, []);
    assert RunFrom(t, []) == t;
    assert forall i :: 0 <= i < |t| ==> t[i].learned == [];
    forall net ensures Resolve(t, net) == Way(c.Ports(), [], net) {
      if net in c.Ports() {
        PortResolvesToItself(t, net);
      } else {
        forall i: nat, k: nat | IsSlot(t, i, k) ensures NetAt(t, i, k) != net {
          assert PortNets(t)[i] == t[i].net;
        }
        ResolveIsLookup(t, net, OnPort(net));
      }
    }
  }

  /** The table of every run, from the packets received: a network resolves to
      the port that is on it, else to the router that was the first to name it,
      through the port on which that packet came in; else not at all. */
  lemma {:induction false} RoutesOfEveryRun(c: Setup, ipMac: Mac, ip6Mac: Mac, events: seq<Event>, net: Net)
    requires OnLinks(c.Ports(), events)
    ensures Resolve(RunFrom(Init(c, ipMac, ip6Mac), events), net) == Way(c.Ports(), AllTold(c.Ports(), [], events), net)
  {
    InitKnows(c, ipMac, ip6Mac);
    RunKnows(c.Ports(), [], Init(c, ipMac, ip6Mac), events);
  }

  // ---- What goes out ----

  /** The message is the same; a source it already has stays, and one from a
      station of the arrival network gets that network and the station's address
      (section 6.2.2 of ASHRAE 135).  A source needs both parts. */
  predicate SameFromSource(sent: Frame, f: Frame, snet: Net, mac: Mac) {
    && sent.body == f.body
    && (if f.srcNet != 0 && f.srcAdr != [] then sent.srcNet == f.srcNet && sent.srcAdr == f.srcAdr
        else if f.srcNet == 0 && snet != 0 && mac != [] then sent.srcNet == snet && sent.srcAdr == mac
        else sent.srcNet == 0 && sent.srcAdr == [])
  }

  /** A destination and one hop less, or neither; the octet wraps. */
  predicate Towards(sent: Frame, f: Frame, net: Net, adr: Mac) {
    if net == 0 then sent.destNet == 0 && sent.destAdr == [] && sent.hopCount == 0
    else sent.destNet == net && sent.destAdr == adr
         && sent.hopCount == if f.hopCount == 0 then 255 else f.hopCount - 1
  }

  /** A message that is not a broadcast, with hops left if it has a destination
      network: on a directly connected network it is delivered to DADR without
      DNET and hop count; through a next router it goes to that one, with whatever
      the stack held as destination; without a way the code has none to follow. */
  lemma MessageLeaves(t: Table, snet: Net, mac: Mac, f: Frame, left: Dest)
    requires f.body.Apdu? && f.destNet != 0xFFFF && (f.destNet == 0 || f.hopCount > 1)
    ensures var result := Handle(t, snet, mac, Npdu(f), left);
      match Resolve(t, f.destNet)
      case None => if f.destNet == 0 then result == Done(t, []) else result.Undefined?
      case Some(hop) =>
        && result.Done? && |result.sends| == 1
        && var s := result.sends[0];
           && s.port == hop.port
           && s.mac == (if hop.OnPort? then f.destAdr else hop.mac)
           && SameFromSource(s.frame, f, snet, mac)
           && if hop.OnPort? then Towards(s.frame, f, 0, []) else Towards(s.frame, f, left.net, left.adr)
  {
  }

  /** So in every run: which messages leave, on which port and for whom, follows
      from the packets received before. */
  lemma {:induction false} MessageInEveryRun(c: Setup, ipMac: Mac, ip6Mac: Mac, events: seq<Event>,
                                             snet: Net, mac: Mac, f: Frame, left: Dest)
    requires OnLinks(c.Ports(), events) && f.body.Apdu? && f.destNet != 0xFFFF
    ensures var t := RunFrom(Init(c, ipMac, ip6Mac), events); var told := AllTold(c.Ports(), [], events);
      var result := Handle(t, snet, mac, Npdu(f), left);
      if f.destNet != 0 && f.hopCount <= 1 then result == Done(t, [])
      else
        match Way(c.Ports(), told, f.destNet)
        case None => if f.destNet == 0 then result == Done(t, []) else result.Undefined?
        case Some(hop) =>
          && result.Done? && |result.sends| == 1
          && var s := result.sends[0];
             && s.port == hop.port && s.mac == (if hop.OnPort? then f.destAdr else hop.mac)
             && SameFromSource(s.frame, f, snet, mac)
             && if hop.OnPort? then Towards(s.frame, f, 0, []) else Towards(s.frame, f, left.net, left.adr)
  {
    hide Init, AllTold, RunFrom, SearchFrom, Resolve;
    var t := RunFrom(Init(c, ipMac, ip6Mac), events);
    RoutesOfEveryRun(c, ipMac, ip6Mac, events, f.destNet);
    if f.destNet == 0 || f.hopCount > 1 {
      hide Handle, Way, SameFromSource, Towards;
      MessageLeaves(t, snet, mac, f, left);
    }
  }

  function PortsOf(sends: seq<Send>): seq<Net> {
    seq(|sends|, i requires 0 <= i < |sends| => sends[i].port)
  }

  function Others(nets: seq<Net>, net: Net): seq<Net> {
    if nets == [] then [] else (if nets[0] != net then [nets[0]] else []) + Others(nets[1..], net)
  }

  lemma {:induction false} EveryOtherPort(t: Table, snet: Net, mac: Mac, frame: Frame)
    ensures PortsOf(OnOtherPorts(t, snet, mac, frame)) == Others(PortNets(t), snet)
  {
    if t == [] {
    } else {
      assert PortNets(t) == [t[0].net] + PortNets(t[1..]);
      EveryOtherPort(t[1..], snet, mac, frame);
      var here := if t[0].net != snet then [Send(t[0].net, mac, frame)] else [];
      assert PortsOf(here + OnOtherPorts(t[1..], snet, mac, frame))
             == PortsOf(here) + PortsOf(OnOtherPorts(t[1..], snet, mac, frame));
    }
  }

  /** A global broadcast that goes on leaves once on every other port of the
      table, in order, to everybody there. */
  lemma BroadcastGoesEverywhere(t: Table, snet: Net, mac: Mac, f: Frame, left: Dest)
    requires f.body.Apdu? && f.destNet == 0xFFFF && f.body.octets != [] && f.body.octets[0] / 16 != 0
    ensures var result := Handle(t, snet, mac, Npdu(f), left);
      && result.Done? && PortsOf(result.sends) == Others(PortNets(t), snet)
      && forall s <- result.sends ::
           s.mac == [] && SameFromSource(s.frame, f, snet, mac) && Towards(s.frame, f, 0xFFFF, [])
  {
    var t' := Learned(t, snet, mac, f);
    var copy := Relayed(f, snet, mac, EVERYWHERE);
    LearningKeepsPorts(t, snet, f.srcNet, mac);
    OnlyCopies(t', snet, [], copy);
    EveryOtherPort(t', snet, [], copy);
  }

  /** A network layer message to everybody on a port's network. */
  function Broadcast(port: Net, kind: byte, payload: seq<byte>): Send {
    Send(port, [], Frame(0xFFFF, [], 0, [], 255, Control(kind, payload)))
  }

  function Octets2(net: Net): seq<byte> {
    [net / 256, net % 256]
  }

  /** Who-Is-Router-To-Network without a network (section 6.6.3.2): one
      I-Am-Router-To-Network back on the port it came in on, which lists exactly
      the networks reached through the other ports. */
  lemma {:induction false} WhoIsForAll(t: Table, snet: Net, mac: Mac, f: Frame, left: Dest, net: Net)
    requires NoRepeats(t) && IsLocal(f) && f.body.Control? && f.body.messageType == 0 && |f.body.payload| < 2
    ensures var result := Handle(t, snet, mac, Npdu(f), left);
      && result.Done? && result.table == t && |result.sends| == 1
      && var payload := result.sends[0].frame.body;
         && payload.Control? && |payload.payload| % 2 == 0
         && result.sends[0] == Broadcast(snet, 1, payload.payload)
         && (net in Listed(payload.payload) <==> Resolve(t, net).Some? && Resolve(t, net).value.port != snet)
  {
    hide NoRepeats, Resolve, Listed, DecodeUnsigned16;
    var list := Reachable(t, snet);
    NetsRoundTrip(list);
    ListedIsDecoded(EncodeNets(list));
    ReachableMeansOtherPort(t, snet, net);
  }

  /** Who-Is-Router-To-Network for a network: the same, for that network alone,
      if it is reached through another port; nothing if through this one; and if
      it is unknown the question goes to every other port. */
  lemma WhoIsForOne(t: Table, snet: Net, mac: Mac, f: Frame, left: Dest)
    requires NoRepeats(t) && IsLocal(f) && f.body.Control? && f.body.messageType == 0 && |f.body.payload| >= 2
    ensures var net := Number(f.body.payload[0], f.body.payload[1]);
      var result := Handle(t, snet, mac, Npdu(f), left);
      && result.Done? && result.table == t
      && match Resolve(t, net)
         case Some(hop) =>
           if hop.port == snet then result.sends == []
           else if net != 0 then result.sends == [Broadcast(snet, 1, Octets2(net))]
           else result.sends == [Broadcast(snet, 1, EncodeNets(Reachable(t, snet)))]
         case None =>
           && PortsOf(result.sends) == Others(PortNets(t), snet)
           && forall s <- result.sends :: s == Broadcast(s.port, 0, if net != 0 then Octets2(net) else [])
  {
    var net := Number(f.body.payload[0], f.body.payload[1]);
    var query := Announce(snet, WHO_IS_ROUTER, if net != 0 then EncodeUnsigned16(net) else []).frame;
    OnlyCopies(t, snet, [], query);
    EveryOtherPort(t, snet, [], query);
  }

  /** Initialize-Routing-Table is acknowledged on the port with the low octet of
      the arrival network as number; an unknown message is rejected, with reason
      3, to the source it names and the sender's address; nothing else is answered. */
  lemma OtherMessages(t: Table, snet: Net, mac: Mac, f: Frame, left: Dest)
    requires f.body.Control? && f.body.messageType != 0
    requires Handle(t, snet, mac, Npdu(f), left).Done?
    ensures var kind := f.body.messageType;
      var sends := Handle(t, snet, mac, Npdu(f), left).sends;
      if !IsLocal(f) then sends == []
      else if kind == 6 && f.body.payload != [] then sends == [Broadcast(snet % 256, 7, AckPayload6(PortNets(t)))]
      else if kind <= 9 then sends == []
      else
        && |sends| == 1
        && var s := sends[0];
           && s.port == snet && s.mac == mac
           && s.frame.body == Control(3, [3])
           && s.frame.srcNet == 0 && s.frame.srcAdr == []
           && if f.srcNet == 0 then s.frame.destNet == 0 && s.frame.destAdr == [] && s.frame.hopCount == 0
              else s.frame.destNet == f.srcNet && s.frame.destAdr == f.srcAdr && s.frame.hopCount == 255
  {
    if |f.body.payload| >= 5 {
      LearningKeepsPorts(t, snet, DecodeUnsigned16(f.body.payload[1], f.body.payload[2]), mac);
    }
  }
}
