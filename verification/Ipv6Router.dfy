/** The IPv4/IPv6 router (apps/router-ipv6): what its handlers do to the
    routing table and what they send, as functions of the decoded packet. */
module Ipv6Router {
  import opened Octets
  import opened RoutingTable
  import opened NetworkMessages
  import opened Npdu

  /** A call of datalink_send_pdu; an empty MAC address is a broadcast. */
  datatype Send = Send(port: Net, mac: Mac, frame: Frame)

  /** `Undefined`: a handler reads a null pointer or past the message. */
  datatype Result = Done(table: Table, sends: seq<Send>) | Undefined

  const WHO_IS_ROUTER: byte := 0
  const I_AM_ROUTER: byte := 1
  const REJECT_MESSAGE: byte := 3
  const INIT_RT_TABLE: byte := 6
  const INIT_RT_TABLE_ACK: byte := 7
  const LAST_KNOWN_MESSAGE: byte := 9
  const REJECT_UNKNOWN_MESSAGE_TYPE: byte := 3
  const HOP_COUNT_DEFAULT: byte := 255

  /** The packets of main() arrive on directly connected ports. */
  predicate IsPort(t: Table, snet: Net) {
    snet in PortNets(t)
  }

  // ---- Network layer messages ----

  function Announce(snet: Net, messageType: byte, payload: seq<byte>): Send {
    Send(snet, [], Encode(BROADCAST_NETWORK, [], 0, [], HOP_COUNT_DEFAULT, Control(messageType, payload)))
  }

  function SendIAm(t: Table, snet: Net, net: Net): Send {
    Announce(snet, I_AM_ROUTER, if net != 0 then EncodeUnsigned16(net) else EncodeNets(Reachable(t, snet)))
  }

  /** The parameter snet of this function is a uint8_t. */
  function SendAck(t: Table, snet: Net): Send {
    Announce(snet % 256, INIT_RT_TABLE_ACK, AckPayload6(PortNets(t)))
  }

  /** On every port but the one of `snet`, in table order. */
  function OnOtherPorts(t: Table, snet: Net, mac: Mac, frame: Frame): seq<Send> {
    if t == [] then []
    else (if t[0].net != snet then [Send(t[0].net, mac, frame)] else []) + OnOtherPorts(t[1..], snet, mac, frame)
  }

  function WhoIsRouter(t: Table, snet: Net, payload: seq<byte>): Result {
    if |payload| < 2 then Done(t, [SendIAm(t, snet, 0)])
    else
      var net := DecodeUnsigned16(payload[0], payload[1]);
      var r := Search(t, net);
      if r.Missing? then
        var query := Announce(snet, WHO_IS_ROUTER, if net != 0 then EncodeUnsigned16(net) else []);
        Done(t, OnOtherPorts(t, snet, [], query.frame))
      else Done(t, if t[r.port].net != snet then [SendIAm(t, snet, net)] else [])
  }

  function ControlMessage(t: Table, snet: Net, mac: Mac, f: Frame): Result
    requires f.body.Control?
  {
    var Control(messageType, payload) := f.body;
    if messageType == WHO_IS_ROUTER then WhoIsRouter(t, snet, payload)
    else if messageType == I_AM_ROUTER then
      if |payload| % 2 == 1 then Undefined
      else Done(DnetAddAll(t, snet, DecodeNets(payload), mac), [])
    else if messageType == INIT_RT_TABLE then
      if payload == [] then Done(t, [])
      else if payload[0] == 0 then Done(t, [SendAck(t, snet)])
      else if |payload| < 5 then Undefined
      else
        // every pass of the loop reads the first entry
        var t' := DnetAdd(t, snet, DecodeUnsigned16(payload[1], payload[2]), mac);
        Done(t', [SendAck(t', snet)])
    else if messageType <= LAST_KNOWN_MESSAGE then Done(t, [])
    else
      var reject := Control(REJECT_MESSAGE, [REJECT_UNKNOWN_MESSAGE_TYPE]);
      Done(t, [Send(snet, mac, Encode(f.srcNet, f.srcAdr, 0, [], HOP_COUNT_DEFAULT, reject))])
  }

  // ---- Relaying ----

  /** The network and address of a BACNET_ADDRESS. */
  datatype Dest = Dest(net: Net, adr: Mac)

  const NO_DEST := Dest(0, [])
  const EVERYWHERE := Dest(BROADCAST_NETWORK, [])

  /** routed_src_address: a frame that was already routed keeps its source, and
      the router it came from is learned. */
  function Learned(t: Table, snet: Net, mac: Mac, f: Frame): Table {
    if f.srcNet != 0 then DnetAdd(t, snet, f.srcNet, mac) else t
  }

  /** The frame on its way to `dest`, one hop less and with a source. */
  function Relayed(f: Frame, snet: Net, mac: Mac, dest: Dest): Frame {
    var (net, adr) := if f.srcNet != 0 then (f.srcNet, f.srcAdr) else (snet, mac);
    Encode(dest.net, dest.adr, net, adr, (f.hopCount - 1) % 256, f.body)
  }

  /** `left` is what remote_dest holds when dnet_find fills in the MAC address of
      the next router, and nothing else: the code never stores the DNET there. */
  function RouteApdu(t: Table, snet: Net, mac: Mac, f: Frame, left: Dest): Result {
    var t' := Learned(t, snet, mac, f);
    if f.destNet == BROADCAST_NETWORK then
      Done(t', OnOtherPorts(t', snet, [], Relayed(f, snet, mac, EVERYWHERE)))
    else
      match Search(t, f.destNet)
      case Direct(i) => Done(t', [Send(t[i].net, f.destAdr, Relayed(f, snet, mac, NO_DEST))])
      case Via(i, k) => Done(t', [Send(t[i].net, t[i].learned[k].mac, Relayed(f, snet, mac, left))])
      case Missing => if f.destNet != 0 then Undefined else Done(t, [])
  }

  predicate IsConfirmedRequest(apdu: seq<byte>)
    requires apdu != []
  {
    apdu[0] / 16 == 0
  }

  predicate IsLocal(f: Frame) {
    f.destNet == 0 || f.destNet == BROADCAST_NETWORK
  }

  /** A global broadcast that the handler does not ignore. */
  predicate IsBroadcast(f: Frame) {
    f.body.Apdu? && f.destNet == BROADCAST_NETWORK && f.body.octets != [] && !IsConfirmedRequest(f.body.octets)
  }

  /** Given the length of a cut message, which wraps, these read its payload. */
  predicate ReadsPayload(messageType: byte) {
    messageType in {WHO_IS_ROUTER, I_AM_ROUTER, REJECT_MESSAGE, INIT_RT_TABLE}
  }

  /** my_routing_npdu_handler. */
  function Handle(t: Table, snet: Net, mac: Mac, packet: Packet, left: Dest): Result {
    if packet.Undecodable? then Done(t, [])
    else
      var f := packet.frame;
      match f.body
      case Control(messageType, _) =>
        if !IsLocal(f) then Done(t, [])
        else if packet.Cut? && ReadsPayload(messageType) then Undefined
        else ControlMessage(t, snet, mac, f)
      case Apdu(octets) =>
        if packet.Cut? then Done(t, [])
        else if !IsLocal(f) && f.hopCount <= 1 then Done(t, [])
        else if f.destNet == BROADCAST_NETWORK && octets == [] then Undefined // reads the octet behind the message
        else if f.destNet == BROADCAST_NETWORK && IsConfirmedRequest(octets) then Done(t, [])
        else RouteApdu(t, snet, mac, f, left)
  }

  /** Exactly the packets for which one of the router's own handlers goes to a
      null port or reads past the message. */
  lemma UndefinedExactlyWhen(t: Table, snet: Net, mac: Mac, packet: Packet, left: Dest)
    ensures Handle(t, snet, mac, packet, left).Undefined? <==>
      match packet
      case Undecodable => false
      case Cut(f) => f.body.Control? && IsLocal(f) && ReadsPayload(f.body.messageType)
      case Npdu(f) =>
        match f.body
        case Apdu(octets) =>
          || (f.destNet == BROADCAST_NETWORK && octets == [])
          || (!IsLocal(f) && f.hopCount > 1 && !Lists(t, f.destNet))
        case Control(messageType, payload) =>
          && IsLocal(f)
          && (|| (messageType == I_AM_ROUTER && |payload| % 2 == 1)
              || (messageType == INIT_RT_TABLE && 0 < |payload| < 5 && payload[0] != 0))
  {
    if packet.Npdu? {
      SearchFinds(t, 0, packet.frame.destNet);
      var r := Search(t, packet.frame.destNet);
      if !r.Missing? {
        var (i, k) := SlotOf(r);
        assert IsSlot(t, i, k) && NetAt(t, i, k) == packet.frame.destNet;
      }
    }
  }

  // ---- Whole runs: routes never change ----

  datatype Event = AddPort(net: Net, mac: Mac) | Receive(snet: Net, mac: Mac, packet: Packet, left: Dest)

  /** A run ends where the code is undefined; the table stays as it was. */
  function After(t: Table, e: Event): Table {
    match e
    case AddPort(net, mac) => PortAdd(t, net, mac)
    case Receive(snet, mac, packet, left) =>
      match Handle(t, snet, mac, packet, left)
      case Done(t', _) => t'
      case Undefined => t
  }

  function RunFrom(t: Table, events: seq<Event>): Table
    decreases |events|
  {
    if events == [] then t else RunFrom(After(t, events[0]), events[1..])
  }

  lemma {:induction false} AddAllExtends(t: Table, snet: Net, nets: seq<Net>, mac: Mac)
    ensures Extends(t, DnetAddAll(t, snet, nets, mac))
    decreases |nets|
  {
    if nets == [] {
    } else {
      DnetAddExtends(t, snet, nets[0], mac);
      AddAllExtends(DnetAdd(t, snet, nets[0], mac), snet, nets[1..], mac);
    }
  }

  /** A handler leaves the table, or learns: a source, one network, or a list. */
  lemma {:induction false} HandleLearns(t: Table, snet: Net, mac: Mac, packet: Packet, left: Dest)
    requires Handle(t, snet, mac, packet, left).Done?
    ensures var t' := Handle(t, snet, mac, packet, left).table;
      || t' == t
      || (packet.Npdu? && t' == DnetAdd(t, snet, packet.frame.srcNet, mac))
      || (packet.Npdu? && packet.frame.body.Control? && var p := packet.frame.body.payload;
          || (|p| >= 5 && t' == DnetAdd(t, snet, DecodeUnsigned16(p[1], p[2]), mac))
          || (|p| % 2 == 0 && t' == DnetAddAll(t, snet, DecodeNets(p), mac)))
  {
    hide DnetAdd, DnetAddAll, SearchFrom, AckPayload6, Reachable, DecodeUnsigned16, Relayed;
  }

  lemma {:induction false} AfterExtends(t: Table, e: Event)
    ensures Extends(t, After(t, e))
  {
    var t' := After(t, e);
    match e
    case AddPort(net, mac) => PortAddExtends(t, net, mac);
    case Receive(snet, mac, packet, left) =>
      if t' != t {
        HandleLearns(t, snet, mac, packet, left);
        var f := packet.frame;
        if t' == DnetAdd(t, snet, f.srcNet, mac) {
          DnetAddExtends(t, snet, f.srcNet, mac);
        } else if |f.body.payload| >= 5 && t' == DnetAdd(t, snet, DecodeUnsigned16(f.body.payload[1], f.body.payload[2]), mac) {
          DnetAddExtends(t, snet, DecodeUnsigned16(f.body.payload[1], f.body.payload[2]), mac);
        } else {
          AddAllExtends(t, snet, DecodeNets(f.body.payload), mac);
        }
      }
  }

  lemma {:induction false} RunExtends(t: Table, events: seq<Event>)
    ensures Extends(t, RunFrom(t, events))
    decreases |events|
  {
    if events == [] {
    } else {
      AfterExtends(t, events[0]);
      RunExtends(After(t, events[0]), events[1..]);
    }
  }

  /** In every reachable table no network occurs twice, and a route that is once
      resolved stays the same for the rest of the run. */
  lemma {:induction false} RoutesNeverChange(before: seq<Event>, later: seq<Event>, net: Net, hop: Hop)
    ensures var t := RunFrom([], before); var t' := RunFrom(t, later);
      && NoRepeats(t) && NoRepeats(t')
      && (Resolve(t, net) == Some(hop) <==> Maps(t, net, hop))
      && (Resolve(t, net) == Some(hop) ==> Resolve(t', net) == Some(hop))
  {
    RunExtends([], before);
    RunExtends(RunFrom([], before), later);
    ResolveIsLookup(RunFrom([], before), net, hop);
  }

  // ---- Two routers on one network ----

  lemma PortResolvesToItself(t: Table, snet: Net)
    requires NoRepeats(t) && IsPort(t, snet)
    ensures Resolve(t, snet) == Some(OnPort(snet))
  {
    var i: nat :| i < |t| && PortNets(t)[i] == snet;
    assert IsSlot(t, i, 0) && NetAt(t, i, 0) == snet;
    ResolveIsLookup(t, snet, OnPort(snet));
  }

  /** Router B processes router A's full I-Am-Router-To-Network on `shared`. */
  lemma {:induction false} IAmExchange(a: Table, b: Table, shared: Net, macA: Mac, left: Dest, net: Net)
    requires NoRepeats(a) && NoRepeats(b) && IsPort(a, shared) && IsPort(b, shared)
    ensures var frame := SendIAm(a, shared, 0).frame;
      var list := Reachable(a, shared);
      var result := Handle(b, shared, macA, Npdu(frame), left);
      && frame.body.payload == EncodeNets(list) && |frame.body.payload| % 2 == 0
      && DecodeNets(frame.body.payload) == list
      && (net in list <==> Resolve(a, net).Some? && Resolve(a, net).value.port != shared)
      && result.Done? && result.sends == []
      && NoRepeats(result.table)
      && (net in list && Resolve(b, net).None? ==> Resolve(result.table, net) == Some(NextRouter(shared, macA)))
      && (net in list ==> Resolve(result.table, net).Some?)
      && (net !in list || Resolve(b, net).Some? ==> Resolve(result.table, net) == Resolve(b, net))
  {
    hide Search, NoRepeats, DecodeUnsigned16, DnetAdd, Resolve;
    NetsRoundTrip(Reachable(a, shared));
    ReachableMeansOtherPort(a, shared, net);
    PortResolvesToItself(b, shared);
    DnetAddAllResolves(b, shared, Reachable(a, shared), macA);
  }

  // ---- The data links ----

  datatype Link = Ip | Ip6

  function Other(link: Link): Link {
    if link.Ip? then Ip6 else Ip
  }

  /** BIP_Net and BIP6_Net, which the environment sets to any numbers. */
  datatype Setup = Setup(ipNet: Net, ip6Net: Net) {
    function Number(link: Link): Net {
      if link.Ip? then ipNet else ip6Net
    }

    /** datalink_send_pdu: the data links a network number stands for. */
    function Links(net: Net): set<Link> {
      if net == 0 then {Ip, Ip6}
      else if net == ipNet then {Ip}
      else if net == ip6Net then {Ip6}
      else {}
    }

    function Ports(): seq<Net> {
      if ipNet == ip6Net then [ipNet] else [ipNet, ip6Net]
    }
  }

  /** datalink_init. */
  function Init(c: Setup, ipMac: Mac, ip6Mac: Mac): Table {
    PortAdd(PortAdd([], c.ipNet, ipMac), c.ip6Net, ip6Mac)
  }

  /** What goes out on one data link, in order. */
  function Out(c: Setup, sends: seq<Send>, link: Link): seq<Send> {
    if sends == [] then []
    else (if link in c.Links(sends[0].port) then [sends[0]] else []) + Out(c, sends[1..], link)
  }

  lemma {:induction false} LearningKeepsPorts(t: Table, snet: Net, net: Net, mac: Mac)
    ensures PortNets(DnetAdd(t, snet, net, mac)) == PortNets(t)
  {}

  lemma {:induction false} LearningAllKeepsPorts(t: Table, snet: Net, nets: seq<Net>, mac: Mac)
    ensures PortNets(DnetAddAll(t, snet, nets, mac)) == PortNets(t)
    decreases |nets|
  {
    if nets == [] {
    } else {
      LearningKeepsPorts(t, snet, nets[0], mac);
      LearningAllKeepsPorts(DnetAdd(t, snet, nets[0], mac), snet, nets[1..], mac);
    }
  }

  lemma ReceivingKeepsPorts(t: Table, e: Event)
    requires e.Receive?
    ensures PortNets(After(t, e)) == PortNets(t)
  {
    var Receive(snet, mac, packet, left) := e;
    var t' := After(t, e);
    if t' != t {
      HandleLearns(t, snet, mac, packet, left);
      var f := packet.frame;
      if t' == DnetAdd(t, snet, f.srcNet, mac) {
        LearningKeepsPorts(t, snet, f.srcNet, mac);
      } else if |f.body.payload| >= 5 && t' == DnetAdd(t, snet, DecodeUnsigned16(f.body.payload[1], f.body.payload[2]), mac) {
        LearningKeepsPorts(t, snet, DecodeUnsigned16(f.body.payload[1], f.body.payload[2]), mac);
      } else {
        LearningAllKeepsPorts(t, snet, DecodeNets(f.body.payload), mac);
      }
    }
  }

  lemma {:induction false} ReceivedKeepPorts(t: Table, events: seq<Event>)
    requires forall e <- events :: e.Receive?
    ensures PortNets(RunFrom(t, events)) == PortNets(t)
    decreases |events|
  {
    if events == [] {
    } else {
      ReceivingKeepsPorts(t, events[0]);
      ReceivedKeepPorts(After(t, events[0]), events[1..]);
    }
  }

  /** Whatever the router receives, its ports are its data links' networks. */
  lemma {:induction false} PortsOfEveryRun(c: Setup, ipMac: Mac, ip6Mac: Mac, events: seq<Event>)
    requires forall e <- events :: e.Receive?
    ensures var t := RunFrom(Init(c, ipMac, ip6Mac), events); NoRepeats(t) && PortNets(t) == c.Ports()
  {
    var t0: Table := [];
    var t1 := PortAdd(t0, c.ipNet, ipMac);
    var t2 := Init(c, ipMac, ip6Mac);
    AfterExtends(t0, AddPort(c.ipNet, ipMac));
    AfterExtends(t1, AddPort(c.ip6Net, ip6Mac));
    assert t1 == [Port(c.ipNet, ipMac, [])];
    assert Search(t1, c.ip6Net).Missing? <==> c.ipNet != c.ip6Net;
    assert PortNets(t2) == c.Ports();
    ReceivedKeepPorts(t2, events);
    RunExtends(t2, events);
  }

  lemma OutOne(c: Setup, s: Send, link: Link)
    ensures Out(c, [s], link) == if link in c.Links(s.port) then [s] else []
  {
    assert [s][1..] == [];
  }

  lemma AckSent(t: Table, net: Net, mac: Mac, f: Frame, left: Dest)
    requires f.body.Control? && f.body.messageType == INIT_RT_TABLE && IsLocal(f) && f.body.payload != []
    requires !Handle(t, net, mac, Npdu(f), left).Undefined?
    ensures exists t' :: Handle(t, net, mac, Npdu(f), left).sends == [SendAck(t', net)]
  {
    var payload := f.body.payload;
    if payload[0] == 0 {
      assert Handle(t, net, mac, Npdu(f), left).sends == [SendAck(t, net)];
    } else {
      var t' := DnetAdd(t, net, DecodeUnsigned16(payload[1], payload[2]), mac);
      assert Handle(t, net, mac, Npdu(f), left).sends == [SendAck(t', net)];
    }
  }

  lemma LinksOfLow(c: Setup, from: Link)
    ensures var net := c.Number(from); var low: Net := net % 256;
      && (from in c.Links(low) <==> low == 0 || (net < 256 && (from == Ip || c.ipNet != c.ip6Net)))
      && (Other(from) in c.Links(low) <==> low == 0 || (low == c.Number(Other(from)) && !(net < 256 && from == Ip)))
  {
  }

  /** An acknowledgement to the sender of Initialize-Routing-Table passes its
      network number through a uint8_t.  It reaches the link it was asked on,
      that link alone, the other link, or none, exactly so. */
  lemma {:induction false} AckGoesBackIff(c: Setup, t: Table, from: Link, mac: Mac, f: Frame, left: Dest)
    requires f.body.Control? && f.body.messageType == INIT_RT_TABLE && IsLocal(f) && f.body.payload != []
    requires !Handle(t, c.Number(from), mac, Npdu(f), left).Undefined?
    ensures var net := c.Number(from); var low := net % 256;
      var sends := Handle(t, net, mac, Npdu(f), left).sends;
      var ownNumber := from == Ip || c.ipNet != c.ip6Net;
      && |sends| == 1 && sends[0].frame.body.Control? && sends[0].frame.body.messageType == INIT_RT_TABLE_ACK
      && (Out(c, sends, from) == sends <==> low == 0 || (net < 256 && ownNumber))
      && (Out(c, sends, from) == sends && Out(c, sends, Other(from)) == [] <==> 0 < net < 256 && ownNumber)
      && (Out(c, sends, Other(from)) == sends <==> low == 0 || (low == c.Number(Other(from)) && !(net < 256 && from == Ip)))
      && (Out(c, sends, Ip) == Out(c, sends, Ip6) == [] <==> net >= 256 && low !in {0, c.ipNet, c.ip6Net})
  {
    var net := c.Number(from);
    hide Handle, AckPayload6, Out, c.Links;
    AckSent(t, net, mac, f, left);
    LinksOfLow(c, from);
    var t' :| Handle(t, net, mac, Npdu(f), left).sends == [SendAck(t', net)];
    OutOne(c, SendAck(t', net), from);
    OutOne(c, SendAck(t', net), Other(from));
  }

  // ---- Broadcasts ----

  lemma {:induction false} OnlyCopies(t: Table, snet: Net, mac: Mac, frame: Frame)
    ensures forall s <- OnOtherPorts(t, snet, mac, frame) :: s.mac == mac && s.frame == frame
  {
    if t == [] {
    } else {
      OnlyCopies(t[1..], snet, mac, frame);
    }
  }

  ghost predicate DistinctPorts(t: Table) {
    forall i, j :: 0 <= i < j < |t| ==> t[i].net != t[j].net
  }

  lemma FirstOrRest(t: Table, net: Net)
    requires t != [] && DistinctPorts(t)
    ensures DistinctPorts(t[1..])
    ensures IsPort(t, net) <==> t[0].net == net || IsPort(t[1..], net)
    ensures t[0].net == net ==> !IsPort(t[1..], net)
  {
    assert PortNets(t) == [t[0].net] + PortNets(t[1..]);
  }

  lemma {:induction false} OtherPortsOnce(t: Table, snet: Net, mac: Mac, frame: Frame, net: Net)
    requires DistinctPorts(t)
    ensures var sends := OnOtherPorts(t, snet, mac, frame);
      && (forall s <- sends :: s.mac == mac && s.frame == frame)
      && multiset(sends)[Send(net, mac, frame)] == if IsPort(t, net) && net != snet then 1 else 0
  {
    OnlyCopies(t, snet, mac, frame);
    if t == [] {
    } else {
      var rest := t[1..];
      FirstOrRest(t, net);
      hide DistinctPorts, IsPort, PortNets;
      OtherPortsOnce(rest, snet, mac, frame, net);
      var here := if t[0].net != snet then [Send(t[0].net, mac, frame)] else [];
      var there := OnOtherPorts(rest, snet, mac, frame);
      assert OnOtherPorts(t, snet, mac, frame) == here + there;
      hide OnOtherPorts;
      CopiesAdd(here, there, Send(net, mac, frame));
    }
  }

  lemma CopiesAdd(a: seq<Send>, b: seq<Send>, s: Send)
    requires |a| <= 1
    ensures multiset(a + b)[s] == (if a == [s] then 1 else 0) + multiset(b)[s]
  {
    assert multiset(a + b) == multiset(a) + multiset(b);
    assert a == [] || a == [a[0]];
  }

  lemma PortsAreDistinct(t: Table)
    requires NoRepeats(t)
    ensures DistinctPorts(t)
  {
    forall i: nat, j: nat | i < j < |t| ensures t[i].net != t[j].net {
      assert IsSlot(t, i, 0) && IsSlot(t, j, 0) && NetAt(t, i, 0) == t[i].net && NetAt(t, j, 0) == t[j].net;
    }
  }

  /** The send loop of a router with two data links: one call at most, for the
      other link's number.  If that is 0, the copy leaves on both links. */
  lemma OtherPortOut(c: Setup, t: Table, from: Link, mac: Mac, frame: Frame)
    requires PortNets(t) == c.Ports()
    ensures var sends := OnOtherPorts(t, c.Number(from), mac, frame); var copy := Send(c.Number(Other(from)), mac, frame);
      && sends == (if c.ipNet == c.ip6Net then [] else [copy])
      && Out(c, sends, Other(from)) == sends
      && Out(c, sends, from) == if copy.port == 0 then sends else []
  {
    assert |t| == |PortNets(t)| && t[0].net == PortNets(t)[0];
    if c.ipNet != c.ip6Net {
      assert t[1].net == PortNets(t)[1];
      assert t[1..][1..] == [];
      assert OnOtherPorts(t[1..], c.Number(from), mac, frame) == if from == Ip then [Send(c.ip6Net, mac, frame)] else [];
    } else {
      assert t[1..] == [];
    }
  }

  /** A Who-Is-Router-To-Network for one network (section 6.6.3.2): answered if
      the way to the network is through another port, left alone if it is
      through the port it came in on, and passed on to the other ports if the
      network is unknown. */
  lemma {:induction false} WhoIsForOneNetwork(t: Table, snet: Net, net: Net, port: Net)
    requires NoRepeats(t) && net != 0
    ensures var result := WhoIsRouter(t, snet, EncodeUnsigned16(net));
            var query := Announce(port, WHO_IS_ROUTER, EncodeUnsigned16(net));
      && result.Done? && result.table == t
      && match Resolve(t, net)
         case Some(hop) => result.sends == if hop.port != snet then [SendIAm(t, snet, net)] else []
         case None =>
           && (forall s <- result.sends :: s.frame == query.frame && s.mac == [])
           && multiset(result.sends)[query] == if IsPort(t, port) && port != snet then 1 else 0
  {
    PortsAreDistinct(t);
    OtherPortsOnce(t, snet, [], Announce(snet, WHO_IS_ROUTER, EncodeUnsigned16(net)).frame, port);
  }

  /** On the data links: the answer goes to the asking link alone exactly if its
      number is not 0, the search to the other link alone exactly if that one's
      number is not 0 (and the two numbers differ). */
  lemma {:induction false} WhoIsOnTheLinks(c: Setup, t: Table, from: Link, net: Net)
    requires NoRepeats(t) && PortNets(t) == c.Ports() && net != 0
    ensures var snet := c.Number(from);
      var sends := WhoIsRouter(t, snet, EncodeUnsigned16(net)).sends;
      var here, there := Out(c, sends, from), Out(c, sends, Other(from));
      match Resolve(t, net)
      case Some(hop) =>
        var answer := if hop.port != snet then [SendIAm(t, snet, net)] else [];
        here == answer && there == if snet == 0 then answer else []
      case None =>
        var query := Announce(c.Number(Other(from)), WHO_IS_ROUTER, EncodeUnsigned16(net));
        && there == (if c.ipNet == c.ip6Net then [] else [query])
        && here == if query.port == 0 then there else []
  {
    hide SearchFrom, NoRepeats, OnOtherPorts, Reachable, Out;
    var snet := c.Number(from);
    OtherPortOut(c, t, from, [], Announce(snet, WHO_IS_ROUTER, EncodeUnsigned16(net)).frame);
    OutNothing(c, from);
    OutNothing(c, Other(from));
    if Resolve(t, net).Some? {
      RoutesLeadToPorts(t, net);
      OutOne(c, SendIAm(t, snet, net), from);
      OutOne(c, SendIAm(t, snet, net), Other(from));
    }
  }

  lemma OutNothing(c: Setup, link: Link)
    ensures Out(c, [], link) == []
  {}

  lemma RoutesLeadToPorts(t: Table, net: Net)
    requires NoRepeats(t) && Resolve(t, net).Some?
    ensures Resolve(t, net).value.port in PortNets(t)
  {
    ResolveIsLookup(t, net, Resolve(t, net).value);
    var i: nat, k: nat :| IsSlot(t, i, k) && NetAt(t, i, k) == net && HopAt(t, i, k) == Resolve(t, net).value;
    assert PortNets(t)[i] == t[i].net;
  }

  /** A global broadcast is sent exactly once for every port but the one it came
      in on, with the same APDU and the source added (section 6.3.2). */
  lemma BroadcastLeavesOnce(t: Table, snet: Net, mac: Mac, f: Frame, left: Dest, net: Net)
    requires NoRepeats(t) && IsBroadcast(f)
    ensures var result := Handle(t, snet, mac, Npdu(f), left); var copy := Relayed(f, snet, mac, EVERYWHERE);
      && result.Done?
      && (forall s <- result.sends :: s.frame == copy && s.mac == [])
      && copy.body == f.body && copy.destNet == BROADCAST_NETWORK
      && multiset(result.sends)[Send(net, [], copy)] == if IsPort(t, net) && net != snet then 1 else 0
  {
    var t' := Learned(t, snet, mac, f);
    LearningKeepsPorts(t, snet, f.srcNet, mac);
    DnetAddExtends(t, snet, f.srcNet, mac);
    PortsAreDistinct(t');
    OtherPortsOnce(t', snet, [], Relayed(f, snet, mac, EVERYWHERE), net);
  }

  /** On the data links: it leaves on the other link once and never on the one
      it came in on, exactly if the links have two numbers and the other link's
      is not 0; with 0 it also goes straight back. */
  lemma {:induction false} BroadcastOnTheLinks(c: Setup, t: Table, from: Link, mac: Mac, f: Frame, left: Dest)
    requires PortNets(t) == c.Ports() && IsBroadcast(f)
    ensures var snet := c.Number(from);
      var sends := Handle(t, snet, mac, Npdu(f), left).sends;
      var copy := Send(c.Number(Other(from)), [], Relayed(f, snet, mac, EVERYWHERE));
      var here, there := Out(c, sends, from), Out(c, sends, Other(from));
      && (there == [copy] && here == [] <==> c.ipNet != c.ip6Net && copy.port != 0)
      && (here != [] <==> c.ipNet != c.ip6Net && copy.port == 0)
      && (here != [] ==> here == there == [copy])
  {
    var snet := c.Number(from);
    var t' := Learned(t, snet, mac, f);
    LearningKeepsPorts(t, snet, f.srcNet, mac);
    OtherPortOut(c, t', from, [], Relayed(f, snet, mac, EVERYWHERE));
  }

  /** The comment has a broadcast relayed if its hop count, once decremented, is
      still greater than zero.  The code decrements the octet, which wraps, and
      never looks at it. */
  function ByHopRule(t: Table, snet: Net, mac: Mac, f: Frame): seq<Send> {
    if f.hopCount <= 1 then [] else OnOtherPorts(t, snet, [], Relayed(f, snet, mac, EVERYWHERE))
  }

  lemma BroadcastMeetsHopRuleIff(t: Table, snet: Net, mac: Mac, f: Frame, left: Dest)
    requires IsBroadcast(f)
    ensures Handle(t, snet, mac, Npdu(f), left).sends == ByHopRule(t, snet, mac, f)
            <==> f.hopCount > 1 || (forall p <- t :: p.net == snet)
  {
    var t' := Learned(t, snet, mac, f);
    var copy := Relayed(f, snet, mac, EVERYWHERE);
    LearningKeepsPorts(t, snet, f.srcNet, mac);
    SamePortsSameSends(t, t', snet, [], copy);
    NoOtherPorts(t, snet, [], copy);
  }

  lemma {:induction false} SamePortsSameSends(t: Table, t': Table, snet: Net, mac: Mac, frame: Frame)
    requires PortNets(t) == PortNets(t')
    ensures OnOtherPorts(t, snet, mac, frame) == OnOtherPorts(t', snet, mac, frame)
  {
    assert |t| == |PortNets(t)| == |t'|;
    if t == [] {
    } else {
      assert PortNets(t) == [t[0].net] + PortNets(t[1..]) && PortNets(t') == [t'[0].net] + PortNets(t'[1..]);
      assert t[0].net == PortNets(t)[0] == t'[0].net;
      assert PortNets(t[1..]) == PortNets(t)[1..] == PortNets(t'[1..]);
      SamePortsSameSends(t[1..], t'[1..], snet, mac, frame);
    }
  }

  lemma {:induction false} NoOtherPorts(t: Table, snet: Net, mac: Mac, frame: Frame)
    ensures OnOtherPorts(t, snet, mac, frame) == [] <==> forall p <- t :: p.net == snet
  {
    if t == [] {
    } else {
      NoOtherPorts(t[1..], snet, mac, frame);
      assert forall p :: p in t <==> p == t[0] || p in t[1..];
    }
  }
}
