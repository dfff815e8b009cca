/** The port list of the threaded router in memory: portthread.c,
    get_next_free_dnet, and the network message handler of network_layer.c. */
module PortThreadProcess {
  import opened Octets
  import opened RoutingTable
  import opened NetworkMessages
  import opened LinkedTable
  import opened NetworkLayer
  import opened Npdu
  import PT = PortThread
  import TR = ThreadedRelay

  method FindDnet(table: LinkedTable.Table, net: Net) returns (port: Node?, addr: Option<Mac>)
    requires table.Valid()
    ensures match PT.FindDnet(table.View(), net)
            case Missing => port == null
            case Direct(i) => port == table.ports[i] && addr == None
            case Via(i, k) => port == table.ports[i] && addr == Some(table.View()[i].learned[k].mac)
  {
    if net == BROADCAST_NETWORK {
      return table.head, None;
    }
    port, addr := table.DnetFind(net);
  }

  method AddDnet(table: LinkedTable.Table, port: Node, ghost p: nat, net: Net, mac: Mac)
    requires table.Valid() && p < |table.ports| && port == table.ports[p]
    modifies table.Repr
    ensures table.Valid() && fresh(table.Repr - old(table.Repr)) && table.ports == old(table.ports)
    ensures table.View() == PT.AddDnet(old(table.View()), p, net, mac)
  {
    var dnet := port.dnets;
    ghost var nodes, k := table.lists[p], 0;
    assert Chain(port.dnets, nodes, p);
    while dnet != null
      invariant 0 <= k <= |nodes| && dnet == At(nodes, k)
      invariant forall l :: 0 <= l < k ==> table.View()[p].learned[l].net != net
      decreases |nodes| - k
    {
      if dnet.net == net {
        FirstRoute(table.View()[p].learned, net, k);
        return;
      }
      assert LinkedAt(nodes, p, k);
      dnet := dnet.next;
      k := k + 1;
    }
    table.Learn(port, p, net, mac);
  }

  /** process_msg for an APDU that arrived on port `p`; none is a search. */
  method ProcessMsg(table: LinkedTable.Table, srcport: Node, ghost p: nat, mac: Mac, f: Frame) returns (frame: Option<Frame>)
    requires table.Valid() && p < |table.ports| && srcport == table.ports[p]
    ensures var r := PT.FindDnet(table.View(), f.destNet);
      && (frame.Some? <==> !r.Missing?)
      && (frame.Some? ==> frame.value == TR.Routed(TR.Visit(table.View(), p, mac), f, r.port))
  {
    var destport, _ := FindDnet(table, f.destNet);
    if destport == null {
      return None;
    }
    var net, adr := srcport.net, mac;
    if f.srcNet > 0 && f.srcNet < BROADCAST_NETWORK && net != f.srcNet {
      net, adr := f.srcNet, f.srcAdr;
    }
    if f.destNet == BROADCAST_NETWORK || destport.net != f.destNet {
      frame := Some(Encode(f.destNet, f.destAdr, net, adr, f.hopCount, f.body));
    } else {
      frame := Some(Encode(0, [], net, adr, f.hopCount, f.body));
    }
  }

  /** The APDU branch of main(): the ports that get the frame, and the address it
      has on the way; finished ports are a matter of RouterProcess. */
  method DispatchApdu(table: LinkedTable.Table, srcport: Node, ghost p: nat, mac: Mac, f: Frame)
    returns (ports: seq<Node>, adr: Mac, frame: Option<Frame>)
    requires table.Valid() && p < |table.ports| && srcport == table.ports[p]
    ensures var sends := TR.SendsOf(TR.Visit(table.View(), p, mac), f);
      && |ports| == |sends|
      && forall k :: 0 <= k < |sends| ==> frame.Some? && Carries(table, sends[k], ports[k], adr, frame.value)
  {
    frame := ProcessMsg(table, srcport, p, mac, f);
    ports, adr := [], f.destAdr;
    if frame.None? {
      return;
    }
    if f.destNet != BROADCAST_NETWORK {
      var port, next := FindDnet(table, f.destNet); // fills in the address of a next router
      if next.Some? {
        adr := next.value;
      }
      ports := [port];
      return;
    }
    ports := OtherPorts(table, srcport, p, adr, frame.value);
  }

  ghost predicate Carries(table: LinkedTable.Table, s: TR.Send, port: Node, adr: Mac, frame: Frame)
    reads table
  {
    s.port < |table.ports| && port == table.ports[s.port] && s.adr == adr && s.frame == frame
  }

  method OtherPorts(table: LinkedTable.Table, srcport: Node, ghost p: nat, ghost adr: Mac, ghost frame: Frame)
    returns (ports: seq<Node>)
    requires table.Valid() && p < |table.ports| && srcport == table.ports[p]
    ensures var sends := TR.ToOthers(|table.ports|, p, adr, frame);
      |ports| == |sends| && forall k :: 0 <= k < |sends| ==> Carries(table, sends[k], ports[k], adr, frame)
  {
    hide table.View;
    ports := [];
    var port := table.head;
    ghost var i := 0;
    table.PortAt(0);
    while port != null
      invariant 0 <= i <= |table.ports| && port == At(table.ports, i)
      invariant |ports| == |TR.ToOthers(i, p, adr, frame)|
      invariant forall k :: 0 <= k < |ports| ==> Carries(table, TR.ToOthers(i, p, adr, frame)[k], ports[k], adr, frame)
      decreases |table.ports| - i
    {
      assert LinkedAt(table.ports, -1, i) && LinkedAt(table.ports, -1, p);
      if port != srcport {
        ports := ports + [port];
      }
      port := port.next;
      i := i + 1;
    }
  }

  /** The scan starts over at every hit.  It ends if any number is free. */
  method GetNextFreeDnet(table: LinkedTable.Table) returns (net: Net, ghost s: nat)
    requires table.Valid()
    requires exists r :: 0 <= r < 0x1_0000 && !PT.Used(PortNets(table.View()), PT.Candidate(r))
    ensures s < 0x1_0000 && net == PT.Candidate(s) && !PT.Used(PortNets(table.View()), net)
    ensures forall r :: 0 <= r < s ==> PT.Used(PortNets(table.View()), PT.Candidate(r))
    ensures |table.View()| < 0xFFFF ==> 1 <= net <= |table.View()| + 1
    ensures |table.View()| < 0xFFFF ==> forall n: Net :: 1 <= n < net ==> PT.Used(PortNets(table.View()), n)
  {
    ghost var nets := PortNets(table.View());
    ghost var free :| 0 <= free < 0x1_0000 && !PT.Used(nets, PT.Candidate(free));
    var port := table.head;
    net, s := 1, 0;
    ghost var i := 0;
    while port != null
      invariant 0 <= i <= |table.ports| && port == At(table.ports, i)
      invariant s <= free && net == PT.Candidate(s)
      invariant forall j :: 0 <= j < i ==> nets[j] != net
      invariant forall r :: 0 <= r < s ==> PT.Used(nets, PT.Candidate(r))
      decreases free - s, |nets| - i
    {
      if port.net == net {
        assert nets[i] == net;
        port := table.head;
        net := (net + 1) % 0x1_0000;
        s, i := s + 1, 0;
        continue;
      }
      assert LinkedAt(table.ports, -1, i);
      port := port.next;
      i := i + 1;
    }
    if |table.View()| < 0xFFFF {
      PT.FirstFreeIsLeast(nets, s);
    }
  }

  /** process_network_message for a message that arrived on port `p`; no reply
      if the message ends before what is read of it. */
  method ProcessNetworkMessage(table: LinkedTable.Table, port: Node, ghost p: nat, mac: Mac, kind: byte, payload: seq<byte>)
    returns (reply: Option<Reply>)
    requires table.Valid() && p < |table.ports| && port == table.ports[p]
    modifies table.Repr
    ensures table.Valid() && fresh(table.Repr - old(table.Repr)) && table.ports == old(table.ports)
    ensures reply.Some? <==> Readable(kind, payload)
    ensures reply.Some? ==> table.View() == PT.After(old(table.View()), HeardIn(Message(p, mac, kind, payload)))
    ensures reply.Some? ==> reply.value == ReplyTo(old(table.View()), Message(p, mac, kind, payload))
  {
    reply := Some(Nothing);
    if kind == WHO_IS_ROUTER_TO_NETWORK {
      if |payload| == 1 {
        return None;
      }
      var answer := WhoIsRouterToNetwork(table, port, p, payload);
      reply := Some(answer);
    } else if kind == I_AM_ROUTER_TO_NETWORK {
      LearnNetworks(table, port, p, mac, payload);
    } else if kind == REJECT_MESSAGE_TO_NETWORK {
      if payload == [] {
        return None;
      }
      var _ := payload[0]; // the reason, which is only printed
    } else if kind == INIT_RT_TABLE || kind == INIT_RT_TABLE_ACK {
      if payload == [] || (payload[0] > 0 && |payload| < 5) {
        return None;
      }
      if payload[0] > 0 {
        LearnFirstEntry(table, port, p, mac, kind, payload);
        reply := Some(if kind == INIT_RT_TABLE then Reply(INIT_RT_TABLE_ACK, [0]) else Nothing);
      } else if kind == INIT_RT_TABLE {
        var ack := AckOf(table);
        reply := Some(Reply(INIT_RT_TABLE_ACK, ack));
      }
    } else if kind == WHAT_IS_NETWORK_NUMBER {
      reply := Some(Reply(NETWORK_NUMBER_IS, []));
    }
  }

  method LearnNetworks(table: LinkedTable.Table, port: Node, ghost p: nat, mac: Mac, payload: seq<byte>)
    requires table.Valid() && p < |table.ports| && port == table.ports[p]
    modifies table.Repr
    ensures table.Valid() && fresh(table.Repr - old(table.Repr)) && table.ports == old(table.ports)
    ensures table.View() == PT.After(old(table.View()), HeardIn(Message(p, mac, I_AM_ROUTER_TO_NETWORK, payload)))
  {
    hide table.Valid, table.View, DecodeUnsigned16, PT.AddDnet;
    ghost var t, heard := table.View(), HeardIn(Message(p, mac, I_AM_ROUTER_TO_NETWORK, payload));
    var netCount := |payload| / 2;
    var i := 0;
    DecodeNetsAt(Even(payload), 0);
    while i < netCount
      invariant 0 <= i <= netCount == |heard|
      invariant table.Valid() && fresh(table.Repr - old(table.Repr)) && table.ports == old(table.ports)
      invariant table.View() == PT.After(t, heard[..i])
    {
      DecodeNetsAt(Even(payload), i);
      AddDnet(table, port, p, DecodeUnsigned16(payload[2 * i], payload[2 * i + 1]), mac);
      assert heard[..i + 1][..i] == heard[..i];
      i := i + 1;
    }
    assert heard[..i] == heard;
  }

  /** The loop for Initialize-Routing-Table and its acknowledgement, which
      starts from the first entry on every pass. */
  method LearnFirstEntry(table: LinkedTable.Table, port: Node, ghost p: nat, mac: Mac, ghost kind: byte, payload: seq<byte>)
    requires table.Valid() && p < |table.ports| && port == table.ports[p]
    requires kind == INIT_RT_TABLE || kind == INIT_RT_TABLE_ACK
    requires Readable(kind, payload) && payload[0] > 0
    modifies table.Repr
    ensures table.Valid() && fresh(table.Repr - old(table.Repr)) && table.ports == old(table.ports)
    ensures table.View() == PT.After(old(table.View()), HeardIn(Message(p, mac, kind, payload)))
  {
    ghost var t, heard, done := table.View(), HeardIn(Message(p, mac, kind, payload)), 0;
    var netCount: int := payload[0];
    while netCount > 0
      invariant 0 <= netCount && netCount + done == payload[0] == |heard|
      invariant table.Valid() && fresh(table.Repr - old(table.Repr)) && table.ports == old(table.ports)
      invariant table.View() == PT.After(t, heard[..done])
    {
      netCount := netCount - 1;
      var i := 1;
      AddDnet(table, port, p, DecodeUnsigned16(payload[i], payload[i + 1]), mac);
      assert heard[..done + 1][..done] == heard[..done];
      done := done + 1;
    }
    assert heard[..done] == heard;
  }

  method WhoIsRouterToNetwork(table: LinkedTable.Table, port: Node, ghost p: nat, payload: seq<byte>) returns (reply: Reply)
    requires table.Valid() && p < |table.ports| && port == table.ports[p] && |payload| != 1
    ensures reply == WhoIsReply(table.View(), p, payload)
  {
    if payload == [] {
      var nets := ReachableNets(table, port.net);
      return Reply(I_AM_ROUTER_TO_NETWORK, EncodeNets(nets));
    }
    var net := DecodeUnsigned16(payload[0], payload[1]);
    if port.net == net {
      return Discarded;
    }
    var dest, _ := FindDnet(table, net);
    reply := if dest != null then Reply(I_AM_ROUTER_TO_NETWORK, EncodeUnsigned16(net)) else SearchFor(net);
  }

  /** The loops of create_network_message for I-Am-Router-To-Network. */
  method ReachableNets(table: LinkedTable.Table, snet: Net) returns (nets: seq<Net>)
    requires table.Valid()
    ensures nets == Advertised(table.View(), snet)
  {
    hide table.Valid, table.View, Advertised, AdvertisedBy, Chain, LinkedAt;
    ghost var t, i := table.View(), 0;
    ghost var all := Advertised(t, snet);
    nets := [];
    var port := table.head;
    assert t[0..] == t;
    table.PortAt(0);
    while port != null
      invariant 0 <= i <= |t| && port == At(table.ports, i)
      invariant all == nets + Advertised(t[i..], snet)
      decreases |t| - i
    {
      table.PortAt(i);
      AdvertisedNext(t, snet, i, all, nets);
      var named := NetsBy(port, table.lists[i], i, snet);
      nets := nets + named;
      port := port.next;
      i := i + 1;
    }
    NothingAdvertised(t[i..], snet);
  }

  lemma AdvertisedNext(t: RoutingTable.Table, snet: Net, i: nat, all: seq<Net>, nets: seq<Net>)
    requires i < |t| && all == nets + Advertised(t[i..], snet)
    ensures all == nets + AdvertisedBy(t[i], snet) + Advertised(t[i + 1..], snet)
  {
    hide AdvertisedBy;
    assert t[i..][0] == t[i] && t[i..][1..] == t[i + 1..];
  }

  lemma NothingAdvertised(t: RoutingTable.Table, snet: Net)
    requires t == []
    ensures Advertised(t, snet) == []
  {
  }

  method NetsBy(port: Node, ghost nodes: seq<Node>, ghost list: int, snet: Net) returns (nets: seq<Net>)
    requires Chain(port.dnets, nodes, list)
    ensures nets == AdvertisedBy(PortOf(port, nodes), snet)
  {
    nets := if port.net != snet then [port.net] else [];
    var learned := ListedNets(port.dnets, nodes, list);
    nets := nets + learned;
  }

  method ListedNets(dnets: Node?, ghost nodes: seq<Node>, ghost list: int) returns (nets: seq<Net>)
    requires Chain(dnets, nodes, list)
    ensures nets == NetsOf(Routes(nodes))
  {
    ghost var routes, k := Routes(nodes), 0;
    nets := [];
    var dnet := dnets;
    assert routes[0..] == routes;
    while dnet != null
      invariant 0 <= k <= |nodes| && dnet == At(nodes, k)
      invariant NetsOf(routes) == nets + NetsOf(routes[k..])
      decreases |nodes| - k
    {
      assert LinkedAt(nodes, list, k);
      assert routes[k..][0] == routes[k] && routes[k..][1..] == routes[k + 1..];
      nets := nets + [dnet.net];
      dnet := dnet.next;
      k := k + 1;
    }
  }

  /** The loop of create_network_message for Initialize-Routing-Table-Ack. */
  method AckOf(table: LinkedTable.Table) returns (payload: seq<byte>)
    requires table.Valid()
    ensures payload == AckPayload(PortNets(table.View()))
  {
    hide table.Valid, table.View, AckEntries, EncodeUnsigned16;
    ghost var nets, i := PortNets(table.View()), 0;
    ghost var all := AckPayload(nets);
    var count := table.CountPorts();
    payload := [count];
    var portId: byte, port := 1, table.head;
    assert nets[0..] == nets;
    table.PortAt(0);
    while port != null
      invariant 0 <= i <= |nets| && port == At(table.ports, i) && portId == (i + 1) % 256
      invariant all == payload + AckEntries(nets[i..], i + 1)
      decreases |nets| - i
    {
      table.PortAt(i);
      EntriesStep(nets, i, all, payload);
      payload := payload + (EncodeUnsigned16(port.net) + [portId, 0]);
      portId := (portId + 1) % 256;
      port := port.next;
      i := i + 1;
    }
    NoEntries(nets, i);
  }

  lemma EntriesStep(nets: seq<Net>, i: nat, all: seq<byte>, payload: seq<byte>)
    requires i < |nets| && all == payload + AckEntries(nets[i..], i + 1)
    ensures all == payload + (EncodeUnsigned16(nets[i]) + [(i + 1) % 256, 0]) + AckEntries(nets[i + 1..], i + 2)
    ensures ((i + 1) % 256 + 1) % 256 == (i + 2) % 256
  {
    hide EncodeUnsigned16;
    assert nets[i..][0] == nets[i] && nets[i..][1..] == nets[i + 1..];
  }

  lemma NoEntries(nets: seq<Net>, i: nat)
    requires i == |nets|
    ensures AckEntries(nets[i..], i + 1) == []
  {
  }
}
