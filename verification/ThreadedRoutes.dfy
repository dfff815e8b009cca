/** The threaded router from the network messages it has received alone: its
    routes, its replies, and where its APDUs go.  Nothing here goes through the
    functions of PortThread, NetworkLayer and ThreadedRelay that learn and encode. */
module ThreadedRoutes {
  import opened Octets
  import opened RoutingTable
  import opened NetworkMessages
  import opened Npdu
  import opened PortThread
  import opened NetworkLayer
  import TR = ThreadedRelay

  /** The networks a message names: the list of an I-Am-Router-To-Network (an odd
      octet at its end is no network), the first entry of a routing table. */
  function Names(m: Message): seq<Net> {
    if m.kind == 1 then Listed(m.payload)
    else if (m.kind == 6 || m.kind == 7) && |m.payload| >= 5 && m.payload[0] > 0
    then [Number(m.payload[1], m.payload[2])]
    else []
  }

  /** The first router on port `p` to name the network. */
  function FirstToName(ms: seq<Message>, p: nat, net: Net): Option<Mac> {
    if ms == [] then None
    else if ms[0].port == p && net in Names(ms[0]) then Some(ms[0].mac)
    else FirstToName(ms[1..], p, net)
  }

  /** The first port from the i-th on that is on the network or was told of it. */
  function WayFrom(ports: seq<Net>, ms: seq<Message>, net: Net, i: nat): Option<(nat, Hop)>
    requires i <= |ports|
    decreases |ports| - i
  {
    if i == |ports| then None
    else if ports[i] == net then Some((i, OnPort(net)))
    else
      match FirstToName(ms, i, net)
      case Some(mac) => Some((i, NextRouter(ports[i], mac)))
      case None => WayFrom(ports, ms, net, i + 1)
  }

  function Way(ports: seq<Net>, ms: seq<Message>, net: Net): Option<(nat, Hop)> {
    WayFrom(ports, ms, net, 0)
  }

  // ---- What is heard is what was named ----

  lemma {:induction false} FirstInTwo(a: seq<Heard>, b: seq<Heard>, p: nat, net: Net)
    ensures FirstTold(a + b, p, net) == if FirstTold(a, p, net).Some? then FirstTold(a, p, net) else FirstTold(b, p, net)
  {
    if a == [] {
      assert a + b == b;
    } else {
      assert (a + b)[1..] == a[1..] + b;
      FirstInTwo(a[1..], b, p, net);
    }
  }

  lemma {:induction false} FirstOfMessage(heard: seq<Heard>, port: nat, mac: Mac, p: nat, net: Net)
    requires forall h <- heard :: h.port == port && h.mac == mac
    ensures FirstTold(heard, p, net)
         == if port == p && exists h <- heard :: h.net == net then Some(mac) else None
  {
    if heard == [] {
    } else {
      assert forall h :: h in heard <==> h == heard[0] || h in heard[1..];
      FirstOfMessage(heard[1..], port, mac, p, net);
    }
  }

  lemma HeardIsNamed(m: Message, p: nat, net: Net)
    requires Readable(m.kind, m.payload)
    ensures FirstTold(HeardIn(m), p, net) == if m.port == p && net in Names(m) then Some(m.mac) else None
  {
    hide FirstTold, DecodeNets;
    var heard := HeardIn(m);
    FirstOfMessage(heard, m.port, m.mac, p, net);
    if m.kind == 1 {
      var nets := DecodeNets(Even(m.payload));
      ListedIsDecoded(Even(m.payload));
      assert nets == Listed(m.payload);
      SameNets(m.port, m.mac, nets, net);
    } else if |heard| > 0 {
      assert m.kind == INIT_RT_TABLE || m.kind == INIT_RT_TABLE_ACK;
      assert |heard| == m.payload[0];
      assert heard[0] == Heard(m.port, DecodeUnsigned16(m.payload[1], m.payload[2]), m.mac);
      assert DecodeUnsigned16(m.payload[1], m.payload[2]) == Number(m.payload[1], m.payload[2]);
    }
  }

  lemma SameNets(port: nat, mac: Mac, nets: seq<Net>, net: Net)
    ensures (exists h <- Told(port, mac, nets) :: h.net == net) <==> net in nets
  {
    if net in nets {
      var k: nat :| k < |nets| && nets[k] == net;
      assert Told(port, mac, nets)[k].net == net;
    }
  }

  lemma {:induction false} FirstToNameAppend(ms: seq<Message>, m: Message, p: nat, net: Net)
    ensures FirstToName(ms + [m], p, net)
         == if FirstToName(ms, p, net).Some? then FirstToName(ms, p, net)
            else if m.port == p && net in Names(m) then Some(m.mac) else None
  {
    if ms == [] {
      assert [m][1..] == [];
    } else {
      assert (ms + [m])[1..] == ms[1..] + [m];
      FirstToNameAppend(ms[1..], m, p, net);
    }
  }

  lemma {:induction false} AllHeardIsNamed(ms: seq<Message>, ports: nat, p: nat, net: Net)
    requires Received(ms, ports)
    ensures FirstTold(AllHeard(ms, ports), p, net) == FirstToName(ms, p, net)
    decreases |ms|
  {
    hide FirstTold, FirstToName, HeardIn, Names;
    if ms == [] {
      NothingNamed(p, net);
    } else {
      var before, m := ms[..|ms| - 1], ms[|ms| - 1];
      AllHeardIsNamed(before, ports, p, net);
      assert ms == before + [m];
      FirstToNameAppend(before, m, p, net);
      FirstInTwo(AllHeard(before, ports), HeardIn(m), p, net);
      HeardIsNamed(m, p, net);
    }
  }

  lemma NothingNamed(p: nat, net: Net)
    ensures FirstTold([], p, net) == None && FirstToName([], p, net) == None
  {}

  lemma {:induction false} SearchIsWay(t: Table, ms: seq<Message>, net: Net, i: nat)
    requires i <= |t|
    requires forall j :: 0 <= j < |t| ==> LearnedMac(t[j].learned, net) == FirstToName(ms, j, net)
    ensures var r := SearchFrom(t, i, net);
      match WayFrom(PortNets(t), ms, net, i)
      case None => r.Missing?
      case Some((p, hop)) => !r.Missing? && r.port == p && HopOf(t, r) == Some(hop)
    decreases |t| - i
  {
    hide RouteIndex, FirstToName;
    if i == |t| {
    } else {
      SearchIsWay(t, ms, net, i + 1);
    }
  }

  /** find_dnet in every run, from the messages received: the first port in the
      list that is on the network, or on which a router named it; there the first
      router to do so; nothing exactly if there is no such port. */
  lemma {:induction false} RoutesOfEveryRun(t: Table, ms: seq<Message>, net: Net)
    requires Fresh(t) && Received(ms, |t|) && net != 0xFFFF
    ensures var t' := TableAfter(t, ms); var r := FindDnet(t', net);
      && PortNets(t') == PortNets(t)
      && match Way(PortNets(t), ms, net)
         case None => r.Missing?
         case Some((p, hop)) => !r.Missing? && r.port == p && HopOf(t', r) == Some(hop)
  {
    hide FirstTold, FirstToName, LearnedMac, WayFrom, HopOf;
    var t', heard := TableAfter(t, ms), AllHeard(ms, |t|);
    RunIsAllHeard(t, ms);
    forall j | 0 <= j < |t| ensures LearnedMac(t'[j].learned, net) == FirstToName(ms, j, net) {
      ListsHoldFirstTold(t, heard, j, net);
      AllHeardIsNamed(ms, |t|, j, net);
    }
    assert PortNets(t') == PortNets(t);
    SearchIsWay(t', ms, net, 0);
  }

  // ---- APDUs ----

  /** The message is the same; a source behind another router is kept, any other
      is the arrival network and the sender there.  A source needs both parts. */
  predicate SameFromSource(sent: Frame, f: Frame, own: Net, mac: Mac) {
    && sent.body == f.body
    && var (net, adr) := if 0 < f.srcNet < 0xFFFF && f.srcNet != own then (f.srcNet, f.srcAdr) else (own, mac);
       if net != 0 && adr != [] then sent.srcNet == net && sent.srcAdr == adr
       else sent.srcNet == 0 && sent.srcAdr == []
  }

  /** As it is delivered: neither DNET nor DADR nor hop count. */
  predicate Undirected(sent: Frame) {
    sent.destNet == 0 && sent.destAdr == [] && sent.hopCount == 0
  }

  /** As it goes on: to the same destination, with the hop count it came with. */
  predicate StillDirected(sent: Frame, f: Frame) {
    sent.destNet == f.destNet && sent.destAdr == f.destAdr && sent.hopCount == f.hopCount
  }

  function AllBut(n: nat, p: nat): seq<nat> {
    if n == 0 then [] else AllBut(n - 1, p) + if n - 1 != p then [n - 1] else []
  }

  function PortsOf(sends: seq<TR.Send>): seq<nat> {
    seq(|sends|, i requires 0 <= i < |sends| => sends[i].port)
  }

  lemma PortsOfBoth(a: seq<TR.Send>, b: seq<TR.Send>)
    ensures PortsOf(a + b) == PortsOf(a) + PortsOf(b)
  {}

  lemma {:induction false} OthersOnce(n: nat, p: nat, adr: Mac, frame: Frame)
    ensures PortsOf(TR.ToOthers(n, p, adr, frame)) == AllBut(n, p)
    ensures forall s <- TR.ToOthers(n, p, adr, frame) :: s.adr == adr && s.frame == frame
  {
    if n == 0 {
    } else {
      OthersOnce(n - 1, p, adr, frame);
      var last := if n - 1 != p then [TR.Send(n - 1, adr, frame)] else [];
      PortsOfBoth(TR.ToOthers(n - 1, p, adr, frame), last);
      assert PortsOf(last) == if n - 1 != p then [n - 1] else [];
      hide PortsOf;
    }
  }

  /** Where an APDU goes in every run: one for a directly connected network goes
      to DADR there, without its destination; one for a network that a router has
      named goes to that router as it is; without a way none is sent; a broadcast
      goes once to every port but the one it came in on. */
  lemma {:induction false} ApduInEveryRun(t: Table, ms: seq<Message>, p: nat, mac: Mac, f: Frame)
    requires Fresh(t) && Received(ms, |t|) && p < |t|
    ensures var sends := TR.SendsOf(TR.Visit(TableAfter(t, ms), p, mac), f); var own := t[p].net;
      && (forall s <- sends :: SameFromSource(s.frame, f, own, mac))
      && if f.destNet == 0xFFFF then
           && PortsOf(sends) == AllBut(|t|, p)
           && forall s <- sends :: s.adr == f.destAdr && StillDirected(s.frame, f)
         else
           match Way(PortNets(t), ms, f.destNet)
           case None => sends == []
           case Some((i, hop)) =>
             && |sends| == 1 && sends[0].port == i
             && match hop
                case OnPort(_) => sends[0].adr == f.destAdr && Undirected(sends[0].frame)
                case NextRouter(_, next) =>
                  && sends[0].adr == next
                  && if f.destNet == 0 then Undirected(sends[0].frame) else StillDirected(sends[0].frame, f)
  {
    hide FirstToName, RouteIndex, TableAfter;
    var t' := TableAfter(t, ms);
    var v := TR.Visit(t', p, mac);
    RoutesOfEveryRun(t, ms, if f.destNet == 0xFFFF then 1 else f.destNet);
    assert PortNets(t')[p] == t[p].net;
    if f.destNet == 0xFFFF {
      OthersOnce(|t|, p, f.destAdr, TR.Routed(v, f, 0));
    } else {
      FoundIsSent(v, f);
    }
  }

  lemma FoundIsSent(v: TR.Visit, f: Frame)
    requires TR.IsVisit(v) && f.destNet != 0xFFFF
    ensures var sends := TR.SendsOf(v, f); var r := FindDnet(v.table, f.destNet);
      && (forall s <- sends :: SameFromSource(s.frame, f, v.table[v.port].net, v.mac))
      && match HopOf(v.table, r)
         case None => sends == []
         case Some(hop) =>
           && |sends| == 1 && !r.Missing? && sends[0].port == r.port
           && match hop
              case OnPort(_) => sends[0].adr == f.destAdr && Undirected(sends[0].frame)
              case NextRouter(_, next) =>
                && sends[0].adr == next
                && if f.destNet == 0 then Undirected(sends[0].frame) else StillDirected(sends[0].frame, f)
  {}

  // ---- Replies ----

  /** What is answered in every run: a Who-Is-Router-To-Network for all with a
      list, one for a network by where that network is, Initialize-Routing-Table
      with all ports or, if it brought entries, with an empty table,
      What-Is-Network-Number with an empty message, and nothing else. */
  lemma {:induction false} ReplyInEveryRun(t: Table, ms: seq<Message>, m: Message, net: Net)
    requires Fresh(t) && Received(ms, |t|) && m.port < |t| && Readable(m.kind, m.payload)
    ensures var reply := ReplyTo(TableAfter(t, ms), m); var ports, own := PortNets(t), t[m.port].net;
      if m.kind == 0 && m.payload == [] then
        && reply.Reply? && reply.kind == 1 && |reply.payload| % 2 == 0
        && (net in Listed(reply.payload)
            <==> (net in ports && net != own) || exists j :: 0 <= j < |t| && FirstToName(ms, j, net).Some?)
      else if m.kind == 0 then
        var asked := Number(m.payload[0], m.payload[1]);
        reply == if asked == own then Discarded
                 else if asked == 0xFFFF || Way(ports, ms, asked).Some? then Reply(1, m.payload[..2])
                 else SearchFor(asked)
      else if m.kind == 6 then reply == Reply(7, if m.payload[0] > 0 then [0] else AckPayload(ports))
      else if m.kind == 0x12 then reply == Reply(0x13, [])
      else reply == Nothing
  {
    hide FirstToName, TableAfter, SearchFrom, Listed, AckPayload, DecodeNets;
    var t' := TableAfter(t, ms);
    RoutesOfEveryRun(t, ms, 1);
    assert PortNets(t')[m.port] == t[m.port].net;
    if m.kind == 0 {
      if m.payload == [] {
        ListInEveryRun(t, ms, m.port, net);
      } else {
        var asked := Number(m.payload[0], m.payload[1]);
        RoutesOfEveryRun(t, ms, if asked == 0xFFFF then 1 else asked);
        assert m.payload[..2] == EncodeUnsigned16(asked);
      }
    }
  }

  lemma {:induction false} ListInEveryRun(t: Table, ms: seq<Message>, p: nat, net: Net)
    requires Fresh(t) && Received(ms, |t|) && p < |t|
    ensures var payload := EncodeNets(Advertised(TableAfter(t, ms), t[p].net));
      && |payload| % 2 == 0
      && (net in Listed(payload)
          <==> (net in PortNets(t) && net != t[p].net) || exists j :: 0 <= j < |t| && FirstToName(ms, j, net).Some?)
  {
    hide FirstToName, FirstTold, TableAfter, Advertised, AllHeard;
    var t', heard := TableAfter(t, ms), AllHeard(ms, |t|);
    var list := Advertised(t', t[p].net);
    NetsRoundTrip(list);
    ListedIsDecoded(EncodeNets(list));
    AdvertisedMeansListed(t', t[p].net, net);
    RunIsAllHeard(t, ms);
    forall j | 0 <= j < |t| ensures LearnedMac(t'[j].learned, net) == FirstToName(ms, j, net) {
      ListsHoldFirstTold(t, heard, j, net);
      AllHeardIsNamed(ms, |t|, j, net);
    }
    SlotsAreWays(t, t', ms, t[p].net, net);
  }

  lemma SlotsAreWays(t: Table, t': Table, ms: seq<Message>, own: Net, net: Net)
    requires |t'| == |t| && forall i :: 0 <= i < |t| ==> t'[i].net == t[i].net
    requires forall j :: 0 <= j < |t| ==> LearnedMac(t'[j].learned, net) == FirstToName(ms, j, net)
    ensures (exists i: nat, k: nat :: IsSlot(t', i, k) && NetAt(t', i, k) == net && !(k == 0 && net == own))
      <==> (net in PortNets(t) && net != own) || exists j :: 0 <= j < |t| && FirstToName(ms, j, net).Some?
  {
    hide FirstToName, LearnedMac;
    if i: nat, k: nat :| IsSlot(t', i, k) && NetAt(t', i, k) == net && !(k == 0 && net == own) {
      if k == 0 {
        assert PortNets(t)[i] == net;
      } else {
        SlotIsLearned(t', i, k, net);
        assert FirstToName(ms, i, net).Some?;
      }
    }
    if net in PortNets(t) && net != own {
      var i: nat :| i < |t| && PortNets(t)[i] == net;
      assert IsSlot(t', i, 0) && NetAt(t', i, 0) == net;
    }
    if j :| 0 <= j < |t| && FirstToName(ms, j, net).Some? {
      var k := LearnedIsSlot(t', j, net);
      assert IsSlot(t', j, k) && NetAt(t', j, k) == net && k != 0;
    }
  }

  lemma SlotIsLearned(t: Table, i: nat, k: nat, net: Net)
    requires k > 0 && IsSlot(t, i, k) && NetAt(t, i, k) == net
    ensures LearnedMac(t[i].learned, net).Some?
  {
    assert t[i].learned[k - 1].net == net;
  }

  lemma LearnedIsSlot(t: Table, i: nat, net: Net) returns (k: nat)
    requires i < |t| && LearnedMac(t[i].learned, net).Some?
    ensures k > 0 && IsSlot(t, i, k) && NetAt(t, i, k) == net
  {
    k := RouteIndex(t[i].learned, net) + 1;
  }
}
