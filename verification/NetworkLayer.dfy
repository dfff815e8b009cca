/** Network layer messages of the threaded router (network_layer.c): what a
    message teaches, what is answered, and both over whole runs. */
module NetworkLayer {
  import opened Octets
  import opened RoutingTable
  import opened NetworkMessages
  import opened PortThread

  const WHO_IS_ROUTER_TO_NETWORK: byte := 0x00
  const I_AM_ROUTER_TO_NETWORK: byte := 0x01
  const REJECT_MESSAGE_TO_NETWORK: byte := 0x03
  const INIT_RT_TABLE: byte := 0x06
  const INIT_RT_TABLE_ACK: byte := 0x07
  const WHAT_IS_NETWORK_NUMBER: byte := 0x12
  const NETWORK_NUMBER_IS: byte := 0x13

  /** A network message received on a port from a data link address. */
  datatype Message = Message(port: nat, mac: Mac, kind: byte, payload: seq<byte>)

  /** Discarded is -2 in the code, SearchFor is -1 and Nothing is 0. */
  datatype Reply = Discarded | SearchFor(net: Net) | Nothing | Reply(kind: byte, payload: seq<byte>)

  /** Shorter payloads would be read past their end. */
  predicate Readable(kind: byte, payload: seq<byte>) {
    && (kind == WHO_IS_ROUTER_TO_NETWORK ==> |payload| != 1)
    && (kind == REJECT_MESSAGE_TO_NETWORK ==> payload != [])
    && (kind == INIT_RT_TABLE || kind == INIT_RT_TABLE_ACK ==> payload != [] && (payload[0] > 0 ==> |payload| >= 5))
  }

  function Told(port: nat, mac: Mac, nets: seq<Net>): seq<Heard> {
    seq(|nets|, i requires 0 <= i < |nets| => Heard(port, nets[i], mac))
  }

  /** An odd octet at the end is not read. */
  function Even(payload: seq<byte>): (r: seq<byte>)
    ensures |r| % 2 == 0
  {
    payload[..|payload| - |payload| % 2]
  }

  lemma {:induction false} DecodeNetsAt(p: seq<byte>, i: nat)
    requires |p| % 2 == 0
    ensures |DecodeNets(p)| == |p| / 2
    ensures i < |p| / 2 ==> DecodeNets(p)[i] == DecodeUnsigned16(p[2 * i], p[2 * i + 1])
  {
    if p == [] {
    } else {
      DecodeNetsAt(p[2..], if i > 0 then i - 1 else 0);
    }
  }

  /** What a message teaches.  Initialize-Routing-Table messages are read at
      their first entry once for each entry they count. */
  function HeardIn(m: Message): seq<Heard>
    requires Readable(m.kind, m.payload)
  {
    if m.kind == I_AM_ROUTER_TO_NETWORK then Told(m.port, m.mac, DecodeNets(Even(m.payload)))
    else if m.kind == INIT_RT_TABLE || m.kind == INIT_RT_TABLE_ACK then
      seq(m.payload[0], i requires 0 <= i < m.payload[0] =>
        Heard(m.port, DecodeUnsigned16(m.payload[1], m.payload[2]), m.mac))
    else []
  }

  /** What a full I-Am-Router-To-Network names: every network but `snet`. */
  function Advertised(t: Table, snet: Net): seq<Net> {
    if t == [] then [] else AdvertisedBy(t[0], snet) + Advertised(t[1..], snet)
  }

  function AdvertisedBy(port: Port, snet: Net): seq<Net> {
    (if port.net != snet then [port.net] else []) + NetsOf(port.learned)
  }

  function WhoIsReply(t: Table, p: nat, payload: seq<byte>): Reply
    requires p < |t| && |payload| != 1
  {
    if payload == [] then Reply(I_AM_ROUTER_TO_NETWORK, EncodeNets(Advertised(t, t[p].net)))
    else
      var net := DecodeUnsigned16(payload[0], payload[1]);
      if t[p].net == net then Discarded
      else if FindDnet(t, net).Missing? then SearchFor(net)
      else Reply(I_AM_ROUTER_TO_NETWORK, EncodeUnsigned16(net))
  }

  function ReplyTo(t: Table, m: Message): Reply
    requires m.port < |t| && Readable(m.kind, m.payload)
  {
    if m.kind == WHO_IS_ROUTER_TO_NETWORK then WhoIsReply(t, m.port, m.payload)
    else if m.kind == INIT_RT_TABLE then
      Reply(INIT_RT_TABLE_ACK, if m.payload[0] > 0 then [0] else AckPayload(PortNets(t)))
    else if m.kind == WHAT_IS_NETWORK_NUMBER then Reply(NETWORK_NUMBER_IS, [])
    else Nothing
  }

  // ---- Whole runs ----

  ghost predicate Received(ms: seq<Message>, ports: nat) {
    forall m <- ms :: m.port < ports && Readable(m.kind, m.payload)
  }

  function TableAfter(t: Table, ms: seq<Message>): (t': Table)
    requires Received(ms, |t|)
    ensures |t'| == |t|
  {
    if ms == [] then t
    else
      var before := TableAfter(t, ms[..|ms| - 1]);
      After(before, HeardIn(ms[|ms| - 1]))
  }

  function AllHeard(ms: seq<Message>, ports: nat): (heard: seq<Heard>)
    requires Received(ms, ports)
    ensures OnPorts(heard, ports)
  {
    if ms == [] then [] else AllHeard(ms[..|ms| - 1], ports) + HeardIn(ms[|ms| - 1])
  }

  lemma {:induction false} AfterAppend(t: Table, a: seq<Heard>, b: seq<Heard>)
    requires OnPorts(a, |t|) && OnPorts(b, |t|)
    ensures OnPorts(a + b, |t|) && After(After(t, a), b) == After(t, a + b)
    decreases |b|
  {
    if b == [] {
      assert a + b == a;
    } else {
      AfterAppend(t, a, b[..|b| - 1]);
      assert (a + b)[..|a + b| - 1] == a + b[..|b| - 1];
    }
  }

  lemma {:induction false} RunIsAllHeard(t: Table, ms: seq<Message>)
    requires Received(ms, |t|)
    ensures TableAfter(t, ms) == After(t, AllHeard(ms, |t|))
    decreases |ms|
  {
    if ms == [] {
    } else {
      RunIsAllHeard(t, ms[..|ms| - 1]);
      AfterAppend(t, AllHeard(ms[..|ms| - 1], |t|), HeardIn(ms[|ms| - 1]));
    }
  }

  ghost predicate KnowsOf(t: Table, heard: seq<Heard>, net: Net) {
    exists i :: 0 <= i < |t| && (t[i].net == net || FirstTold(heard, i, net).Some?)
  }

  /** In every run, a Who-Is-Router-To-Network for one network is dropped if the
      network is the one it came from, answered if the router is on the network
      or was ever told of it, and made into a search otherwise. */
  lemma {:induction false} WhoIsInEveryRun(t: Table, ms: seq<Message>, p: nat, net: Net)
    requires Fresh(t) && Received(ms, |t|) && p < |t| && net != BROADCAST_NETWORK
    ensures var reply := WhoIsReply(TableAfter(t, ms), p, EncodeUnsigned16(net));
      && (reply == Discarded <==> t[p].net == net)
      && (reply == Reply(I_AM_ROUTER_TO_NETWORK, EncodeUnsigned16(net))
          <==> t[p].net != net && KnowsOf(t, AllHeard(ms, |t|), net))
      && (reply == SearchFor(net) <==> !KnowsOf(t, AllHeard(ms, |t|), net))
  {
    RunIsAllHeard(t, ms);
    var heard := AllHeard(ms, |t|);
    FindInEveryRun(t, heard, net);
    var r := FindDnet(After(t, heard), net);
    if !r.Missing? {
      assert Answers(t, heard, net, HopOf(After(t, heard), r).value, r.port);
    }
  }

  // ---- One router learning from another ----

  /** Unlike the IPv4/IPv6 router, the full list also names networks that are
      reached through the very port it is sent on. */
  lemma {:induction false} AdvertisedMeansListed(t: Table, snet: Net, net: Net)
    ensures net in Advertised(t, snet)
      <==> exists i: nat, k: nat :: IsSlot(t, i, k) && NetAt(t, i, k) == net && !(k == 0 && net == snet)
  {
    if t == [] {
    } else {
      var rest := t[1..];
      AdvertisedMeansListed(rest, snet, net);
      InNetsOf(t[0].learned, net);
      if i: nat, k: nat :| IsSlot(rest, i, k) && NetAt(rest, i, k) == net && !(k == 0 && net == snet) {
        assert IsSlot(t, i + 1, k) && NetAt(t, i + 1, k) == net;
      }
      if k :| 0 <= k < |t[0].learned| && t[0].learned[k].net == net {
        assert IsSlot(t, 0, k + 1) && NetAt(t, 0, k + 1) == net;
      }
      if t[0].net == net {
        assert IsSlot(t, 0, 0) && NetAt(t, 0, 0) == net;
      }
      if i: nat, k: nat :| IsSlot(t, i, k) && NetAt(t, i, k) == net && !(k == 0 && net == snet) {
        if i > 0 {
          assert IsSlot(rest, i - 1, k) && NetAt(rest, i - 1, k) == net;
        } else if k > 0 {
          assert t[0].learned[k - 1].net == net;
        }
      }
    }
  }

  /** A full I-Am-Router-To-Network teaches exactly the sender's list. */
  lemma AdvertisementTeaches(p: nat, mac: Mac, nets: seq<Net>)
    ensures HeardIn(Message(p, mac, I_AM_ROUTER_TO_NETWORK, EncodeNets(nets))) == Told(p, mac, nets)
  {
    NetsRoundTrip(nets);
    assert Even(EncodeNets(nets)) == EncodeNets(nets);
  }

  lemma {:induction false} ToldAll(b: Table, p: nat, mac: Mac, nets: seq<Net>, net: Net)
    requires p < |b| && net != BROADCAST_NETWORK
    ensures var b' := After(b, Told(p, mac, nets));
      && (FindDnet(b', net).Missing? <==> FindDnet(b, net).Missing? && net !in nets)
      && (FindDnet(b, net).Missing? && net in nets ==> HopOf(b', FindDnet(b', net)) == Some(NextRouter(b[p].net, mac)))
    decreases |nets|
  {
    hide FindDnet, AddDnet, HopOf;
    if nets == [] {
      assert Told(p, mac, nets) == [];
    } else {
      var shorter, last := nets[..|nets| - 1], nets[|nets| - 1];
      ToldAll(b, p, mac, shorter, net);
      assert Told(p, mac, nets)[..|nets| - 1] == Told(p, mac, shorter);
      FindAfterAdd(After(b, Told(p, mac, shorter)), p, last, mac, net);
      assert nets == shorter + [last];
    }
  }

  /** Router B hears router A's whole list on port `p`: afterwards it can reach
      every network A listed, and no other that it could not reach before. */
  lemma {:induction false} NeighbourLearns(b: Table, p: nat, mac: Mac, nets: seq<Net>, net: Net)
    requires p < |b| && net != BROADCAST_NETWORK
    ensures var b' := After(b, HeardIn(Message(p, mac, I_AM_ROUTER_TO_NETWORK, EncodeNets(nets))));
      && (FindDnet(b', net).Missing? <==> FindDnet(b, net).Missing? && net !in nets)
      && (FindDnet(b, net).Missing? && net in nets ==> HopOf(b', FindDnet(b', net)) == Some(NextRouter(b[p].net, mac)))
  {
    AdvertisementTeaches(p, mac, nets);
    ToldAll(b, p, mac, nets, net);
  }
}
