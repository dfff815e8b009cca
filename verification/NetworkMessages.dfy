/** Payloads of the network layer messages both routers build from their
    tables, and the Initialize-Routing-Table-Ack parser of apps/initrouter. */
module NetworkMessages {
  import opened Octets
  import opened RoutingTable

  function NetsOf(routes: seq<Route>): seq<Net> {
    if routes == [] then [] else [routes[0].net] + NetsOf(routes[1..])
  }

  function NetsThrough(port: Port, snet: Net): seq<Net> {
    if port.net != snet then [port.net] + NetsOf(port.learned) else []
  }

  /** The networks an I-Am-Router-To-Network broadcast on `snet` names: those
      not reached through the port of `snet`, in table order. */
  function Reachable(t: Table, snet: Net): seq<Net> {
    if t == [] then [] else NetsThrough(t[0], snet) + Reachable(t[1..], snet)
  }

  lemma {:induction false} InNetsOf(routes: seq<Route>, net: Net)
    ensures net in NetsOf(routes) <==> exists k :: 0 <= k < |routes| && routes[k].net == net
  {
    if routes == [] {
    } else {
      InNetsOf(routes[1..], net);
      assert forall k :: 0 <= k < |routes| - 1 ==> routes[1..][k] == routes[k + 1];
      if k :| 0 <= k < |routes| && routes[k].net == net {
        assert k > 0 ==> routes[1..][k - 1].net == net;
      }
    }
  }

  /** The port a slot belongs to is what decides whether it is named. */
  lemma {:induction false} InReachable(t: Table, snet: Net, net: Net)
    ensures net in Reachable(t, snet) <==> exists i: nat, k: nat :: IsSlot(t, i, k) && NetAt(t, i, k) == net && t[i].net != snet
  {
    if t == [] {
    } else {
      var rest := t[1..];
      InReachable(rest, snet, net);
      InNetsOf(t[0].learned, net);
      if i: nat, k: nat :| IsSlot(rest, i, k) && NetAt(rest, i, k) == net && rest[i].net != snet {
        assert IsSlot(t, i + 1, k) && NetAt(t, i + 1, k) == net;
      }
      if k :| 0 <= k < |t[0].learned| && t[0].learned[k].net == net {
        assert IsSlot(t, 0, k + 1) && NetAt(t, 0, k + 1) == net;
      }
      if t[0].net == net {
        assert IsSlot(t, 0, 0) && NetAt(t, 0, 0) == net;
      }
      if i: nat, k: nat :| IsSlot(t, i, k) && NetAt(t, i, k) == net && t[i].net != snet {
        if i > 0 {
          assert IsSlot(rest, i - 1, k) && NetAt(rest, i - 1, k) == net;
        } else if k > 0 {
          assert t[0].learned[k - 1].net == net;
        }
      }
    }
  }

  /** In terms of routes: exactly the networks reached through another port. */
  lemma ReachableMeansOtherPort(t: Table, snet: Net, net: Net)
    requires NoRepeats(t)
    ensures net in Reachable(t, snet) <==> Resolve(t, net).Some? && Resolve(t, net).value.port != snet
  {
    InReachable(t, snet, net);
    if i: nat, k: nat :| IsSlot(t, i, k) && NetAt(t, i, k) == net && t[i].net != snet {
      ResolveIsLookup(t, net, HopAt(t, i, k));
      assert Maps(t, net, HopAt(t, i, k));
    }
    if Resolve(t, net).Some? && Resolve(t, net).value.port != snet {
      ResolveIsLookup(t, net, Resolve(t, net).value);
      var i: nat, k: nat :| IsSlot(t, i, k) && NetAt(t, i, k) == net && HopAt(t, i, k) == Resolve(t, net).value;
    }
  }

  // ---- Initialize-Routing-Table-Ack (section 6.4.8 of ASHRAE 135) ----

  /** One entry per port: network, positive port id, no port info. */
  function AckEntries(nets: seq<Net>, id: nat): seq<byte> {
    if nets == [] then [] else EncodeUnsigned16(nets[0]) + [id % 256, 0] + AckEntries(nets[1..], id + 1)
  }

  function PortNets(t: Table): seq<Net> {
    seq(|t|, i requires 0 <= i < |t| => t[i].net)
  }

  /** send_initialize_routing_table_ack: the uint8_t count guards the entries. */
  function AckPayload6(nets: seq<Net>): seq<byte> {
    var count: byte := |nets| % 256;
    [count] + if count > 0 then AckEntries(nets, 1) else []
  }

  /** create_network_message: the entries depend on the int port_count. */
  function AckPayload(nets: seq<Net>): seq<byte> {
    [|nets| % 256] + AckEntries(nets, 1)
  }

  /** What the parser shows of one entry; short payloads leave parts out. */
  datatype Mapping = Mapping(dnet: Option<Net>, portId: Option<byte>)
  datatype Parsed = Shown(list: seq<Mapping>) | Hangs(list: seq<Mapping>)

  function ShowDnet(p: seq<byte>): Option<Net> {
    if |p| >= 2 then Some(DecodeUnsigned16(p[0], p[1])) else None
  }

  function AfterDnet(p: seq<byte>): seq<byte> {
    if |p| >= 2 then p[2..] else p
  }

  /** The loop of My_Router_Handler.  A nonzero port info length starts an inner
      loop that never decreases its counter. */
  function ParseEntries(p: seq<byte>): Parsed
    decreases |p|
  {
    if p == [] then Shown([])
    else
      var q := AfterDnet(p);
      var entry := Mapping(ShowDnet(p), if q == [] then None else Some(q[0]));
      if |q| >= 2 && q[1] != 0 then Hangs([entry])
      else
        var rest := ParseEntries(if |q| >= 2 then q[2..] else []);
        rest.(list := [entry] + rest.list)
  }

  datatype Ack = Ack(count: Option<byte>, entries: Parsed)

  function ParseAck(payload: seq<byte>): Ack {
    if payload == [] then Ack(None, Shown([])) else Ack(Some(payload[0]), ParseEntries(payload[1..]))
  }

  /** The parser gets through exactly the payloads without port info. */
  lemma {:induction false} HangsIffPortInfo(p: seq<byte>)
    ensures ParseEntries(p).Hangs? <==> exists k: nat :: 4 * k + 3 < |p| && p[4 * k + 3] != 0
    decreases |p|
  {
    if |p| >= 4 {
      HangsIffPortInfo(p[4..]);
      assert AfterDnet(p)[2..] == p[4..];
      if k: nat :| 4 * k + 3 < |p| && p[4 * k + 3] != 0 {
        assert k > 0 ==> p[4..][4 * (k - 1) + 3] == p[4 * k + 3];
      }
      if k: nat :| 4 * k + 3 < |p[4..]| && p[4..][4 * k + 3] != 0 {
        assert p[4 * (k + 1) + 3] == p[4..][4 * k + 3];
      }
      if p[3] != 0 {
        assert p[4 * 0 + 3] != 0;
      }
    }
  }

  function NumberPorts(nets: seq<Net>, id: nat): seq<Mapping> {
    if nets == [] then [] else [Mapping(Some(nets[0]), Some(id % 256))] + NumberPorts(nets[1..], id + 1)
  }

  lemma {:induction false} EntriesRoundTrip(nets: seq<Net>, id: nat)
    ensures ParseEntries(AckEntries(nets, id)) == Shown(NumberPorts(nets, id))
  {
    if nets == [] {
    } else {
      var p := AckEntries(nets, id);
      EntriesRoundTrip(nets[1..], id + 1);
      assert p[..4] == EncodeUnsigned16(nets[0]) + [id % 256, 0];
      assert AfterDnet(p)[2..] == AckEntries(nets[1..], id + 1);
    }
  }

  lemma {:induction false} NumberPortsAt(nets: seq<Net>, id: nat, k: nat)
    requires k < |nets| && id + |nets| <= 256
    ensures |NumberPorts(nets, id)| == |nets|
    ensures NumberPorts(nets, id)[k] == Mapping(Some(nets[k]), Some(id + k))
  {
    if |nets| > 1 {
      NumberPortsAt(nets[1..], id + 1, if k > 0 then k - 1 else 0);
    }
  }

  /** On the wire: four octets a port, its network (the more significant octet
      first), its number and no port info; the number is an octet that wraps. */
  lemma {:induction false} AckEntryAt(nets: seq<Net>, id: nat, k: nat)
    requires k < |nets|
    ensures |AckEntries(nets, id)| == 4 * |nets|
    ensures AckEntries(nets, id)[4 * k..4 * k + 4] == [nets[k] / 256, nets[k] % 256, (id + k) % 256, 0]
  {
    if |nets| > 1 {
      AckEntryAt(nets[1..], id + 1, if k > 0 then k - 1 else 0);
      if k > 0 {
        assert AckEntries(nets, id)[4..] == AckEntries(nets[1..], id + 1);
      }
    } else {
      assert AckEntries(nets[1..], id + 1) == [];
    }
  }

  /** With a multiple of 256 ports the count reads 0; then one router sends no
      entries, the other one sends them all. */
  lemma AckLengths(nets: seq<Net>)
    ensures |AckPayload6(nets)| == if |nets| % 256 == 0 then 1 else 1 + 4 * |nets|
    ensures |AckPayload(nets)| == 1 + 4 * |nets|
    ensures AckPayload6(nets)[0] == AckPayload(nets)[0] == |nets| % 256
  {
    if nets != [] {
      AckEntryAt(nets, 1, 0);
    } else {
      assert AckEntries(nets, 1) == [];
    }
  }

  /** The payload of either router is parsed to the end, and gives back each
      port's network with ids 1, 2, ... and as many entries as the count says. */
  lemma AckRoundTrip(nets: seq<Net>, k: nat)
    requires |nets| <= 255
    ensures AckPayload6(nets) == AckPayload(nets)
    ensures var ack := ParseAck(AckPayload(nets));
      && ack.count == Some(|nets|)
      && ack.entries.Shown?
      && |ack.entries.list| == |nets|
      && (k < |nets| ==> ack.entries.list[k] == Mapping(Some(nets[k]), Some(k + 1)))
  {
    assert NumberPorts([], 1) == [] && AckEntries([], 1) == [];
    hide AckEntries, ParseEntries, NumberPorts;
    EntriesRoundTrip(nets, 1);
    assert AckPayload(nets)[1..] == AckEntries(nets, 1);
    if nets != [] {
      NumberPortsAt(nets, 1, if k < |nets| then k else 0);
    }
  }

  function Prepend(list: seq<Mapping>, parsed: Parsed): Parsed {
    parsed.(list := list + parsed.list)
  }

  lemma ParseNext(list: seq<Mapping>, p: seq<byte>, q: seq<byte>, next: seq<byte>, entry: Mapping, hangs: bool)
    requires p != [] && q == AfterDnet(p)
    requires entry == Mapping(ShowDnet(p), if q == [] then None else Some(q[0]))
    requires hangs <==> |q| >= 2 && q[1] != 0
    requires next == if |q| >= 2 then q[2..] else []
    ensures Prepend(list, ParseEntries(p)) ==
            if hangs then Hangs(list + [entry]) else Prepend(list + [entry], ParseEntries(next))
  {
    assert list + ([entry] + ParseEntries(next).list) == list + [entry] + ParseEntries(next).list;
  }

  lemma ParseEnds(list: seq<Mapping>, parsed: Parsed)
    ensures Prepend(list, ParseEntries([])) == Shown(list) && Prepend([], parsed) == parsed
  {
  }

  /** My_Router_Handler as it walks the received buffer. */
  method MyRouterHandler(npdu: array<byte>) returns (ack: Ack)
    ensures ack == ParseAck(npdu[..])
  {
    hide DecodeUnsigned16, ParseEntries, Prepend;
    var npduOffset, npduLen := 0, npdu.Length;
    var count: Option<byte> := None;
    var list: seq<Mapping> := [];
    if npduLen >= 1 {
      count := Some(npdu[npduOffset]);
      npduOffset, npduLen := npduOffset + 1, npduLen - 1;
    }
    ghost var body := npdu[npduOffset..];
    assert npdu[..][npduOffset..] == body;
    ParseEnds(list, ParseEntries(body));
    while npduLen > 0
      invariant 0 <= npduOffset <= npdu.Length && npduLen == npdu.Length - npduOffset
      invariant ParseEntries(body) == Prepend(list, ParseEntries(npdu[npduOffset..]))
      decreases npduLen
    {
      ghost var p := npdu[npduOffset..];
      var dnet: Option<Net>, portId: Option<byte>, portInfoLen := None, None, 0;
      if npduLen >= 2 {
        dnet := Some(DecodeUnsigned16(npdu[npduOffset], npdu[npduOffset + 1]));
        npduOffset, npduLen := npduOffset + 2, npduLen - 2;
      }
      assert npdu[npduOffset..] == AfterDnet(p);
      if npduLen >= 1 {
        portId := Some(npdu[npduOffset]);
        npduOffset, npduLen := npduOffset + 1, npduLen - 1;
      }
      if npduLen >= 1 {
        portInfoLen := npdu[npduOffset];
        npduOffset, npduLen := npduOffset + 1, npduLen - 1;
      }
      ParseNext(list, p, AfterDnet(p), npdu[npduOffset..], Mapping(dnet, portId), portInfoLen != 0);
      list := list + [Mapping(dnet, portId)];
      if portInfoLen != 0 {
        return Ack(count, Hangs(list)); // while (port_info_len) never ends
      }
    }
    ParseEnds(list, ParseEntries(body));
    assert npdu[npduOffset..] == [];
    ack := Ack(count, Shown(list));
  }
}
