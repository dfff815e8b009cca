/** The handlers of apps/router-ipv6 as code over the linked table and the
    shared transmit buffer, each proved against Ipv6Router. */
module Ipv6RouterProcess {
  import opened Octets
  import opened RoutingTable
  import opened NetworkMessages
  import opened Npdu
  import opened Ipv6Router
  import LinkedTable

  /** Version, control octet, DNET, DLEN, hop count and message type. */
  const NETWORK_HEADER: nat := 7

  /** The table fits in one message; the C code does not check. */
  ghost predicate Room(t: Table, capacity: nat) {
    && NETWORK_HEADER + 2 <= capacity && NETWORK_HEADER + 1 + 4 * |t| <= capacity
    && forall snet: Net :: NETWORK_HEADER + 2 * |Reachable(t, snet)| <= capacity
  }

  lemma AddingTwiceIsAddingOnce(t: Table, snet: Net, net: Net, mac: Mac)
    ensures var t' := DnetAdd(t, snet, net, mac); DnetAdd(t', snet, net, mac) == t'
  {
    var t' := DnetAdd(t, snet, net, mac);
    if t' != t {
      var p := Search(t, snet).port;
      SearchFinds(t', 0, net);
      assert IsSlot(t', p, |t[p].learned| + 1) && NetAt(t', p, |t[p].learned| + 1) == net;
    }
  }

  class Router {
    const table: LinkedTable.Table
    const tx: array<byte>      // Tx_Buffer
    var sends: seq<Send>       // calls of datalink_send_pdu so far

    ghost predicate Valid()
      reads this, table, table.Repr
    {
      table.Valid() && tx !in table.Repr && this !in table.Repr
    }

    constructor (mpdu: nat)
      ensures Valid() && fresh(table) && fresh(table.Repr) && fresh(tx)
      ensures table.View() == [] && tx.Length == mpdu && sends == []
    {
      table := new LinkedTable.Table();
      tx := new byte[mpdu](_ => 0);
      sends := [];
    }

    method SendIAmRouterToNetwork(snet: Net, net: Net)
      requires Valid() && Room(table.View(), tx.Length)
      modifies this, tx
      ensures Valid() && table.View() == old(table.View())
      ensures sends == old(sends) + [SendIAm(table.View(), snet, net)]
    {
      var pduLen := NETWORK_HEADER;
      if net != 0 {
        tx[pduLen], tx[pduLen + 1] := net / 256, net % 256;
        pduLen := pduLen + 2;
        assert tx[NETWORK_HEADER..pduLen] == EncodeUnsigned16(net);
      } else {
        pduLen := table.EncodeReachable(tx, pduLen, snet);
      }
      sends := sends + [Announce(snet, I_AM_ROUTER, tx[NETWORK_HEADER..pduLen])];
    }

    method SendInitializeRoutingTableAck(snet: Net)
      requires Valid() && NETWORK_HEADER + 1 + 4 * |table.View()| <= tx.Length
      modifies this, tx
      ensures Valid() && table.View() == old(table.View())
      ensures sends == old(sends) + [SendAck(table.View(), snet)]
    {
      var port: Net := snet % 256; // the parameter is a uint8_t
      var pduLen := table.EncodeAck(tx, NETWORK_HEADER);
      sends := sends + [Announce(port, INIT_RT_TABLE_ACK, tx[NETWORK_HEADER..pduLen])];
    }

    /** datalink_send_pdu on every port but the one of `snet`. */
    method SendOnOtherPorts(snet: Net, mac: Mac, frame: Frame)
      requires Valid()
      modifies this`sends
      ensures Valid() && table.View() == old(table.View())
      ensures sends == old(sends) + OnOtherPorts(table.View(), snet, mac, frame)
    {
      hide table.Valid, table.View;
      var port := table.head;
      ghost var i, t := 0, table.View();
      assert t[0..] == t;
      table.PortAt(0);
      while port != null
        invariant Valid() && table.View() == t
        invariant 0 <= i <= |table.ports| && port == LinkedTable.At(table.ports, i)
        invariant sends + OnOtherPorts(t[i..], snet, mac, frame) == old(sends) + OnOtherPorts(t, snet, mac, frame)
        decreases |table.ports| - i
      {
        table.PortAt(i);
        assert t[i..][0] == t[i] && t[i..][1..] == t[i + 1..];
        if port.net != snet {
          sends := sends + [Send(port.net, mac, frame)];
        }
        port := port.next;
        i := i + 1;
      }
    }

    method WhoIsRouterToNetworkHandler(snet: Net, npdu: seq<byte>)
      requires Valid() && Room(table.View(), tx.Length)
      modifies this, tx
      ensures Valid() && table.View() == old(table.View())
      ensures sends == old(sends) + WhoIsRouter(table.View(), snet, npdu).sends
    {
      if |npdu| >= 2 {
        var network := DecodeUnsigned16(npdu[0], npdu[1]);
        var port, _ := table.DnetFind(network);
        if port != null {
          if port.net != snet {
            SendIAmRouterToNetwork(snet, network);
          }
        } else {
          var query := Announce(snet, WHO_IS_ROUTER, if network != 0 then EncodeUnsigned16(network) else []);
          SendOnOtherPorts(snet, [], query.frame);
        }
      } else {
        SendIAmRouterToNetwork(snet, 0);
      }
    }

    /** The loop over the networks of an I-Am-Router-To-Network message. */
    method LearnNetworks(snet: Net, mac: Mac, npdu: seq<byte>) returns (ok: bool)
      requires Valid()
      modifies table.Repr
      ensures Valid() && fresh(table.Repr - old(table.Repr))
      ensures Pending(old(table.View()), snet, npdu, 0, mac) == if ok then Some(table.View()) else None
    {
      hide DnetAddAll, table.Valid, table.View, DecodeUnsigned16;
      var offset: nat, len: nat := 0, |npdu|;
      while len != 0
        invariant Valid() && fresh(table.Repr - old(table.Repr))
        invariant offset + len == |npdu|
        invariant Pending(table.View(), snet, npdu, offset, mac) == Pending(old(table.View()), snet, npdu, 0, mac)
        decreases len
      {
        if len == 1 {
          return false; // reads past the message and wraps the length
        }
        LearnNext(snet, mac, npdu, offset);
        offset, len := offset + 2, len - 2;
      }
      PendingEnds(table.View(), snet, npdu, mac);
      ok := true;
    }

    static lemma PendingEnds(t: Table, snet: Net, npdu: seq<byte>, mac: Mac)
      ensures Pending(t, snet, npdu, |npdu|, mac) == Some(t)
      ensures Pending(t, snet, npdu, 0, mac)
           == if |npdu| % 2 == 1 then None else Some(DnetAddAll(t, snet, DecodeNets(npdu), mac))
    {
      assert npdu[0..] == npdu;
    }

    method LearnNext(snet: Net, mac: Mac, npdu: seq<byte>, offset: nat)
      requires Valid() && offset + 2 <= |npdu|
      modifies table.Repr
      ensures Valid() && fresh(table.Repr - old(table.Repr))
      ensures Pending(table.View(), snet, npdu, offset + 2, mac) == Pending(old(table.View()), snet, npdu, offset, mac)
    {
      NextNetwork(table.View(), snet, npdu, offset, mac);
      table.DnetAdd(snet, DecodeUnsigned16(npdu[offset], npdu[offset + 1]), mac);
    }

    /** The table once the networks from `offset` on have been learned. */
    static ghost function Pending(t: Table, snet: Net, npdu: seq<byte>, offset: nat, mac: Mac): Option<Table>
      requires offset <= |npdu|
    {
      if (|npdu| - offset) % 2 == 1 then None else Some(DnetAddAll(t, snet, DecodeNets(npdu[offset..]), mac))
    }

    static lemma NextNetwork(t: Table, snet: Net, npdu: seq<byte>, offset: nat, mac: Mac)
      requires offset + 2 <= |npdu|
      ensures Pending(DnetAdd(t, snet, DecodeUnsigned16(npdu[offset], npdu[offset + 1]), mac), snet, npdu, offset + 2, mac)
           == Pending(t, snet, npdu, offset, mac)
    {
      assert npdu[offset..][2..] == npdu[offset + 2..];
    }

    /** The loop over the list of an Initialize-Routing-Table message. */
    method LearnRoutingTable(snet: Net, mac: Mac, npdu: seq<byte>)
      requires Valid() && |npdu| >= 5 && npdu[0] != 0
      modifies table.Repr
      ensures Valid() && fresh(table.Repr - old(table.Repr))
      ensures table.View() == DnetAdd(old(table.View()), snet, DecodeUnsigned16(npdu[1], npdu[2]), mac)
    {
      hide DnetAdd, table.Valid, table.View, DecodeUnsigned16;
      var netCount := npdu[0];
      ghost var t := old(table.View());
      ghost var dnet := DecodeUnsigned16(npdu[1], npdu[2]);
      while netCount > 0
        invariant Valid() && fresh(table.Repr - old(table.Repr))
        invariant table.View() == if netCount == npdu[0] then t else DnetAdd(t, snet, dnet, mac)
      {
        var i := 1;
        table.DnetAdd(snet, DecodeUnsigned16(npdu[i], npdu[i + 1]), mac);
        AddingTwiceIsAddingOnce(t, snet, dnet, mac);
        // i moves to the next entry here, and back to 1 on the next pass
        netCount := netCount - 1;
      }
    }

    method NetworkControlHandler(snet: Net, mac: Mac, f: Frame) returns (ok: bool)
      requires Valid() && Room(table.View(), tx.Length) && f.body.Control?
      modifies this, tx, table.Repr
      ensures Valid() && fresh(table.Repr - old(table.Repr))
      ensures var result := ControlMessage(old(table.View()), snet, mac, f);
        ok == result.Done? && (ok ==> table.View() == result.table && sends == old(sends) + result.sends)
    {
      ok := true;
      var Control(messageType, npdu) := f.body;
      if messageType == WHO_IS_ROUTER {
        WhoIsRouterToNetworkHandler(snet, npdu);
      } else if messageType == I_AM_ROUTER {
        PendingEnds(table.View(), snet, npdu, mac);
        ok := LearnNetworks(snet, mac, npdu);
      } else if messageType == INIT_RT_TABLE {
        if |npdu| > 0 {
          if npdu[0] == 0 {
            SendInitializeRoutingTableAck(snet);
          } else if |npdu| < 5 {
            ok := false;
          } else {
            LearnRoutingTable(snet, mac, npdu);
            SendInitializeRoutingTableAck(snet);
          }
        }
      } else if messageType > LAST_KNOWN_MESSAGE {
        var reject := Control(REJECT_MESSAGE, [REJECT_UNKNOWN_MESSAGE_TYPE]);
        sends := sends + [Send(snet, mac, Encode(f.srcNet, f.srcAdr, 0, [], HOP_COUNT_DEFAULT, reject))];
      }
    }

    /** routed_src_address: learns the router an already routed frame came from
        and says which source the relayed frame carries. */
    method RoutedSrcAddress(snet: Net, mac: Mac, f: Frame) returns (net: Net, adr: Mac)
      requires Valid() && IsPort(table.View(), snet)
      modifies table.Repr
      ensures Valid() && fresh(table.Repr - old(table.Repr))
      ensures table.View() == Learned(old(table.View()), snet, mac, f)
      ensures (net, adr) == if f.srcNet != 0 then (f.srcNet, f.srcAdr) else (snet, mac)
    {
      net, adr := snet, mac;
      var own := table.PortFind(snet);
      assert own.Some? by {
        var i :| 0 <= i < |PortNets(table.View())| && PortNets(table.View())[i] == snet;
        assert table.View()[i].net == snet;
      }
      if own.Some? && f.srcNet != 0 {
        table.DnetAdd(snet, f.srcNet, mac);
        net, adr := f.srcNet, f.srcAdr;
      }
    }

    /** Cases 1 and 2 of the handler: DNET is on the port, or behind a router. */
    method RelayThroughPort(snet: Net, mac: Mac, f: Frame, left: Dest, portNet: Net, remote: Option<Mac>)
      requires Valid() && IsPort(table.View(), snet) && (portNet != f.destNet ==> remote.Some?)
      modifies this`sends, table.Repr
      ensures Valid() && fresh(table.Repr - old(table.Repr))
      ensures table.View() == Learned(old(table.View()), snet, mac, f)
      ensures sends == old(sends) + [if portNet == f.destNet then Send(portNet, f.destAdr, Relayed(f, snet, mac, NO_DEST))
                                     else Send(portNet, remote.value, Relayed(f, snet, mac, left))]
    {
      hide table.Valid, table.View, DnetAdd;
      var hopCount := (f.hopCount - 1) % 256;
      var net, adr := RoutedSrcAddress(snet, mac, f);
      if portNet == f.destNet {
        sends := sends + [Send(portNet, f.destAdr, Encode(0, [], net, adr, hopCount, f.body))];
      } else {
        sends := sends + [Send(portNet, remote.value, Encode(left.net, left.adr, net, adr, hopCount, f.body))];
      }
    }

    /** `left` is what the stack holds where remote_dest is put. */
    method RoutedApduHandler(snet: Net, mac: Mac, f: Frame, left: Dest) returns (ok: bool)
      requires Valid() && IsPort(table.View(), snet)
      modifies this`sends, table.Repr
      ensures Valid() && fresh(table.Repr - old(table.Repr))
      ensures var result := RouteApdu(old(table.View()), snet, mac, f, left);
        ok == result.Done? && (ok ==> table.View() == result.table && sends == old(sends) + result.sends)
    {
      hide DnetAdd, SearchFrom, table.Valid, table.View;
      ok := true;
      if f.destNet == BROADCAST_NETWORK {
        var net, adr := RoutedSrcAddress(snet, mac, f);
        SendOnOtherPorts(snet, [], Encode(BROADCAST_NETWORK, [], net, adr, (f.hopCount - 1) % 256, f.body));
        return;
      }
      var port, remote := table.DnetFind(f.destNet);
      if port != null {
        table.PortAt(Search(table.View(), f.destNet).port);
        RelayThroughPort(snet, mac, f, left, port.net, remote);
      } else if f.destNet != 0 {
        ok := false; // port->net with a null port
      }
    }

    method NpduHandler(snet: Net, mac: Mac, packet: Packet, left: Dest) returns (ok: bool)
      requires Valid() && Room(table.View(), tx.Length) && IsPort(table.View(), snet)
      modifies this, tx, table.Repr
      ensures Valid() && fresh(table.Repr - old(table.Repr))
      ensures var result := Handle(old(table.View()), snet, mac, packet, left);
        ok == result.Done? && (ok ==> table.View() == result.table && sends == old(sends) + result.sends)
    {
      ok := true;
      if packet.Undecodable? {
        return;
      }
      var f := packet.frame;
      if f.body.Control? {
        if IsLocal(f) {
          if packet.Cut? && ReadsPayload(f.body.messageType) {
            ok := false; // the length of the payload wraps
          } else {
            ok := NetworkControlHandler(snet, mac, f);
          }
        }
      } else if packet.Npdu? && (IsLocal(f) || f.hopCount > 1) {
        if f.destNet == BROADCAST_NETWORK && f.body.octets == [] {
          ok := false; // the octet behind the message decides
        } else if !(f.destNet == BROADCAST_NETWORK && IsConfirmedRequest(f.body.octets)) {
          ok := RoutedApduHandler(snet, mac, f, left);
        }
      }
    }
  }
}
