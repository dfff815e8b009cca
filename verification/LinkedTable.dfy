/** The routing table in memory: a linked list of ports, each with a linked
    list of learned networks, searched and extended in place. */
module LinkedTable {
  import opened Octets
  import opened RoutingTable
  import opened NetworkMessages

  class Node {
    var net: Net
    var mac: Mac
    var enabled: bool
    var dnets: Node?
    var next: Node?
    // Where the node is linked in: port number (-1 for a port itself) and place.
    ghost var list: int
    ghost var place: int

    constructor (net: Net, mac: Mac, ghost list: int, ghost place: int)
      ensures this.net == net && this.mac == mac && enabled && dnets == null && next == null
      ensures this.list == list && this.place == place
    {
      this.net, this.mac, enabled, dnets, next := net, mac, true, null, null;
      this.list, this.place := list, place;
    }
  }

  ghost function At(nodes: seq<Node>, i: nat): Node? {
    if i < |nodes| then nodes[i] else null
  }

  ghost predicate LinkedAt(nodes: seq<Node>, list: int, i: nat)
    requires i < |nodes|
    reads nodes[i]
  {
    nodes[i].next == At(nodes, i + 1) && nodes[i].list == list && nodes[i].place == i
  }

  /** `nodes` are the nodes of the list that starts at `head`, in order.  Every
      node knows its place, so the lists are acyclic and disjoint. */
  ghost predicate Chain(head: Node?, nodes: seq<Node>, list: int)
    reads nodes
  {
    head == At(nodes, 0) && forall i: nat :: i < |nodes| ==> LinkedAt(nodes, list, i)
  }

  ghost function Routes(nodes: seq<Node>): seq<Route>
    reads nodes
  {
    seq(|nodes|, i requires 0 <= i < |nodes| reads nodes => Route(nodes[i].net, nodes[i].mac))
  }

  ghost function PortOf(port: Node, nodes: seq<Node>): Port
    reads port, nodes
  {
    Port(port.net, port.mac, Routes(nodes))
  }

  lemma FirstRoute(routes: seq<Route>, net: Net, k: nat)
    requires k < |routes| && routes[k].net == net
    requires forall l :: 0 <= l < k ==> routes[l].net != net
    ensures RouteIndex(routes, net) == k
  {
    var _ := RouteIndex(routes, net);
  }

  class Table {
    var head: Node?
    ghost var ports: seq<Node>
    ghost var lists: seq<seq<Node>>
    ghost var Repr: set<object>

    ghost predicate Valid()
      reads this, Repr
      ensures Valid() ==> this in Repr
    {
      && this in Repr
      && |lists| == |ports|
      && (forall p <- ports :: p in Repr)
      && (forall i :: 0 <= i < |lists| ==> forall n <- lists[i] :: n in Repr)
      && Chain(head, ports, -1)
      && (forall i :: 0 <= i < |ports| ==> Chain(ports[i].dnets, lists[i], i))
    }

    ghost function View(): (t: RoutingTable.Table)
      reads this, Repr
      requires Valid()
      ensures |t| == |ports|
    {
      seq(|ports|, i requires 0 <= i < |ports| && Valid() reads this, Repr => PortOf(ports[i], lists[i]))
    }

    /** What Valid and View say about the i-th port of the list. */
    lemma PortAt(i: nat)
      requires Valid()
      ensures head == At(ports, 0) && |lists| == |ports|
      ensures i < |ports| ==> ports[i].next == At(ports, i + 1) && Chain(ports[i].dnets, lists[i], i)
      ensures i < |ports| ==> View()[i] == PortOf(ports[i], lists[i])
    {
      assert i < |ports| ==> LinkedAt(ports, -1, i);
    }

    constructor ()
      ensures Valid() && fresh(Repr) && View() == []
    {
      head, ports, lists, Repr := null, [], [], {this};
    }

    /** dnet_find (router-ipv6) and find_dnet below the broadcast test. */
    method DnetFind(net: Net) returns (port: Node?, addr: Option<Mac>)
      requires Valid()
      ensures match Search(View(), net)
              case Missing => port == null
              case Direct(i) => port == ports[i] && addr == None
              case Via(i, k) => port == ports[i] && addr == Some(View()[i].learned[k].mac)
    {
      port, addr := head, None;
      ghost var i := 0;
      while port != null
        invariant 0 <= i <= |ports|
        invariant port == At(ports, i)
        invariant Search(View(), net) == SearchFrom(View(), i, net)
        decreases |ports| - i
      {
        if net == port.net {
          return port, None;
        }
        var dnet := port.dnets;
        ghost var k := 0;
        assert Chain(ports[i].dnets, lists[i], i);
        while dnet != null
          invariant 0 <= k <= |lists[i]|
          invariant dnet == At(lists[i], k)
          invariant forall l :: 0 <= l < k ==> View()[i].learned[l].net != net
          decreases |lists[i]| - k
        {
          if net == dnet.net {
            FirstRoute(View()[i].learned, net, k);
            return port, Some(dnet.mac);
          }
          assert LinkedAt(lists[i], i, k);
          dnet := dnet.next;
          k := k + 1;
        }
        assert LinkedAt(ports, -1, i);
        port := port.next;
        i := i + 1;
      }
    }

    /** port_find: only the directly connected ports are searched. */
    method PortFind(snet: Net) returns (addr: Option<Mac>)
      requires Valid()
      ensures addr.Some? <==> exists i :: 0 <= i < |View()| && View()[i].net == snet
      ensures addr.Some? ==> exists i :: 0 <= i < |View()| && View()[i].net == snet && View()[i].mac == addr.value
    {
      var port := head;
      ghost var i := 0;
      while port != null
        invariant 0 <= i <= |ports|
        invariant port == At(ports, i)
        invariant forall j :: 0 <= j < i ==> View()[j].net != snet
        decreases |ports| - i
      {
        if port.net == snet {
          assert View()[i].net == snet && View()[i].mac == port.mac;
          return Some(port.mac);
        }
        assert LinkedAt(ports, -1, i);
        port := port.next;
        i := i + 1;
      }
      return None;
    }

    /** port_add: walks to the last port and links a new one behind it. */
    method PortAdd(snet: Net, mac: Mac)
      requires Valid()
      modifies Repr
      ensures Valid() && fresh(Repr - old(Repr))
      ensures View() == RoutingTable.PortAdd(old(View()), snet, mac)
    {
      hide SearchFrom, RouteIndex, Routes;
      var port, _ := DnetFind(snet);
      if port == null {
        var node := new Node(snet, mac, -1, |ports|);
        port := head;
        if port == null {
          head := node;
        } else {
          ghost var i := 0;
          while port.next != null
            invariant 0 <= i < |ports| && port == ports[i]
            decreases |ports| - i
          {
            assert LinkedAt(ports, -1, i);
            port := port.next;
            i := i + 1;
          }
          assert LinkedAt(ports, -1, i);
          port.next := node;
        }
        ports, lists, Repr := ports + [node], lists + [[]], Repr + {node};
        PortLinked(node);
      }
    }

    twostate lemma PortLinked(new node: Node)
      requires old(Valid()) && ports == old(ports) + [node] && lists == old(lists) + [[]] && Repr == old(Repr) + {node}
      requires !old(allocated(node)) && node.list == -1 && node.place == |old(ports)|
      requires node.next == null && node.dnets == null
      requires forall n: Node :: old(allocated(n)) ==>
                 n.net == old(n.net) && n.mac == old(n.mac) && n.list == old(n.list) && n.place == old(n.place)
                 && n.dnets == old(n.dnets)
      requires forall n: Node :: old(allocated(n)) && !(n.list == -1 && n.place == |old(ports)| - 1) ==> n.next == old(n.next)
      requires if old(ports) == [] then head == node
               else head == old(head) && old(ports)[|old(ports)| - 1].next == node
      ensures Valid() && View() == old(View()) + [Port(node.net, node.mac, [])]
    {
      forall j: nat | j < |ports| ensures LinkedAt(ports, -1, j) {
        if j < |old(ports)| {
          assert old(LinkedAt(ports, -1, j));
        }
      }
      forall j: nat | j < |old(ports)| ensures Chain(ports[j].dnets, lists[j], j) && Routes(lists[j]) == old(Routes(lists[j])) {
        assert old(LinkedAt(ports, -1, j)) && old(Chain(ports[j].dnets, lists[j], j));
        forall k: nat | k < |lists[j]| ensures LinkedAt(lists[j], j, k) {
          assert old(LinkedAt(lists[j], j, k));
        }
      }
      assert Routes([]) == [];
      forall j: nat | j < |ports| ensures View()[j] == (old(View()) + [Port(node.net, node.mac, [])])[j] {}
    }

    /** The tail of dnet_add and of add_dnet: appends to the list of a port. */
    method Learn(port: Node, ghost i: nat, net: Net, mac: Mac)
      requires Valid() && i < |ports| && port == ports[i]
      modifies Repr
      ensures Valid() && fresh(Repr - old(Repr)) && ports == old(ports)
      ensures View() == Append(old(View()), i, net, mac)
    {
      var node := new Node(net, mac, i, |lists[i]|);
      var dnet := port.dnets;
      assert Chain(ports[i].dnets, lists[i], i);
      if dnet == null {
        port.dnets := node;
      } else {
        ghost var k := 0;
        while dnet.next != null
          invariant 0 <= k < |lists[i]| && dnet == lists[i][k]
          decreases |lists[i]| - k
        {
          assert LinkedAt(lists[i], i, k);
          dnet := dnet.next;
          k := k + 1;
        }
        assert LinkedAt(lists[i], i, k);
        dnet.next := node;
      }
      lists, Repr := lists[i := lists[i] + [node]], Repr + {node};
      Relinked(i, node);
    }

    /** What linking one node behind the i-th list leaves as it was. */
    twostate lemma Relinked(i: nat, new node: Node)
      requires old(Valid()) && i < |ports| && ports == old(ports) && head == old(head)
      requires lists == old(lists)[i := old(lists)[i] + [node]] && Repr == old(Repr) + {node}
      requires !old(allocated(node)) && node.list == i && node.place == |old(lists)[i]| && node.next == null
      requires forall n: Node :: old(allocated(n)) ==>
                 n.net == old(n.net) && n.mac == old(n.mac) && n.list == old(n.list) && n.place == old(n.place)
      requires forall n: Node :: old(allocated(n)) && n != ports[i] ==> n.dnets == old(n.dnets)
      requires forall n: Node :: old(allocated(n)) && !(n.list == i && n.place == |old(lists)[i]| - 1) ==> n.next == old(n.next)
      requires if old(lists)[i] == [] then ports[i].dnets == node
               else ports[i].dnets == old(ports[i].dnets) && old(lists)[i][|old(lists)[i]| - 1].next == node
      ensures Valid() && View() == Append(old(View()), i, node.net, node.mac)
    {
      forall j: nat | j < |ports| ensures LinkedAt(ports, -1, j) {
        assert old(LinkedAt(ports, -1, j));
      }
      forall j: nat | j < |ports| ensures Chain(ports[j].dnets, lists[j], j) {
        assert old(LinkedAt(ports, -1, j)) && old(LinkedAt(ports, -1, i));
        assert old(Chain(ports[j].dnets, lists[j], j));
        forall k: nat | k < |lists[j]| ensures LinkedAt(lists[j], j, k) {
          if k < |old(lists)[j]| {
            assert old(LinkedAt(lists[j], j, k));
          }
        }
      }
      forall j: nat | j < |ports| ensures View()[j] == Append(old(View()), i, node.net, node.mac)[j] {
        if j == i {
          assert Routes(lists[i]) == old(Routes(lists[i])) + [Route(node.net, node.mac)];
        } else {
          assert Routes(lists[j]) == old(Routes(lists[j]));
        }
      }
    }

    /** dnet_add of the IPv4/IPv6 router. */
    method DnetAdd(snet: Net, net: Net, mac: Mac)
      requires Valid()
      modifies Repr
      ensures Valid() && fresh(Repr - old(Repr)) && ports == old(ports)
      ensures View() == RoutingTable.DnetAdd(old(View()), snet, net, mac)
    {
      var known, _ := DnetFind(net);
      if known != null {
        return;
      }
      var port, _ := DnetFind(snet);
      if port == null {
        return;
      }
      Learn(port, Search(View(), snet).port, net, mac);
    }

    /** Writes the payload of an I-Am-Router-To-Network broadcast on `snet`
        behind the NPDU header, which fills the buffer up to `pduLen`. */
    method EncodeReachable(tx: array<byte>, pduLen: nat, snet: Net) returns (len: nat)
      requires Valid() && tx !in Repr
      requires pduLen + 2 * |Reachable(View(), snet)| <= tx.Length
      modifies tx
      ensures Valid() && View() == old(View())
      ensures len == pduLen + 2 * |Reachable(View(), snet)|
      ensures tx[..pduLen] == old(tx[..pduLen])
      ensures tx[pduLen..len] == EncodeNets(Reachable(View(), snet))
    {
      len := pduLen;
      var port := head;
      ghost var i, t, done := 0, View(), [];
      ghost var all := Reachable(t, snet);
      assert t[0..] == t && EncodeNets(done) == [] && Chain(head, ports, -1);
      hide EncodeNets, NetsThrough, Reachable, Valid, View, Chain, LinkedAt;
      while port != null
        invariant Valid() && View() == t
        invariant 0 <= i <= |ports| && port == At(ports, i)
        invariant all == done + Reachable(t[i..], snet)
        invariant len == pduLen + 2 * |done|
        invariant tx[..pduLen] == old(tx[..pduLen]) && tx[pduLen..len] == EncodeNets(done)
        decreases |ports| - i
      {
        PortAt(i);
        len := EncodeNext(tx, pduLen, len, port, i, snet, done, all);
        done := done + NetsThrough(t[i], snet);
        port := port.next;
        i := i + 1;
      }
      NothingReachable(t[i..], snet);
      assert all == done;
    }

    /** The port at place `i`, behind the networks `done`. */
    method EncodeNext(tx: array<byte>, pduLen: nat, start: nat, port: Node, ghost i: nat, snet: Net,
                      ghost done: seq<Net>, ghost all: seq<Net>) returns (len: nat)
      requires Valid() && tx !in Repr && i < |ports| && port == ports[i]
      requires all == done + Reachable(View()[i..], snet) && pduLen + 2 * |all| <= tx.Length
      requires start == pduLen + 2 * |done| && tx[pduLen..start] == EncodeNets(done)
      modifies tx
      ensures Valid() && View() == old(View()) && tx[..pduLen] == old(tx[..pduLen])
      ensures var done' := done + NetsThrough(View()[i], snet);
        && all == done' + Reachable(View()[i + 1..], snet)
        && len == pduLen + 2 * |done'| && tx[pduLen..len] == EncodeNets(done')
    {
      hide EncodeNets, NetsThrough, Reachable, Valid, View, Chain, LinkedAt;
      PortAt(i);
      ReachableStep(View(), snet, i, all, done);
      len := EncodePort(tx, pduLen, start, port, lists[i], i, snet, done);
    }

    static lemma ReachableStep(t: RoutingTable.Table, snet: Net, i: nat, all: seq<Net>, done: seq<Net>)
      requires i < |t| && all == done + Reachable(t[i..], snet)
      ensures all == done + NetsThrough(t[i], snet) + Reachable(t[i + 1..], snet)
      ensures |done| + |NetsThrough(t[i], snet)| <= |all|
    {
      hide NetsThrough;
      assert t[i..][0] == t[i] && t[i..][1..] == t[i + 1..];
    }

    static lemma NothingReachable(t: RoutingTable.Table, snet: Net)
      requires t == []
      ensures Reachable(t, snet) == []
    {
    }

    /** One port of the list: its own network and those learned through it. */
    static method EncodePort(tx: array<byte>, pduLen: nat, start: nat, port: Node, ghost nodes: seq<Node>, ghost list: int,
                             snet: Net, ghost before: seq<Net>) returns (len: nat)
      requires Chain(port.dnets, nodes, list)
      requires pduLen <= start && start + 2 * |NetsThrough(PortOf(port, nodes), snet)| <= tx.Length
      requires tx[pduLen..start] == EncodeNets(before)
      modifies tx
      ensures len == start + 2 * |NetsThrough(PortOf(port, nodes), snet)|
      ensures tx[..pduLen] == old(tx[..pduLen])
      ensures tx[pduLen..len] == EncodeNets(before + NetsThrough(PortOf(port, nodes), snet))
    {
      hide EncodeNets, LinkedAt;
      len := start;
      ghost var nets, through := NetsOf(Routes(nodes)), NetsThrough(PortOf(port, nodes), snet);
      if port.net != snet {
        assert through == [port.net] + nets;
        len := PutNet(tx, pduLen, len, before, port.net);
        assert NetsOf(Routes(nodes)) == nets;
        len := EncodeList(tx, pduLen, len, port.dnets, nodes, list, before + [port.net]);
        assert before + [port.net] + nets == before + through;
      } else {
        assert before + through == before;
      }
    }

    static method EncodeList(tx: array<byte>, pduLen: nat, start: nat, dnets: Node?, ghost nodes: seq<Node>, ghost list: int,
                             ghost before: seq<Net>) returns (len: nat)
      requires Chain(dnets, nodes, list)
      requires pduLen <= start && start + 2 * |NetsOf(Routes(nodes))| <= tx.Length
      requires tx[pduLen..start] == EncodeNets(before)
      modifies tx
      ensures len == start + 2 * |NetsOf(Routes(nodes))|
      ensures tx[..pduLen] == old(tx[..pduLen])
      ensures tx[pduLen..len] == EncodeNets(before + NetsOf(Routes(nodes)))
    {
      hide EncodeNets;
      len := start;
      var dnet := dnets;
      ghost var k, done, learned := 0, before, Routes(nodes);
      ghost var goal := before + NetsOf(learned);
      assert learned[0..] == learned;
      while dnet != null
        invariant 0 <= k <= |nodes| && dnet == At(nodes, k)
        invariant Chain(dnets, nodes, list) && Routes(nodes) == learned
        invariant goal == done + NetsOf(learned[k..])
        invariant pduLen <= len && len + 2 * |NetsOf(learned[k..])| == start + 2 * |NetsOf(learned)|
        invariant tx[..pduLen] == old(tx[..pduLen]) && tx[pduLen..len] == EncodeNets(done)
        decreases |nodes| - k
      {
        assert LinkedAt(nodes, list, k);
        assert learned[k..][0] == learned[k] && learned[k..][1..] == learned[k + 1..];
        len := PutNet(tx, pduLen, len, done, dnet.net);
        done := done + [dnet.net];
        dnet := dnet.next;
        k := k + 1;
      }
      assert goal == done;
    }

    /** encode_unsigned16 at the end of what has been written so far. */
    static method PutNet(tx: array<byte>, pduLen: nat, len: nat, ghost done: seq<Net>, net: Net) returns (len': nat)
      requires pduLen <= len && len + 2 <= tx.Length && tx[pduLen..len] == EncodeNets(done)
      modifies tx
      ensures len' == len + 2 && tx[..pduLen] == old(tx[..pduLen])
      ensures tx[pduLen..len'] == EncodeNets(done + [net])
    {
      tx[len], tx[len + 1] := net / 256, net % 256;
      len' := len + 2;
      EncodeNetsAppend(done, [net]);
      assert EncodeNets([net]) == EncodeUnsigned16(net) + EncodeNets([]);
      assert tx[pduLen..len'] == tx[pduLen..len] + EncodeUnsigned16(net);
    }

    /** The counting loop of the Initialize-Routing-Table-Ack. */
    method CountPorts() returns (count: byte)
      requires Valid()
      ensures count == |View()| % 256
    {
      count := 0;
      var port := head;
      ghost var i := 0;
      while port != null
        invariant 0 <= i <= |ports| && port == At(ports, i) && count == i % 256
        decreases |ports| - i
      {
        count := (count + 1) % 256;
        assert LinkedAt(ports, -1, i);
        port := port.next;
        i := i + 1;
      }
    }

    /** Writes the payload of an Initialize-Routing-Table-Ack. */
    method EncodeAck(tx: array<byte>, pduLen: nat) returns (len: nat)
      requires Valid() && tx !in Repr
      requires pduLen + 1 + 4 * |View()| <= tx.Length
      modifies tx
      ensures Valid() && View() == old(View())
      ensures pduLen <= len <= tx.Length
      ensures tx[..pduLen] == old(tx[..pduLen])
      ensures tx[pduLen..len] == AckPayload6(PortNets(View()))
    {
      hide EncodeUnsigned16, AckEntries;
      var count := CountPorts();
      tx[pduLen] := count;
      len := pduLen + 1;
      if count > 0 {
        len := EncodeEntries(tx, pduLen, head, ports, PortNets(View()));
        assert tx[..pduLen] == tx[..pduLen + 1][..pduLen];
        assert tx[pduLen] == tx[..pduLen + 1][pduLen] == count;
        assert tx[pduLen..len] == [count] + tx[pduLen + 1..len];
      } else {
        assert tx[pduLen..len] == [count];
      }
    }

    static method EncodeEntries(tx: array<byte>, pduLen: nat, head: Node?, ghost nodes: seq<Node>, ghost nets: seq<Net>)
      returns (len: nat)
      requires Chain(head, nodes, -1) && |nets| == |nodes| && forall i :: 0 <= i < |nodes| ==> nets[i] == nodes[i].net
      requires pduLen + 1 + 4 * |nodes| <= tx.Length
      modifies tx
      ensures len == pduLen + 1 + 4 * |nodes|
      ensures tx[..pduLen + 1] == old(tx[..pduLen + 1])
      ensures tx[pduLen + 1..len] == AckEntries(nets, 1)
    {
      hide EncodeUnsigned16, LinkedAt;
      len := pduLen + 1;
      var portId: byte, port := 1, head;
      ghost var i := 0;
      assert nets[0..] == nets && tx[pduLen + 1..len] == [];
      while port != null
        invariant 0 <= i <= |nodes| && port == At(nodes, i) && portId == (i + 1) % 256
        invariant Chain(head, nodes, -1) && forall k :: 0 <= k < |nodes| ==> nets[k] == nodes[k].net
        invariant len == pduLen + 1 + 4 * i
        invariant tx[..pduLen + 1] == old(tx[..pduLen + 1])
        invariant tx[pduLen + 1..len] + AckEntries(nets[i..], i + 1) == AckEntries(nets, 1)
        decreases |nodes| - i
      {
        NextIn(head, nodes, -1, i);
        NextId(i);
        len := PutEntry(tx, pduLen, len, nets, i, port.net, portId);
        portId := (portId + 1) % 256;
        port := port.next;
        i := i + 1;
      }
    }

    static lemma NextIn(head: Node?, nodes: seq<Node>, list: int, i: nat)
      requires Chain(head, nodes, list) && i < |nodes|
      ensures nodes[i].next == At(nodes, i + 1)
    {
      assert LinkedAt(nodes, list, i);
    }

    static lemma NextId(i: nat)
      ensures ((i + 1) % 256 + 1) % 256 == (i + 2) % 256
    {
    }

    static method PutEntry(tx: array<byte>, pduLen: nat, len: nat, ghost nets: seq<Net>, ghost i: nat, net: Net,
                           portId: byte) returns (len': nat)
      requires i < |nets| && net == nets[i] && portId == (i + 1) % 256
      requires pduLen < len && len + 4 <= tx.Length
      requires tx[pduLen + 1..len] + AckEntries(nets[i..], i + 1) == AckEntries(nets, 1)
      modifies tx
      ensures len' == len + 4 && tx[..pduLen + 1] == old(tx[..pduLen + 1])
      ensures tx[pduLen + 1..len'] + AckEntries(nets[i + 1..], i + 2) == AckEntries(nets, 1)
    {
      ghost var entry, before := EncodeUnsigned16(net) + [portId, 0], tx[pduLen + 1..len];
      EntryNext(nets, i);
      hide AckEntries;
      PutFour(tx, len, [net / 256, net % 256, portId, 0]);
      len' := len + 4;
      assert tx[pduLen + 1..len'] == before + entry by {
        assert tx[pduLen + 1..len] == before && tx[len..len'] == entry;
      }
      assert before + (entry + AckEntries(nets[i + 1..], i + 2)) == before + entry + AckEntries(nets[i + 1..], i + 2);
    }

    static lemma EntryNext(nets: seq<Net>, i: nat)
      requires i < |nets|
      ensures AckEntries(nets[i..], i + 1)
           == EncodeUnsigned16(nets[i]) + [(i + 1) % 256, 0] + AckEntries(nets[i + 1..], i + 2)
    {
      hide EncodeUnsigned16;
      assert nets[i..][0] == nets[i] && nets[i..][1..] == nets[i + 1..];
    }

    static method PutFour(tx: array<byte>, at: nat, octets: seq<byte>)
      requires |octets| == 4 && at + 4 <= tx.Length
      modifies tx
      ensures tx[at..at + 4] == octets && tx[..at] == old(tx[..at])
    {
      tx[at], tx[at + 1], tx[at + 2], tx[at + 3] := octets[0], octets[1], octets[2], octets[3];
    }

    /** dnet_cleanup: frees every node of one list. */
    method DnetCleanup(dnets: Node?, ghost nodes: seq<Node>, ghost list: int) returns (freed: seq<Node>)
      requires Chain(dnets, nodes, list)
      ensures freed == nodes
    {
      freed := [];
      var head, dnet := dnets, dnets;
      while dnet != null
        invariant |freed| <= |nodes| && freed == nodes[..|freed|]
        invariant head == dnet == At(nodes, |freed|)
        decreases |nodes| - |freed|
      {
        assert LinkedAt(nodes, list, |freed|);
        dnet := dnet.next;
        freed := freed + [head]; // free(dnets)
        head := dnet;
      }
    }

    ghost predicate FreedOnce(nodes: seq<Node>, freed: seq<Node>) {
      forall n <- nodes :: multiset(freed)[n] == 1
    }

    /** Every node of the table is freed exactly once, and nothing else is. */
    method Cleanup() returns (freed: seq<Node>)
      requires Valid()
      ensures FreedOnce(ports, freed)
      ensures forall i :: 0 <= i < |lists| ==> FreedOnce(lists[i], freed)
      ensures forall n <- freed :: n in ports || exists i :: 0 <= i < |lists| && n in lists[i]
    {
      freed := [];
      var port := head;
      ghost var i := 0;
      while port != null
        invariant 0 <= i <= |ports| && port == At(ports, i)
        invariant forall j :: 0 <= j < i ==> FreedOnce(lists[j], freed)
        invariant forall n <- freed :: 0 <= n.list < i
        invariant forall n <- freed :: exists j :: 0 <= j < |lists| && n in lists[j]
        decreases |ports| - i
      {
        assert LinkedAt(ports, -1, i) && Chain(ports[i].dnets, lists[i], i);
        var nodes := DnetCleanup(port.dnets, lists[i], i);
        FreesOnce(freed, nodes, i, port.dnets);
        ghost var before := freed;
        freed := freed + nodes;
        forall j | 0 <= j < i ensures FreedOnce(lists[j], freed) {
          assert FreedOnce(lists[j], before);
          forall n <- lists[j] ensures multiset(freed)[n] == 1 {
            InChain(lists[j], ports[j].dnets, j, n);
            assert n !in nodes by { if n in nodes { InChain(nodes, port.dnets, i, n); } }
          }
        }
        forall n <- nodes ensures n.list == i { InChain(nodes, port.dnets, i, n); }
        port := port.next;
        i := i + 1;
      }
      var nodes := DnetCleanup(head, ports, -1);
      FreesOnce(freed, nodes, -1, head);
      ghost var before := freed;
      freed := freed + nodes;
      forall j | 0 <= j < |lists| ensures FreedOnce(lists[j], freed) {
        assert FreedOnce(lists[j], before);
        forall n <- lists[j] ensures multiset(freed)[n] == 1 {
          InChain(lists[j], ports[j].dnets, j, n);
          assert n !in nodes by { if n in nodes { InChain(nodes, head, -1, n); } }
        }
      }
    }

    lemma InChain(nodes: seq<Node>, head: Node?, list: int, n: Node)
      requires Chain(head, nodes, list) && n in nodes
      ensures n.list == list
    {
      var i: nat :| i < |nodes| && nodes[i] == n;
      assert LinkedAt(nodes, list, i);
    }

    lemma FreesOnce(freed: seq<Node>, nodes: seq<Node>, list: int, head: Node?)
      requires Chain(head, nodes, list) && forall n <- freed :: n.list != list
      ensures FreedOnce(nodes, freed + nodes)
    {
      forall n <- nodes ensures multiset(freed + nodes)[n] == 1 {
        var i: nat :| i < |nodes| && nodes[i] == n;
        InChain(nodes, head, list, n);
        Elsewhere(nodes, head, list, i, 0, i);
        Elsewhere(nodes, head, list, i, i + 1, |nodes|);
        CountedOnce(freed, nodes, i);
      }
    }

    lemma CountedOnce(freed: seq<Node>, nodes: seq<Node>, i: nat)
      requires i < |nodes| && nodes[i] !in freed && nodes[i] !in nodes[..i] && nodes[i] !in nodes[i + 1..]
      ensures multiset(freed + nodes)[nodes[i]] == 1
    {
      assert freed + nodes == freed + nodes[..i] + [nodes[i]] + nodes[i + 1..];
    }

    lemma Elsewhere(nodes: seq<Node>, head: Node?, list: int, i: nat, lo: nat, hi: nat)
      requires Chain(head, nodes, list) && i < |nodes| && lo <= hi <= |nodes| && !(lo <= i < hi)
      ensures nodes[i] !in nodes[lo..hi]
    {
      forall j: nat | lo <= j < hi ensures nodes[j] != nodes[i] {
        assert LinkedAt(nodes, list, i) && LinkedAt(nodes, list, j);
      }
    }
  }
}
