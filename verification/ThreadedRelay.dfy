/** A message among any number of threaded routers (apps/router): process_msg
    encodes the hop count as it was received, so that nothing bounds the relays
    but the routes (against section 6.5 of ASHRAE 135). */
module ThreadedRelay {
  import opened Octets
  import opened RoutingTable
  import opened Npdu
  import opened PortThread

  /** A router sees the frame on one of its ports, from a data link address. */
  datatype Visit = Visit(table: Table, port: nat, mac: Mac)

  /** A copy for the mailbox of a port; `adr` is where it goes from there. */
  datatype Send = Send(port: nat, adr: Mac, frame: Frame)

  predicate IsVisit(v: Visit) {
    v.port < |v.table|
  }

  predicate IsAddress(net: Net) {
    net != 0 && net != BROADCAST_NETWORK
  }

  /** A source behind another router is kept. */
  function Source(v: Visit, f: Frame): (Net, Mac)
    requires IsVisit(v)
  {
    var own := v.table[v.port].net;
    if IsAddress(f.srcNet) && f.srcNet != own then (f.srcNet, f.srcAdr) else (own, v.mac)
  }

  /** process_msg: the frame for the port that find_dnet gave. */
  function Routed(v: Visit, f: Frame, port: nat): Frame
    requires IsVisit(v) && port < |v.table|
  {
    var (net, adr) := Source(v, f);
    if f.destNet == BROADCAST_NETWORK || v.table[port].net != f.destNet
    then Encode(f.destNet, f.destAdr, net, adr, f.hopCount, f.body)
    else Encode(0, [], net, adr, f.hopCount, f.body)
  }

  function ToOthers(n: nat, origin: nat, adr: Mac, frame: Frame): seq<Send> {
    if n == 0 then []
    else ToOthers(n - 1, origin, adr, frame) + (if n - 1 != origin then [Send(n - 1, adr, frame)] else [])
  }

  /** The copies of an APDU that leave; without a route the router only searches. */
  function SendsOf(v: Visit, f: Frame): seq<Send>
    requires IsVisit(v)
  {
    match FindDnet(v.table, f.destNet)
    case Missing => []
    case Direct(i) =>
      if f.destNet == BROADCAST_NETWORK then ToOthers(|v.table|, v.port, f.destAdr, Routed(v, f, i))
      else [Send(i, f.destAdr, Routed(v, f, i))]
    case Via(i, k) => [Send(i, v.table[i].learned[k].mac, Routed(v, f, i))]
  }

  lemma {:induction false} ToOthersAre(n: nat, origin: nat, adr: Mac, frame: Frame)
    ensures forall s <- ToOthers(n, origin, adr, frame) :: s.frame == frame && s.port < n && s.port != origin
    ensures ToOthers(n, origin, adr, frame) == [] <==> n == 0 || (n == 1 && origin == 0)
  {
    if n == 0 {
    } else {
      ToOthersAre(n - 1, origin, adr, frame);
      if n >= 2 {
        assert n - 1 != origin || ToOthers(n - 1, origin, adr, frame) != [];
      }
    }
  }

  /** Whether a message leaves is a matter of routes and ports, whatever its hop
      count; a copy that still has a DNET has the hop count it came with. */
  lemma LeavesIff(v: Visit, f: Frame)
    requires IsVisit(v)
    ensures var r := FindDnet(v.table, f.destNet);
      SendsOf(v, f) != [] <==> !r.Missing? && (f.destNet == BROADCAST_NETWORK ==> |v.table| > 1)
    ensures forall s <- SendsOf(v, f) ::
      && s.frame.body == f.body
      && (s.frame.destNet != 0 ==> s.frame.destNet == f.destNet && s.frame.destAdr == f.destAdr && s.frame.hopCount == f.hopCount)
  {
    var r := FindDnet(v.table, f.destNet);
    if r.Direct? && f.destNet == BROADCAST_NETWORK {
      ToOthersAre(|v.table|, v.port, f.destAdr, Routed(v, f, r.port));
    }
  }

  /** A message whose way leads on, through a next router or everywhere. */
  predicate GoesOn(v: Visit, f: Frame) {
    if f.destNet == BROADCAST_NETWORK then |v.table| > 1 else FindDnet(v.table, f.destNet).Via?
  }

  /** Between routers the frame does not change at all. */
  lemma RelayedUnchanged(v: Visit, f: Frame)
    requires IsVisit(v) && GoesOn(v, f) && f.destNet != 0
    requires IsAddress(f.srcNet) && f.srcAdr != [] && f.srcNet != v.table[v.port].net
    ensures SendsOf(v, f) != [] && forall s <- SendsOf(v, f) :: s.frame == f
  {
    LeavesIff(v, f);
    var r := FindDnet(v.table, f.destNet);
    assert Routed(v, f, r.port) == f;
    if f.destNet == BROADCAST_NETWORK {
      ToOthersAre(|v.table|, v.port, f.destAdr, f);
    }
  }

  // ---- No bound ----

  /** How many of the visits relay the message; each sends it on to the next. */
  function Relays(f: Frame, visits: seq<Visit>): nat
    requires forall v <- visits :: IsVisit(v)
    decreases |visits|
  {
    if visits == [] then 0
    else
      var sends := SendsOf(visits[0], f);
      if sends == [] then Relays(f, visits[1..]) else 1 + Relays(sends[0].frame, visits[1..])
  }

  /** Every router on the way that has a next router for the message relays it,
      as often as it comes by and whatever its hop count. */
  lemma {:induction false} EveryRouteRelays(f: Frame, visits: seq<Visit>)
    requires f.destNet != 0 && forall v <- visits :: IsVisit(v) && GoesOn(v, f)
    ensures Relays(f, visits) == |visits|
    decreases |visits|
  {
    hide FindDnet;
    if visits == [] {
    } else {
      var v := visits[0];
      KeepsDnet(v, f);
      var next := SendsOf(v, f)[0].frame;
      assert forall w <- visits[1..] :: w in visits;
      EveryRouteRelays(next, visits[1..]);
    }
  }

  lemma KeepsDnet(v: Visit, f: Frame)
    requires IsVisit(v) && GoesOn(v, f) && f.destNet != 0
    ensures SendsOf(v, f) != [] && forall s <- SendsOf(v, f) :: s.frame.destNet == f.destNet
  {
    LeavesIff(v, f);
    if f.destNet == BROADCAST_NETWORK {
      ToOthersAre(|v.table|, v.port, f.destAdr, Routed(v, f, 0));
    }
  }

  /** Two routers on networks 1 and 2 that take each other for the way to 9. */
  function Ring(n: nat): Visit {
    if n % 2 == 0
    then Visit([Port(1, [1], [Route(9, [7])]), Port(2, [2], [])], 1, [8])
    else Visit([Port(1, [3], []), Port(2, [4], [Route(9, [8])])], 0, [7])
  }

  function Around(count: nat): seq<Visit> {
    seq(count, n requires 0 <= n => Ring(n))
  }

  /** Between them a message for network 9 goes back and forth for ever, and so
      does a global broadcast, even with a hop count of 0. */
  lemma GoesAroundForEver(f: Frame, count: nat)
    requires f.destNet == 9 || f.destNet == BROADCAST_NETWORK
    ensures forall v <- Around(count) :: IsVisit(v)
    ensures Relays(f, Around(count)) == count
  {
    forall v <- Around(count) ensures IsVisit(v) && GoesOn(v, f) {
      var n: nat :| n < count && v == Ring(n);
      RingRoutes(n);
    }
    EveryRouteRelays(f, Around(count));
  }

  lemma RingRoutes(n: nat)
    ensures FindDnet(Ring(n).table, 9) == Via(if n % 2 == 0 then 0 else 1, 0)
  {
    var t := Ring(n).table;
    assert RouteIndex([Route(9, [7])], 9) == 0 && RouteIndex([Route(9, [8])], 9) == 0;
    if n % 2 == 1 {
      assert RouteIndex(t[0].learned, 9) == 0 == |t[0].learned|;
      assert SearchFrom(t, 1, 9) == Via(1, 0);
    }
  }

  // ---- The source on the way ----

  /** The frame after the visits; a router that sends nothing leaves it to the
      next one. */
  function Final(f: Frame, visits: seq<Visit>): Frame
    requires forall v <- visits :: IsVisit(v)
    decreases |visits|
  {
    if visits == [] then f
    else
      var sends := SendsOf(visits[0], f);
      Final(if sends == [] then f else sends[0].frame, visits[1..])
  }

  lemma SentWith(v: Visit, f: Frame)
    requires IsVisit(v) && SendsOf(v, f) != [] && Source(v, f).0 != 0 && Source(v, f).1 != []
    ensures var (net, adr) := Source(v, f); var g := SendsOf(v, f)[0].frame;
      g.body == f.body && g.srcNet == net && g.srcAdr == adr
  {
    var r := FindDnet(v.table, f.destNet);
    if r.Direct? && f.destNet == BROADCAST_NETWORK {
      ToOthersAre(|v.table|, v.port, f.destAdr, Routed(v, f, r.port));
    }
  }

  /** A source stays as it is, however the message travels on, as long as it does
      not come back to the network it is from. */
  lemma {:induction false} SourceStays(f: Frame, visits: seq<Visit>)
    requires IsAddress(f.srcNet) && f.srcAdr != []
    requires forall v <- visits :: IsVisit(v) && v.table[v.port].net != f.srcNet
    ensures var g := Final(f, visits); g.body == f.body && g.srcNet == f.srcNet && g.srcAdr == f.srcAdr
    decreases |visits|
  {
    hide SendsOf;
    if visits == [] {
    } else {
      var v := visits[0];
      if SendsOf(v, f) == [] {
        SourceStays(f, visits[1..]);
      } else {
        SentWith(v, f);
        SourceStays(SendsOf(v, f)[0].frame, visits[1..]);
      }
    }
  }

  /** So a station's message names the station's network and address everywhere
      but there.  Coming back, it gets the address of the router it came from. */
  lemma {:induction false} OriginIsNamed(f: Frame, v: Visit, later: seq<Visit>)
    requires IsVisit(v) && SendsOf(v, f) != [] && f.srcNet == 0 && v.mac != []
    requires IsAddress(v.table[v.port].net)
    requires forall w <- later :: IsVisit(w) && w.table[w.port].net != v.table[v.port].net
    ensures forall w <- [v] + later :: IsVisit(w)
    ensures var g := Final(f, [v] + later); g.body == f.body && g.srcNet == v.table[v.port].net && g.srcAdr == v.mac
  {
    hide SendsOf;
    assert ([v] + later)[1..] == later;
    SentWith(v, f);
    SourceStays(SendsOf(v, f)[0].frame, later);
  }

  lemma BackHome(f: Frame, w: Visit)
    requires IsVisit(w) && SendsOf(w, f) != [] && IsAddress(f.srcNet) && w.table[w.port].net == f.srcNet && w.mac != []
    ensures SendsOf(w, f)[0].frame.srcAdr == w.mac
  {
    SentWith(w, f);
  }
}
