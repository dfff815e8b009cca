/** The routing information of the threaded router (apps/router): each port
    learns networks on its own, so two ports may list the same one. */
module PortThread {
  import opened Octets
  import opened RoutingTable

  /** find_dnet: a global broadcast is answered with the first port. */
  function FindDnet(t: Table, net: Net): Lookup {
    if net == BROADCAST_NETWORK then (if t == [] then Missing else Direct(0)) else Search(t, net)
  }

  /** add_dnet: only the list of the given port is searched for a repeat. */
  function AddDnet(t: Table, p: nat, net: Net, mac: Mac): Table
    requires p < |t|
  {
    if RouteIndex(t[p].learned, net) < |t[p].learned| then t else Append(t, p, net, mac)
  }

  lemma {:induction false} RouteIndexAppend(routes: seq<Route>, r: Route, n: Net)
    ensures RouteIndex(routes + [r], n) ==
            if RouteIndex(routes, n) == |routes| && r.net != n then |routes| + 1 else RouteIndex(routes, n)
  {
    if routes == [] {
      assert routes + [r] == [r];
    } else {
      assert (routes + [r])[1..] == routes[1..] + [r];
      RouteIndexAppend(routes[1..], r, n);
    }
  }

  lemma {:induction false} SearchFromAfterAdd(t: Table, i: nat, p: nat, net: Net, mac: Mac, n: Net)
    requires i <= |t| && p < |t|
    ensures var r := SearchFrom(t, i, n);
      SearchFrom(AddDnet(t, p, net, mac), i, n) ==
        if n == net && i <= p && (r.Missing? || r.port > p) then Via(p, |t[p].learned|) else r
    decreases |t| - i
  {
    hide RouteIndex;
    if i == |t| {
    } else {
      SearchFromAfterAdd(t, i + 1, p, net, mac, n);
      RouteIndexAppend(t[p].learned, Route(net, mac), n);
    }
  }

  /** find_dnet after add_dnet changes only the answer for `net`, and only if it
      was unresolved or resolved at a later port; then the new route answers. */
  lemma FindAfterAdd(t: Table, p: nat, net: Net, mac: Mac, n: Net)
    requires p < |t|
    ensures var r := FindDnet(t, n);
            var r' := FindDnet(AddDnet(t, p, net, mac), n);
      if n == net != BROADCAST_NETWORK && (r.Missing? || r.port > p)
      then r' == Via(p, |t[p].learned|) && HopOf(AddDnet(t, p, net, mac), r') == Some(NextRouter(t[p].net, mac))
      else r' == r && HopOf(AddDnet(t, p, net, mac), r') == HopOf(t, r)
  {
    SearchFromAfterAdd(t, 0, p, net, mac, n);
  }

  // ---- Whole runs ----

  /** A router with address `mac` on port `port` was heard to reach `net`. */
  datatype Heard = Heard(port: nat, net: Net, mac: Mac)

  ghost predicate OnPorts(heard: seq<Heard>, ports: nat) {
    forall h <- heard :: h.port < ports
  }

  /** The table after all of `heard`, in order. */
  function After(t: Table, heard: seq<Heard>): (t': Table)
    requires OnPorts(heard, |t|)
    ensures |t'| == |t| && forall i :: 0 <= i < |t| ==> t'[i].net == t[i].net && t'[i].mac == t[i].mac
  {
    if heard == [] then t
    else
      var h := heard[|heard| - 1];
      AddDnet(After(t, heard[..|heard| - 1]), h.port, h.net, h.mac)
  }

  /** Who first told about `net` on the port, if anyone did. */
  function FirstTold(heard: seq<Heard>, port: nat, net: Net): Option<Mac> {
    if heard == [] then None
    else if heard[0].port == port && heard[0].net == net then Some(heard[0].mac)
    else FirstTold(heard[1..], port, net)
  }

  function LearnedMac(routes: seq<Route>, net: Net): Option<Mac> {
    var k := RouteIndex(routes, net);
    if k < |routes| then Some(routes[k].mac) else None
  }

  ghost predicate Distinct(routes: seq<Route>) {
    forall k, l :: 0 <= k < l < |routes| ==> routes[k].net != routes[l].net
  }

  ghost predicate Fresh(t: Table) {
    forall i :: 0 <= i < |t| ==> t[i].learned == []
  }

  lemma {:induction false} FirstToldAppend(heard: seq<Heard>, h: Heard, port: nat, net: Net)
    ensures FirstTold(heard + [h], port, net) ==
            if FirstTold(heard, port, net).None? && h.port == port && h.net == net then Some(h.mac)
            else FirstTold(heard, port, net)
  {
    if heard == [] {
      assert heard + [h] == [h];
    } else {
      assert (heard + [h])[1..] == heard[1..] + [h];
      FirstToldAppend(heard[1..], h, port, net);
    }
  }

  /** No learned list ever repeats a network, and a list holds exactly what was
      told on its port, with the address of the first to tell it. */
  lemma {:induction false} ListsHoldFirstTold(t: Table, heard: seq<Heard>, p: nat, net: Net)
    requires Fresh(t) && OnPorts(heard, |t|) && p < |t|
    ensures Distinct(After(t, heard)[p].learned)
    ensures LearnedMac(After(t, heard)[p].learned, net) == FirstTold(heard, p, net)
    decreases |heard|
  {
    hide RouteIndex;
    if heard == [] {
    } else {
      var before, h := heard[..|heard| - 1], heard[|heard| - 1];
      ListsHoldFirstTold(t, before, p, net);
      FirstToldAppend(before, h, p, net);
      assert heard == before + [h];
      RouteIndexAppend(After(t, before)[p].learned, Route(h.net, h.mac), net);
    }
  }

  /** The answer that the history of the run calls for. */
  ghost predicate Answers(t: Table, heard: seq<Heard>, net: Net, hop: Hop, i: nat) {
    && i < |t|
    && hop.port == t[i].net
    && (if t[i].net == net then hop.OnPort?
        else hop.NextRouter? && FirstTold(heard, i, net) == Some(hop.mac))
    && forall j :: 0 <= j < i ==> t[j].net != net && FirstTold(heard, j, net).None?
  }

  lemma {:induction false} SearchReadsLists(t: Table, i: nat, net: Net)
    requires i <= |t|
    ensures match SearchFrom(t, i, net)
      case Missing => forall j :: i <= j < |t| ==> t[j].net != net && LearnedMac(t[j].learned, net).None?
      case Direct(p) => forall j :: i <= j < p ==> t[j].net != net && LearnedMac(t[j].learned, net).None?
      case Via(p, k) => t[p].net != net && LearnedMac(t[p].learned, net) == Some(t[p].learned[k].mac)
                        && forall j :: i <= j < p ==> t[j].net != net && LearnedMac(t[j].learned, net).None?
    decreases |t| - i
  {
    if i == |t| {
    } else {
      SearchReadsLists(t, i + 1, net);
    }
  }

  /** find_dnet in every run, from what was heard alone: the lowest port that is
      on the network or was told of it, and there the first router to tell. */
  lemma {:induction false} FindInEveryRun(t: Table, heard: seq<Heard>, net: Net)
    requires Fresh(t) && OnPorts(heard, |t|) && net != BROADCAST_NETWORK
    ensures var t' := After(t, heard);
            var r := FindDnet(t', net);
      match HopOf(t', r)
      case None => forall j :: 0 <= j < |t| ==> t[j].net != net && FirstTold(heard, j, net).None?
      case Some(hop) => Answers(t, heard, net, hop, r.port)
  {
    var t' := After(t, heard);
    SearchReadsLists(t', 0, net);
    forall j | 0 <= j < |t| ensures LearnedMac(t'[j].learned, net) == FirstTold(heard, j, net) {
      ListsHoldFirstTold(t, heard, j, net);
    }
  }

  // ---- The free network number search ----

  ghost predicate Used(nets: seq<Net>, net: Net) {
    net in nets
  }

  /** The order in which get_next_free_dnet tries numbers: 1 to 65535, then 0. */
  function Candidate(s: nat): Net {
    (s + 1) % 0x1_0000
  }

  function NetSet(nets: seq<Net>): (r: set<Net>)
    ensures |r| <= |nets|
    ensures forall n :: n in r <==> n in nets
  {
    if nets == [] then {} else {nets[0]} + NetSet(nets[1..])
  }

  lemma {:induction false} UpTo(m: nat) returns (numbers: set<Net>)
    requires m < 0x1_0000
    ensures |numbers| == m && forall n: Net :: n in numbers <==> 1 <= n <= m
  {
    if m == 0 {
      numbers := {};
    } else {
      var fewer := UpTo(m - 1);
      numbers := fewer + {m};
    }
  }

  /** Pigeonhole: the numbers 1..m need m ports. */
  lemma Pigeonhole(nets: seq<Net>, m: nat)
    requires m < 0x1_0000 && forall n: Net :: 1 <= n <= m ==> Used(nets, n)
    ensures m <= |nets|
  {
    var numbers := UpTo(m);
    assert numbers <= NetSet(nets) by {
      forall n: Net | n in numbers ensures n in NetSet(nets) { assert Used(nets, n); }
    }
    Smaller(numbers, NetSet(nets));
  }

  lemma {:induction false} Smaller(a: set<Net>, b: set<Net>)
    requires a <= b
    ensures |a| <= |b|
  {
    if a != {} {
      var n :| n in a;
      Smaller(a - {n}, b - {n});
    }
  }

  /** Some candidate is free whenever there are fewer than 65535 ports, and the
      first one is the least positive unused number, at most the port count
      plus one. */
  lemma FirstFreeIsLeast(nets: seq<Net>, s: nat)
    requires s < 0x1_0000 && |nets| < 0xFFFF
    requires forall r :: 0 <= r < s ==> Used(nets, Candidate(r))
    ensures s <= |nets| && Candidate(s) == s + 1
    ensures forall n: Net :: 1 <= n < Candidate(s) ==> Used(nets, n)
  {
    forall n: Net | 1 <= n <= s ensures Used(nets, n) {
      assert Candidate(n - 1) == n;
    }
    Pigeonhole(nets, s);
  }

  lemma SomeFree(nets: seq<Net>)
    requires |nets| < 0xFFFF
    ensures exists s :: 0 <= s < 0x1_0000 && !Used(nets, Candidate(s))
  {
    if forall s :: 0 <= s < 0x1_0000 ==> Used(nets, Candidate(s)) {
      FirstFreeIsLeast(nets, 0xFFFF);
    }
  }
}
