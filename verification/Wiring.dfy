// Where a resolved address leads once the deployment runs: containers share a
// network with name resolution, docker publishes host ports, and host services
// listen on the host itself.
module Wiring {
  import opened Text
  import opened Template
  import opened ServiceSpec
  import opened Allocation
  import opened Resolution

  predicate OnHost(hosts: set<string>, s: ServiceView) { s.name in hosts }

  // The number s renders for its own {{Port name number}} or {{PortUDP name number}}.
  function Rendered(hosts: set<string>, s: ServiceView, p: PortView): int {
    match ResolvePort(hosts, s, p.name, p.number)
    case None => p.number
    case Some(n) => n
  }

  // s was told to listen on this number with this transport.
  ghost predicate ListensOn(hosts: set<string>, s: ServiceView, transport: string, number: int) {
    exists j :: 0 <= j < |s.ports| && s.ports[j].protocol == transport && Rendered(hosts, s, s.ports[j]) == number
  }

  // docker publishes HostPort:Port with the protocol of the port, for containers only.
  ghost predicate Publishes(hosts: set<string>, s: ServiceView, transport: string, hostPort: int, number: int) {
    !OnHost(hosts, s) &&
    exists j :: 0 <= j < |s.ports| && s.ports[j].protocol == transport &&
                s.ports[j].hostPort == hostPort && s.ports[j].number == number
  }

  // Traffic to a port of the host machine arrives at this number of service s.
  ghost predicate HostPortLeadsTo(hosts: set<string>, transport: string, hostPort: int, s: ServiceView, number: int) {
    if OnHost(hosts, s) then number == hostPort else Publishes(hosts, s, transport, hostPort, number)
  }

  // Traffic that client sends to host:port is received by s on the given number.
  ghost predicate Received(
    hosts: set<string>, client: ServiceView, transport: string, host: string, port: int, s: ServiceView, number: int)
  {
    ListensOn(hosts, s, transport, number) &&
    if OnHost(hosts, client) then host == LOCALHOST && HostPortLeadsTo(hosts, transport, port, s, number)
    else if host == HOST_GATEWAY then HostPortLeadsTo(hosts, transport, port, s, number)
    else if host == LOCALHOST then s == client && number == port
    else !OnHost(hosts, s) && s.name == host && number == port
  }

  // Names are unique and none of them is one of the two host aliases.
  predicate UsableNames(svcs: seq<ServiceView>) {
    (forall i, j :: 0 <= i < j < |svcs| ==> svcs[i].name != svcs[j].name) &&
    (forall i :: 0 <= i < |svcs| ==> svcs[i].name != LOCALHOST && svcs[i].name != HOST_GATEWAY)
  }

  // Port j of service i and port l of service k have the same host port.
  predicate SameHostPort(svcs: seq<ServiceView>, i: nat, j: nat, k: nat, l: nat) {
    i < |svcs| && j < |svcs[i].ports| && k < |svcs| && l < |svcs[k].ports| &&
    svcs[i].ports[j].hostPort == svcs[k].ports[l].hostPort
  }

  // What a finished allocation gives: tables in order and host ports all different.
  ghost predicate PortsAssigned(svcs: seq<ServiceView>) {
    (forall i :: 0 <= i < |svcs| ==> PortTable(svcs[i].ports)) &&
    (forall i: nat, j: nat, k: nat, l: nat :: SameHostPort(svcs, i, j, k, l) ==> i == k && j == l)
  }

  lemma HostPortDetermines(svcs: seq<ServiceView>, i: nat, j: nat, k: nat, l: nat)
    requires forall m, n :: 0 <= m < n < |Flat(svcs)| ==> Flat(svcs)[m].hostPort != Flat(svcs)[n].hostPort
    requires i < |svcs| && j < |svcs[i].ports| && k < |svcs| && l < |svcs[k].ports|
    requires svcs[i].ports[j].hostPort == svcs[k].ports[l].hostPort
    ensures i == k && j == l
  {
    var m := FlatIndex(svcs, i, j);
    var n := FlatIndex(svcs, k, l);
    assert !(m < n) && !(n < m);
    FlatIndexInjective(svcs, i, j, k, l);
  }

  lemma AllocationAssigns(svcs: seq<ServiceView>, reserved: set<int>, refuses: BindOracle)
    requires forall i :: 0 <= i < |svcs| ==> PortTable(svcs[i].ports)
    requires FirstFitRun(Flat(svcs), reserved, refuses, 0)
    ensures PortsAssigned(svcs)
  {
    AllocationSound(Flat(svcs), reserved, refuses, 0);
    forall i: nat, j: nat, k: nat, l: nat | SameHostPort(svcs, i, j, k, l) {
      HostPortDetermines(svcs, i, j, k, l);
    }
  }

  // All ports of one name render the same number: their common number in a
  // container, the host port of the first of them on the host.
  lemma RenderedByName(hosts: set<string>, s: ServiceView, j: nat, first: nat)
    requires PortTable(s.ports) && j < |s.ports|
    requires FindPort(s.ports, s.ports[j].name) == Some(first)
    ensures Rendered(hosts, s, s.ports[j])
         == if OnHost(hosts, s) then s.ports[first].hostPort else s.ports[first].number
  {
  }

  // The number s renders for a port is what its own text for that port becomes.
  lemma RenderedText(svcs: seq<ServiceView>, hosts: set<string>, s: ServiceView, j: nat)
    requires j < |s.ports| && Plain(s.ports[j].name) && IsInt64(s.ports[j].number)
    ensures var p := s.ports[j];
            ResolveText(svcs, hosts, s, PortText(p.protocol, p.name, p.number)) == Resolved(Show(Rendered(hosts, s, p)))
  {
    hide ResolveText, PortText, Show;
    var p := s.ports[j];
    OwnPortResolves(svcs, hosts, s, p.protocol, p.name, p.number, FindPort(s.ports, p.name).value);
  }

  // The address client gets for port `portLabel` of service i reaches the number
  // service i renders for that port itself, on transport t, except exactly when
  // client runs on the host, i runs in a container, and the first port
  // registered under the label has another protocol.
  lemma WiringExact(svcs: seq<ServiceView>, hosts: set<string>, client: ServiceView, i: nat, portLabel: string, j: nat)
    requires PortsAssigned(svcs) && UsableNames(svcs)
    requires i < |svcs| && j < |svcs[i].ports| && svcs[i].ports[j].name == portLabel
    ensures ResolveRef(svcs, hosts, client, svcs[i].name, portLabel).Some?
    ensures var (host, port) := ResolveRef(svcs, hosts, client, svcs[i].name, portLabel).value;
            var s := svcs[i];
            var first := FindPort(s.ports, portLabel).value;
            Received(hosts, client, s.ports[j].protocol, host, port, s, Rendered(hosts, s, s.ports[j])) <==>
            !(OnHost(hosts, client) && !OnHost(hosts, s) && s.ports[first].protocol != s.ports[j].protocol)
  {
    FindNamed(svcs, i);
    var s := svcs[i];
    var first := FindPort(s.ports, portLabel).value;
    var transport := s.ports[j].protocol;
    RenderedByName(hosts, s, j, first);
    assert ListensOn(hosts, s, transport, Rendered(hosts, s, s.ports[j]));
    if OnHost(hosts, client) && !OnHost(hosts, s) {
      PublishesOnly(svcs, hosts, i, first, transport);
    }
  }

  // The published host port of a container's port carries the protocol of that port only.
  lemma PublishesOnly(svcs: seq<ServiceView>, hosts: set<string>, i: nat, first: nat, transport: string)
    requires PortsAssigned(svcs) && i < |svcs| && first < |svcs[i].ports| && !OnHost(hosts, svcs[i])
    ensures var p := svcs[i].ports[first];
            Publishes(hosts, svcs[i], transport, p.hostPort, p.number) <==> p.protocol == transport
  {
    var s, p := svcs[i], svcs[i].ports[first];
    if Publishes(hosts, s, transport, p.hostPort, p.number) {
      var j: nat :| j < |s.ports| && s.ports[j].protocol == transport && s.ports[j].hostPort == p.hostPort;
      assert SameHostPort(svcs, i, first, i, j);
    }
  }

  lemma FindNamed(svcs: seq<ServiceView>, i: nat)
    requires UsableNames(svcs) && i < |svcs|
    ensures FindService(svcs, svcs[i].name) == Some(i)
  {
  }

  // The common case: a label registered under one protocol only is always
  // wired to what the target listens on.
  lemma WiringCorrect(
    svcs: seq<ServiceView>, hosts: set<string>, client: ServiceView, i: nat, portLabel: string, j: nat)
    requires PortsAssigned(svcs) && UsableNames(svcs)
    requires i < |svcs| && j < |svcs[i].ports| && svcs[i].ports[j].name == portLabel
    requires forall k :: 0 <= k < |svcs[i].ports| && svcs[i].ports[k].name == portLabel ==> k == j
    ensures var (host, port) := ResolveRef(svcs, hosts, client, svcs[i].name, portLabel).value;
            Received(hosts, client, svcs[i].ports[j].protocol, host, port, svcs[i],
              Rendered(hosts, svcs[i], svcs[i].ports[j]))
  {
    WiringExact(svcs, hosts, client, i, portLabel, j);
  }

  // The address leads to no other service and no other number.
  lemma WiringUnambiguous(
      svcs: seq<ServiceView>, hosts: set<string>, client: ServiceView, i: nat, portLabel: string, transport: string,
      k: nat, number: int)
    requires PortsAssigned(svcs) && UsableNames(svcs)
    requires i < |svcs| && k < |svcs| && FindPort(svcs[i].ports, portLabel).Some?
    ensures ResolveRef(svcs, hosts, client, svcs[i].name, portLabel).Some?
    ensures var (host, port) := ResolveRef(svcs, hosts, client, svcs[i].name, portLabel).value;
            Received(hosts, client, transport, host, port, svcs[k], number) ==>
            k == i && number == Rendered(hosts, svcs[i], svcs[i].ports[FindPort(svcs[i].ports, portLabel).value])
  {
    FindNamed(svcs, i);
    var (host, port) := ResolveRef(svcs, hosts, client, svcs[i].name, portLabel).value;
    var first := FindPort(svcs[i].ports, portLabel).value;
    if Received(hosts, client, transport, host, port, svcs[k], number) {
      var s := svcs[k];
      RenderedByName(hosts, svcs[i], first, first);
      if host == LOCALHOST || host == HOST_GATEWAY {
        assert port == svcs[i].ports[first].hostPort;
        if OnHost(hosts, s) {
          var j :| 0 <= j < |s.ports| && s.ports[j].protocol == transport && Rendered(hosts, s, s.ports[j]) == number;
          var f := FindPort(s.ports, s.ports[j].name).value;
          RenderedByName(hosts, s, j, f);
          assert SameHostPort(svcs, i, first, k, f);
        } else {
          assert Publishes(hosts, s, transport, port, number);
          var j :| 0 <= j < |s.ports| && s.ports[j].hostPort == port && s.ports[j].number == number;
          assert SameHostPort(svcs, i, first, k, j);
        }
      }
    }
  }

  // ----- a label under two protocols -----

  lemma PortTextDeclares(v: ServiceView, protocol: string, name: string, number: int)
    requires (protocol == TCP || protocol == UDP) && Plain(name) && IsInt64(number)
    ensures ApplyText(v, PortText(protocol, name, number))
         == match Declare(v.ports, Decl(name, number, protocol))
            case None => None
            case Some(ports) => Some(v.(ports := ports))
  {
    hide Scan, Print, Declare;
    var ps := [Act(if protocol == UDP then PortUDPDecl(name, number) else PortDecl(name, number))];
    ScanPrint(ps);
    var d := Decl(name, number, protocol);
    assert ps[1..] == [];
    assert DeclsOf(ps) == [d] + DeclsOf([]) == [d];
    assert RefsOf(ps) == [] + RefsOf([]) == [];
    assert [d][..0] == [] && v.nodeRefs + [] == v.nodeRefs;
    assert DeclareAll(v.ports, [d]) == Declare(v.ports, d);
  }

  // A beacon node declares its port under both protocols, UDP first.
  function Beacon(): BuildOp { WithArgs([PortText(UDP, "p2p", 9000), PortText(TCP, "p2p", 9000)]) }

  lemma BeaconPorts()
    ensures var built := ApplyOps(NewService("beacon"), [Beacon()]);
            built.Some? && built.value.name == "beacon" &&
            built.value.ports == [PortView("p2p", 9000, UDP, 0), PortView("p2p", 9000, TCP, 0)]
  {
    hide ApplyText, PortText;
    var s, texts := NewService("beacon"), [PortText(UDP, "p2p", 9000), PortText(TCP, "p2p", 9000)];
    PortTextDeclares(s, UDP, "p2p", 9000);
    var p, q := PortView("p2p", 9000, UDP, 0), PortView("p2p", 9000, TCP, 0);
    assert [] + [p] == [p] && Declare([], Decl("p2p", 9000, UDP)) == Some([p]);
    var t := s.(ports := [p]);
    PortTextDeclares(t, TCP, "p2p", 9000);
    assert !Present([p], DeclOf(q)) && [p] + [q] == [p, q];
    assert Declare([p], Decl("p2p", 9000, TCP)) == Some([p, q]);
    assert texts[..1] == [texts[0]] && texts[..1][..0] == [];
    assert ApplyTexts(s, texts[..1]) == Some(t);
    assert [Beacon()][..0] == [];
  }

  // On a host that refuses nothing, a client on the host that is told to dial the
  // TCP port of the beacon node in its container gets the host port of the UDP one.
  lemma MiswiredLabel()
    ensures var built := ApplyOps(NewService("beacon"), [Beacon()]);
            built.Some? &&
            var beacon := built.value.(ports := [PortView("p2p", 9000, UDP, 9000), PortView("p2p", 9000, TCP, 9001)]);
            var svcs, hosts := [beacon, NewService("client")], {"client"};
            SamePortsButHost(built.value.ports, beacon.ports) && FirstFitRun(Flat(svcs), {}, (n, p, q) => false, 0) &&
            ResolveRef(svcs, hosts, svcs[1], "beacon", "p2p") == Some((LOCALHOST, 9000)) &&
            Rendered(hosts, beacon, beacon.ports[1]) == 9000 &&
            !Received(hosts, svcs[1], TCP, LOCALHOST, 9000, beacon, 9000)
  {
    hide ApplyOps, Beacon, FirstFitRun, Received, Rendered, ResolveRef, UsableNames;
    BeaconPorts();
    var built := ApplyOps(NewService("beacon"), [Beacon()]).value;
    var beacon := built.(ports := [PortView("p2p", 9000, UDP, 9000), PortView("p2p", 9000, TCP, 9001)]);
    Miswired(beacon, NewService("client"), (n, p, q) => false);
  }

  lemma Miswired(beacon: ServiceView, client: ServiceView, refuses: BindOracle)
    requires beacon.name == "beacon" && client.name == "client" && client.ports == []
    requires beacon.ports == [PortView("p2p", 9000, UDP, 9000), PortView("p2p", 9000, TCP, 9001)]
    requires forall n: nat, p, q :: !refuses(n, p, q)
    ensures FirstFitRun(Flat([beacon, client]), {}, refuses, 0)
    ensures ResolveRef([beacon, client], {"client"}, client, "beacon", "p2p") == Some((LOCALHOST, 9000))
    ensures Rendered({"client"}, beacon, beacon.ports[1]) == 9000
    ensures !Received({"client"}, client, TCP, LOCALHOST, 9000, beacon, 9000)
  {
    hide Received, FirstFitRun, PortsAssigned, Flat;
    var svcs, hosts := [beacon, client], {"client"};
    FlatBeacon(beacon, client);
    TwoPortsRun(beacon.ports, refuses);
    AllocationAssigns(svcs, {}, refuses);
    assert UsableNames(svcs);
    MiswiredAddress(beacon, client);
    WiringExact(svcs, hosts, client, 0, "p2p", 1);
  }

  lemma FlatBeacon(beacon: ServiceView, client: ServiceView)
    requires client.ports == []
    ensures Flat([beacon, client]) == beacon.ports
  {
    assert [beacon, client][..1] == [beacon] && [beacon][..0] == [];
    assert Flat([beacon]) == [] + beacon.ports;
  }

  lemma MiswiredAddress(beacon: ServiceView, client: ServiceView)
    requires beacon.name == "beacon" && client.name == "client"
    requires beacon.ports == [PortView("p2p", 9000, UDP, 9000), PortView("p2p", 9000, TCP, 9001)]
    ensures FindPort(beacon.ports, "p2p") == Some(0)
    ensures ResolveRef([beacon, client], {"client"}, client, "beacon", "p2p") == Some((LOCALHOST, 9000))
    ensures Rendered({"client"}, beacon, beacon.ports[1]) == 9000
  {
  }

  lemma TwoPortsRun(ports: seq<PortView>, refuses: BindOracle)
    requires ports == [PortView("p2p", 9000, UDP, 9000), PortView("p2p", 9000, TCP, 9001)]
    requires forall n: nat, p, q :: !refuses(n, p, q)
    ensures FirstFitRun(ports, {}, refuses, 0)
  {
    assert ports[..0] == [] && ports[..1] == [ports[0]];
    assert Hosts(ports[..1]) == {9000};
    assert Hosts(ports[..0]) == {};
  }
}
