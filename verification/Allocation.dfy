// The host-port allocator: what a first-fit scan may return, what a whole run
// of scans guarantees, and when a run cannot fail.
module Allocation {
  import opened ServiceSpec

  // How many candidates one scan tries.
  const SCAN_WIDTH := 1000

  // Whether binding a candidate fails, for the number of the scan, the protocol
  // and the candidate.  A scan tries each candidate at most once, so this covers
  // every behaviour of the operating system over time.
  type BindOracle = (nat, string, int) -> bool

  predicate Blocked(reserved: set<int>, refuses: BindOracle, scan: nat, protocol: string, candidate: int) {
    candidate in reserved || refuses(scan, protocol, candidate)
  }

  ghost predicate FirstFit(
    number: int, protocol: string, reserved: set<int>, refuses: BindOracle, scan: nat, host: int) {
    number <= host < number + SCAN_WIDTH &&
    !Blocked(reserved, refuses, scan, protocol, host) &&
    forall q :: number <= q < host ==> Blocked(reserved, refuses, scan, protocol, q)
  }

  // A scan that finds nothing.
  ghost predicate Exhausts(number: int, protocol: string, reserved: set<int>, refuses: BindOracle, scan: nat) {
    forall host :: !FirstFit(number, protocol, reserved, refuses, scan, host)
  }

  function Hosts(ports: seq<PortView>): set<int> { set i | 0 <= i < |ports| :: ports[i].hostPort }

  // Port k got its host port in scan number scan + k, after the ports before it.
  ghost predicate FirstFitRun(ports: seq<PortView>, reserved: set<int>, refuses: BindOracle, scan: nat) {
    forall k :: 0 <= k < |ports| ==>
      FirstFit(ports[k].number, ports[k].protocol, reserved + Hosts(ports[..k]), refuses, scan + k, ports[k].hostPort)
  }

  // All ports of all services in the order they are visited.
  function Flat(svcs: seq<ServiceView>): seq<PortView> {
    if svcs == [] then [] else Flat(svcs[..|svcs| - 1]) + svcs[|svcs| - 1].ports
  }

  // v is u with other host ports.
  predicate SamePortsButHost(u: seq<PortView>, v: seq<PortView>) {
    |u| == |v| && forall j :: 0 <= j < |u| ==> v[j] == u[j].(hostPort := v[j].hostPort)
  }

  // ----- flattening -----

  lemma FlatSnoc(svcs: seq<ServiceView>, s: ServiceView)
    ensures Flat(svcs + [s]) == Flat(svcs) + s.ports
  {
    assert (svcs + [s])[..|svcs|] == svcs;
  }

  lemma FlatIndex(svcs: seq<ServiceView>, i: nat, j: nat) returns (n: nat)
    requires i < |svcs| && j < |svcs[i].ports|
    ensures n == |Flat(svcs[..i])| + j < |Flat(svcs)|
    ensures Flat(svcs)[n] == svcs[i].ports[j]
  {
    var init := svcs[..|svcs| - 1];
    if i == |svcs| - 1 {
      n := |Flat(init)| + j;
    } else {
      assert init[i] == svcs[i] && init[..i] == svcs[..i];
      n := FlatIndex(init, i, j);
    }
  }

  lemma {:induction false} FlatPrefix(svcs: seq<ServiceView>, i: nat, k: nat)
    requires i <= k <= |svcs|
    ensures |Flat(svcs[..i])| <= |Flat(svcs[..k])|
    decreases k - i
  {
    if i < k {
      FlatPrefix(svcs, i, k - 1);
      assert svcs[..k][..k - 1] == svcs[..k - 1];
    }
  }

  lemma FlatIndexInjective(svcs: seq<ServiceView>, i: nat, j: nat, k: nat, l: nat)
    requires i < |svcs| && j < |svcs[i].ports| && k < |svcs| && l < |svcs[k].ports|
    requires |Flat(svcs[..i])| + j == |Flat(svcs[..k])| + l
    ensures i == k && j == l
  {
    if i < k {
      assert svcs[..i + 1][..i] == svcs[..i];
      FlatPrefix(svcs, i + 1, k);
    } else if k < i {
      assert svcs[..k + 1][..k] == svcs[..k];
      FlatPrefix(svcs, k + 1, i);
    }
  }

  // ----- soundness -----

  lemma HostsSnoc(ports: seq<PortView>, p: PortView)
    ensures Hosts(ports + [p]) == Hosts(ports) + {p.hostPort}
  {
    var all := ports + [p];
    assert all[|ports|] == p;
    forall h
      ensures h in Hosts(all) <==> h in Hosts(ports) || h == p.hostPort
    {
      if h in Hosts(ports) {
        var i :| 0 <= i < |ports| && ports[i].hostPort == h;
        assert all[i].hostPort == h;
      }
    }
  }

  lemma {:induction false} HostsAppend(a: seq<PortView>, b: seq<PortView>)
    ensures Hosts(a + b) == Hosts(a) + Hosts(b)
  {
    if b == [] {
      assert a + b == a;
    } else {
      var init, last := b[..|b| - 1], b[|b| - 1];
      HostsAppend(a, init);
      assert a + b == (a + init) + [last];
      HostsSnoc(a + init, last);
      assert b == init + [last];
      HostsSnoc(init, last);
    }
  }

  lemma RunSnoc(ports: seq<PortView>, p: PortView, reserved: set<int>, refuses: BindOracle, scan: nat)
    requires FirstFitRun(ports, reserved, refuses, scan)
    requires FirstFit(p.number, p.protocol, reserved + Hosts(ports), refuses, scan + |ports|, p.hostPort)
    ensures FirstFitRun(ports + [p], reserved, refuses, scan)
  {
    var all := ports + [p];
    forall k | 0 <= k < |all|
      ensures FirstFit(all[k].number, all[k].protocol, reserved + Hosts(all[..k]), refuses, scan + k, all[k].hostPort)
    {
      if k < |ports| {
        assert all[..k] == ports[..k] && all[k] == ports[k];
      } else {
        assert all[..k] == ports;
      }
    }
  }

  lemma RunAppend(a: seq<PortView>, b: seq<PortView>, reserved: set<int>, refuses: BindOracle, scan: nat)
    requires FirstFitRun(a, reserved, refuses, scan)
    requires FirstFitRun(b, reserved + Hosts(a), refuses, scan + |a|)
    ensures FirstFitRun(a + b, reserved, refuses, scan)
  {
    hide FirstFit;
    var all := a + b;
    forall k | 0 <= k < |all|
      ensures FirstFit(all[k].number, all[k].protocol, reserved + Hosts(all[..k]), refuses, scan + k, all[k].hostPort)
    {
      if k < |a| {
        assert all[..k] == a[..k] && all[k] == a[k];
      } else {
        var j := k - |a|;
        assert all[..k] == a + b[..j] && all[k] == b[j];
        HostsAppend(a, b[..j]);
        assert reserved + Hosts(all[..k]) == reserved + Hosts(a) + Hosts(b[..j]);
      }
    }
  }

  // Host ports are pairwise distinct, none was reserved before, and each lies
  // in the window of its port.
  lemma AllocationSound(ports: seq<PortView>, reserved: set<int>, refuses: BindOracle, scan: nat)
    requires FirstFitRun(ports, reserved, refuses, scan)
    ensures forall i, j :: 0 <= i < j < |ports| ==> ports[i].hostPort != ports[j].hostPort
    ensures forall i :: 0 <= i < |ports| ==>
              ports[i].hostPort !in reserved && ports[i].number <= ports[i].hostPort <= ports[i].number + 999
    ensures |Hosts(ports)| == |ports|
  {
    forall i, j | 0 <= i < j < |ports|
      ensures ports[i].hostPort != ports[j].hostPort
    {
      assert ports[..j][i] == ports[i];
      assert ports[i].hostPort in Hosts(ports[..j]);
    }
    DistinctHosts(ports);
  }

  lemma {:induction false} DistinctHosts(ports: seq<PortView>)
    requires forall i, j :: 0 <= i < j < |ports| ==> ports[i].hostPort != ports[j].hostPort
    ensures |Hosts(ports)| == |ports|
  {
    if ports != [] {
      var init, last := ports[..|ports| - 1], ports[|ports| - 1];
      DistinctHosts(init);
      assert ports == init + [last];
      HostsSnoc(init, last);
      assert last.hostPort !in Hosts(init);
    }
  }

  // A run is determined by the declarations, the ports reserved before and the oracle.
  lemma {:induction false} AllocationUnique(
    u: seq<PortView>, v: seq<PortView>, reserved: set<int>, refuses: BindOracle, scan: nat)
    requires SamePortsButHost(u, v)
    requires FirstFitRun(u, reserved, refuses, scan) && FirstFitRun(v, reserved, refuses, scan)
    ensures u == v
  {
    if u != [] {
      var n := |u| - 1;
      RunPrefix(u, reserved, refuses, scan, n);
      RunPrefix(v, reserved, refuses, scan, n);
      AllocationUnique(u[..n], v[..n], reserved, refuses, scan);
      var before := reserved + Hosts(u[..n]);
      assert u[..n] == v[..n];
      assert FirstFit(u[n].number, u[n].protocol, before, refuses, scan + n, u[n].hostPort);
      assert FirstFit(u[n].number, u[n].protocol, before, refuses, scan + n, v[n].hostPort);
      FirstFitUnique(u[n].number, u[n].protocol, before, refuses, scan + n, u[n].hostPort, v[n].hostPort);
      assert u == u[..n] + [u[n]] && v == v[..n] + [v[n]];
    }
  }

  lemma RunPrefix(ports: seq<PortView>, reserved: set<int>, refuses: BindOracle, scan: nat, n: nat)
    requires n <= |ports| && FirstFitRun(ports, reserved, refuses, scan)
    ensures FirstFitRun(ports[..n], reserved, refuses, scan)
  {
    forall k | 0 <= k < n
      ensures FirstFit(ports[..n][k].number, ports[..n][k].protocol, reserved + Hosts(ports[..n][..k]), refuses,
                       scan + k, ports[..n][k].hostPort)
    {
      assert ports[..n][..k] == ports[..k];
    }
  }

  lemma FirstFitUnique(
    number: int, protocol: string, reserved: set<int>, refuses: BindOracle, scan: nat, p: int, q: int)
    requires FirstFit(number, protocol, reserved, refuses, scan, p)
    requires FirstFit(number, protocol, reserved, refuses, scan, q)
    ensures p == q
  {
  }

  // ----- completeness -----

  function Window(number: int, width: nat): (r: set<int>)
    ensures forall q :: q in r <==> number <= q < number + width
    ensures |r| == width
  {
    if width == 0 then {} else Window(number, width - 1) + {number + width - 1}
  }

  function Refused(number: int, protocol: string, refuses: BindOracle, scan: nat): set<int> {
    set q | number <= q < number + SCAN_WIDTH && refuses(scan, protocol, q)
  }

  lemma UnionCovers(a: set<int>, b: set<int>, c: set<int>)
    requires a <= b + c
    ensures |a| <= |b| + |c|
  {
    var u := b + c;
    assert a * u == a;
    assert |u - a| + |u * a| == |u|;
    assert u * a == a;
  }

  // Fewer blockers than candidates leave a candidate free.
  lemma ScanCannotExhaust(number: int, protocol: string, reserved: set<int>, refuses: BindOracle, scan: nat)
    requires |reserved| + |Refused(number, protocol, refuses, scan)| < SCAN_WIDTH
    ensures exists q :: number <= q < number + SCAN_WIDTH && !Blocked(reserved, refuses, scan, protocol, q)
  {
    if forall q :: number <= q < number + SCAN_WIDTH ==> Blocked(reserved, refuses, scan, protocol, q) {
      var window, refused := Window(number, SCAN_WIDTH), Refused(number, protocol, refuses, scan);
      forall q | q in window
        ensures q in reserved + refused
      {
        assert Blocked(reserved, refuses, scan, protocol, q);
      }
      UnionCovers(window, reserved, refused);
    }
  }

  // Some choice of host ports is a first-fit run.
  ghost predicate Allocatable(ports: seq<PortView>, reserved: set<int>, refuses: BindOracle, scan: nat) {
    exists v :: SamePortsButHost(ports, v) && FirstFitRun(v, reserved, refuses, scan)
  }

  // Whenever a scan starts, fewer ports are taken and fewer of its candidates
  // refused, together, than the scan has candidates.
  ghost predicate RoomInEveryScan(ports: seq<PortView>, reserved: set<int>, refuses: BindOracle, scan: nat) {
    forall k :: 0 <= k < |ports| ==>
      |reserved| + k + |Refused(ports[k].number, ports[k].protocol, refuses, scan + k)| < SCAN_WIDTH
  }

  lemma LeastFree(number: int, protocol: string, reserved: set<int>, refuses: BindOracle, scan: nat, q: int)
    returns (p: int)
    requires number <= q < number + SCAN_WIDTH && !Blocked(reserved, refuses, scan, protocol, q)
    ensures FirstFit(number, protocol, reserved, refuses, scan, p)
    decreases q - number
  {
    if r :| number <= r < q && !Blocked(reserved, refuses, scan, protocol, r) {
      p := LeastFree(number, protocol, reserved, refuses, scan, r);
    } else {
      p := q;
    }
  }

  // With room in every scan all ports get a host port.
  lemma {:induction false} RoomAllocates(ports: seq<PortView>, reserved: set<int>, refuses: BindOracle, scan: nat)
    requires RoomInEveryScan(ports, reserved, refuses, scan)
    ensures Allocatable(ports, reserved, refuses, scan)
  {
    if ports == [] {
      assert SamePortsButHost(ports, []) && FirstFitRun([], reserved, refuses, scan);
    } else {
      var n := |ports| - 1;
      var init, last := ports[..n], ports[n];
      assert forall k :: 0 <= k < n ==> init[k] == ports[k];
      RoomAllocates(init, reserved, refuses, scan);
      var v: seq<PortView> :| SamePortsButHost(init, v) && FirstFitRun(v, reserved, refuses, scan);
      RoomForOne(last, v, reserved, refuses, scan);
      var h :| FirstFit(last.number, last.protocol, reserved + Hosts(v), refuses, scan + n, h);
      var w := v + [last.(hostPort := h)];
      RunSnoc(v, last.(hostPort := h), reserved, refuses, scan);
      assert SamePortsButHost(ports, w);
    }
  }

  lemma RoomForOne(p: PortView, before: seq<PortView>, reserved: set<int>, refuses: BindOracle, scan: nat)
    requires FirstFitRun(before, reserved, refuses, scan)
    requires |reserved| + |before| + |Refused(p.number, p.protocol, refuses, scan + |before|)| < SCAN_WIDTH
    ensures !Exhausts(p.number, p.protocol, reserved + Hosts(before), refuses, scan + |before|)
  {
    hide FirstFit, FirstFitRun;
    var taken := reserved + Hosts(before);
    AllocationSound(before, reserved, refuses, scan);
    UnionCovers(taken, reserved, Hosts(before));
    ScanCannotExhaust(p.number, p.protocol, taken, refuses, scan + |before|);
    var q :| p.number <= q < p.number + SCAN_WIDTH && !Blocked(taken, refuses, scan + |before|, p.protocol, q);
    var h := LeastFree(p.number, p.protocol, taken, refuses, scan + |before|, q);
  }

  // In no scan of the run are more than bound candidates refused.
  lemma BoundedRefusalsAllocate(
      ports: seq<PortView>, reserved: set<int>, refuses: BindOracle, scan: nat, bound: nat)
    requires forall k :: 0 <= k < |ports| ==>
               |Refused(ports[k].number, ports[k].protocol, refuses, scan + k)| <= bound
    requires |reserved| + |ports| + bound <= 1000
    ensures Allocatable(ports, reserved, refuses, scan)
  {
    RoomAllocates(ports, reserved, refuses, scan);
  }

  // An ordinary host refuses only candidates that are busy or no port numbers.
  lemma OrdinaryHostAllocates(
      ports: seq<PortView>, reserved: set<int>, refuses: BindOracle, scan: nat, busy: set<int>)
    requires forall n: nat, protocol, q :: refuses(n, protocol, q) ==> q in busy || q < 0 || q > 65535
    requires forall k :: 0 <= k < |ports| ==> 0 <= ports[k].number && ports[k].number + 999 <= 65535
    requires |reserved| + |ports| + |busy| <= 1000
    ensures Allocatable(ports, reserved, refuses, scan)
  {
    forall k | 0 <= k < |ports|
      ensures |Refused(ports[k].number, ports[k].protocol, refuses, scan + k)| <= |busy|
    {
      var refused := Refused(ports[k].number, ports[k].protocol, refuses, scan + k);
      UnionCovers(refused, busy, {});
    }
    BoundedRefusalsAllocate(ports, reserved, refuses, scan, |busy|);
  }

  // ----- when the loops give up -----

  // If there is a run at all, it goes on after the ports that have been given.
  lemma RunGoesOn(
      ports: seq<PortView>, v: seq<PortView>, k: nat, reserved: set<int>, refuses: BindOracle, scan: nat)
    requires SamePortsButHost(ports, v) && k < |v|
    requires FirstFitRun(v[..k], reserved, refuses, scan)
    requires Allocatable(ports, reserved, refuses, scan)
    ensures !Exhausts(v[k].number, v[k].protocol, reserved + Hosts(v[..k]), refuses, scan + k)
  {
    hide FirstFit;
    var w: seq<PortView> :| SamePortsButHost(ports, w) && FirstFitRun(w, reserved, refuses, scan);
    SameAsThird(ports, v, w);
    RunPrefix(w, reserved, refuses, scan, k);
    AllocationUnique(v[..k], w[..k], reserved, refuses, scan);
    assert FirstFit(w[k].number, w[k].protocol, reserved + Hosts(w[..k]), refuses, scan + k, w[k].hostPort);
  }

  lemma SameAsThird(u: seq<PortView>, v: seq<PortView>, w: seq<PortView>)
    requires SamePortsButHost(u, v) && SamePortsButHost(u, w)
    ensures SamePortsButHost(v, w)
    ensures forall k :: 0 <= k <= |v| ==> SamePortsButHost(v[..k], w[..k])
  {
    forall j | 0 <= j < |v|
      ensures w[j] == v[j].(hostPort := w[j].hostPort)
    {
      assert v[j] == u[j].(hostPort := v[j].hostPort) && w[j] == u[j].(hostPort := w[j].hostPort);
    }
  }

  lemma RunMiddle(ports: seq<PortView>, reserved: set<int>, refuses: BindOracle, scan: nat, m: nat, n: nat)
    requires m + n <= |ports| && FirstFitRun(ports, reserved, refuses, scan)
    ensures FirstFitRun(ports[m..m + n], reserved + Hosts(ports[..m]), refuses, scan + m)
  {
    hide FirstFit;
    var middle := ports[m..m + n];
    forall k | 0 <= k < n
      ensures FirstFit(middle[k].number, middle[k].protocol, reserved + Hosts(ports[..m]) + Hosts(middle[..k]), refuses,
                       scan + m + k, middle[k].hostPort)
    {
      assert ports[..m + k] == ports[..m] + middle[..k];
      HostsAppend(ports[..m], middle[..k]);
      assert reserved + Hosts(ports[..m + k]) == reserved + Hosts(ports[..m]) + Hosts(middle[..k]);
    }
  }

  // Where the ports of service i are among all ports.
  lemma {:induction false} FlatSlice(svcs: seq<ServiceView>, i: nat)
    requires i < |svcs|
    ensures var m := |Flat(svcs[..i])|;
            m + |svcs[i].ports| <= |Flat(svcs)| &&
            Flat(svcs)[..m] == Flat(svcs[..i]) && Flat(svcs)[m..m + |svcs[i].ports|] == svcs[i].ports
  {
    var init := svcs[..|svcs| - 1];
    if i < |init| {
      FlatSlice(init, i);
      assert init[..i] == svcs[..i] && init[i] == svcs[i];
    }
  }

  lemma {:induction false} FlatSame(us: seq<ServiceView>, vs: seq<ServiceView>)
    requires |us| == |vs| && forall i :: 0 <= i < |us| ==> SamePortsButHost(us[i].ports, vs[i].ports)
    ensures SamePortsButHost(Flat(us), Flat(vs))
  {
    if us != [] {
      FlatSame(us[..|us| - 1], vs[..|vs| - 1]);
    }
  }

  // A run of all ports holds a run of the ports that follow those already given.
  lemma MiddleAllocates(
      all: seq<PortView>, before: seq<PortView>, n: nat, reserved: set<int>, refuses: BindOracle)
    requires |before| + n <= |all| && SamePortsButHost(all[..|before|], before)
    requires FirstFitRun(before, reserved, refuses, 0) && Allocatable(all, reserved, refuses, 0)
    ensures Allocatable(all[|before|..|before| + n], reserved + Hosts(before), refuses, |before|)
  {
    hide FirstFit, FirstFitRun, SamePortsButHost;
    var m := |before|;
    var w: seq<PortView> :| SamePortsButHost(all, w) && FirstFitRun(w, reserved, refuses, 0);
    SameSlices(all, w, m, n);
    SameAsThird(all[..m], before, w[..m]);
    assert before[..m] == before && w[..m][..m] == w[..m];
    RunPrefix(w, reserved, refuses, 0, m);
    AllocationUnique(before, w[..m], reserved, refuses, 0);
    RunMiddle(w, reserved, refuses, 0, m, n);
  }

  // If the ports of the next service cannot be allocated after those before it,
  // all ports together cannot be.
  lemma NoRunOverall(start: seq<ServiceView>, done: seq<ServiceView>, reserved: set<int>, refuses: BindOracle)
    requires |done| < |start|
    requires forall i :: 0 <= i < |done| ==> SamePortsButHost(start[i].ports, done[i].ports)
    requires FirstFitRun(Flat(done), reserved, refuses, 0)
    requires !Allocatable(start[|done|].ports, reserved + Hosts(Flat(done)), refuses, |Flat(done)|)
    ensures !Allocatable(Flat(start), reserved, refuses, 0)
  {
    hide Flat, FirstFitRun, Allocatable, Hosts;
    var n := |done|;
    FlatSlice(start, n);
    FlatSame(start[..n], done);
    if Allocatable(Flat(start), reserved, refuses, 0) {
      MiddleAllocates(Flat(start), Flat(done), |start[n].ports|, reserved, refuses);
    }
  }

  lemma SameSlices(u: seq<PortView>, v: seq<PortView>, m: nat, n: nat)
    requires SamePortsButHost(u, v) && m + n <= |u|
    ensures |v| == |u| && SamePortsButHost(u[..m], v[..m]) && SamePortsButHost(u[m..m + n], v[m..m + n])
  {
  }

  // Host ports given before do not matter.
  lemma AllocatableSame(u: seq<PortView>, v: seq<PortView>, reserved: set<int>, refuses: BindOracle, scan: nat)
    requires SamePortsButHost(u, v)
    ensures Allocatable(u, reserved, refuses, scan) <==> Allocatable(v, reserved, refuses, scan)
  {
    hide FirstFitRun;
    if w: seq<PortView> :| SamePortsButHost(u, w) && FirstFitRun(w, reserved, refuses, scan) {
      SameAsThird(u, v, w);
    }
    if w: seq<PortView> :| SamePortsButHost(v, w) && FirstFitRun(w, reserved, refuses, scan) {
      forall j | 0 <= j < |u|
        ensures w[j] == u[j].(hostPort := w[j].hostPort)
      {
        assert v[j] == u[j].(hostPort := v[j].hostPort) && w[j] == v[j].(hostPort := w[j].hostPort);
      }
      assert SamePortsButHost(u, w);
    }
  }
}
