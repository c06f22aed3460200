// The local runner: which services run on the host, which host port each port
// gets, what docker compose is told and what is launched on the host.
module LocalRunners {
  import opened Text
  import opened Template
  import opened ServiceSpec
  import opened Manifests
  import opened Allocation
  import opened Resolution

  // ----- overrides: an executable path or a docker image -----

  // strings.Split(v, ":") when it has exactly two parts.
  function SplitImage(v: string): (r: Option<(string, string)>)
    ensures r.Some? ==> r.value.0 + ":" + r.value.1 == v && ':' !in r.value.0 && ':' !in r.value.1
  {
    var i :- IndexOf(v, ':');
    if ':' in v[i + 1..] then None
    else
      assert v == v[..i] + [v[i]] + v[i + 1..];
      Some((v[..i], v[i + 1..]))
  }

  // An image override is accepted exactly when it is two parts around a colon.
  lemma SplitImageExact(v: string, image: string, tag: string)
    ensures SplitImage(v) == Some((image, tag)) <==> v == image + ":" + tag && ':' !in image && ':' !in tag
  {
    if v == image + ":" + tag && ':' !in image && ':' !in tag {
      var n := |image|;
      var i := IndexOf(v, ':').value;
      assert v[..n] == image && v[n] == ':' && v[n + 1..] == tag;
      assert forall j :: 0 <= j < n ==> v[j] == image[j];
      assert forall j :: 0 <= j < i ==> v[..i][j] == v[j];
    }
  }

  // k names an image override that can be applied.
  predicate Applicable(svcs: seq<ServiceView>, k: string, v: string) {
    SplitImage(v).Some? && FindService(svcs, k).Some?
  }

  // Service i after the image overrides with the given keys were applied.
  function Overridden(
    svcs: seq<ServiceView>, overrides: map<string, string>, stat: string -> bool, keys: set<string>,
    i: nat): ServiceView
    requires i < |svcs|
  {
    var s := svcs[i];
    if FindService(svcs, s.name) == Some(i) && s.name in keys && s.name in overrides && !stat(overrides[s.name])
       && SplitImage(overrides[s.name]).Some?
    then
      var (image, tag) := SplitImage(overrides[s.name]).value;
      s.(image := image, tag := tag)
    else s
  }

  datatype PartitionResult = Partitioned(hosts: map<string, string>) | InvalidImage | ServiceNotFound

  // Applies one image override; svcs is the manifest before any was applied.
  method ApplyImage(
    manifest: Manifest, overrides: map<string, string>, stat: string -> bool, k: string,
    ghost svcs: seq<ServiceView>, ghost done: set<string>)
    returns (failure: Option<PartitionResult>)
    requires manifest.Valid()
    requires k in overrides && !stat(overrides[k]) && k !in done
    requires |svcs| == |manifest.services|
    requires forall i: nat :: i < |svcs| ==> manifest.services[i].View() == Overridden(svcs, overrides, stat, done, i)
    modifies manifest.services
    ensures manifest.Valid()
    ensures failure.Some? ==> !failure.value.Partitioned?
    ensures failure.None? <==> Applicable(svcs, k, overrides[k])
    ensures failure.None? ==>
              forall i: nat :: i < |svcs| ==>
                manifest.services[i].View() == Overridden(svcs, overrides, stat, done + {k}, i)
  {
    hide SplitImage, PortTable, Overridden;
    var parts := SplitImage(overrides[k]);
    if parts.None? {
      return Some(InvalidImage);
    }
    var service := GetOverridden(manifest, svcs, overrides, stat, k, done);
    if service == null {
      return Some(ServiceNotFound);
    }
    ghost var n := FindService(svcs, k).value;
    assert service == manifest.services[n];
    OverriddenHere(svcs, overrides, stat, done, k);
    OverriddenElsewhere(svcs, overrides, stat, done, k);
    service.image, service.tag := parts.value.0, parts.value.1;
    return None;
  }

  method GetOverridden(
    manifest: Manifest, ghost svcs: seq<ServiceView>, ghost overrides: map<string, string>, ghost stat: string -> bool,
    k: string, ghost done: set<string>)
    returns (service: Service?)
    requires manifest.Valid() && |svcs| == |manifest.services|
    requires forall i: nat :: i < |svcs| ==> manifest.services[i].View() == Overridden(svcs, overrides, stat, done, i)
    ensures match FindService(svcs, k)
            case None => service == null
            case Some(i) => service == manifest.services[i]
  {
    forall i: nat | i < |svcs|
      ensures manifest.View()[i].name == svcs[i].name
    {
      OverriddenDeploys(svcs, overrides, stat, done, i);
    }
    SameNamesFind(svcs, manifest.View(), k);
    service := manifest.GetService(k);
  }

  lemma OverriddenHere(
    svcs: seq<ServiceView>, overrides: map<string, string>, stat: string -> bool, done: set<string>, k: string)
    requires k in overrides && !stat(overrides[k]) && k !in done && Applicable(svcs, k, overrides[k])
    ensures var n := FindService(svcs, k).value;
            var (image, tag) := SplitImage(overrides[k]).value;
            Overridden(svcs, overrides, stat, done, n) == svcs[n] &&
            Overridden(svcs, overrides, stat, done + {k}, n) == svcs[n].(image := image, tag := tag)
  {
  }

  // Handling one more key touches only the service of that name.
  lemma OverriddenElsewhere(
    svcs: seq<ServiceView>, overrides: map<string, string>, stat: string -> bool, done: set<string>, k: string)
    ensures forall i: nat :: i < |svcs| && FindService(svcs, k) != Some(i) ==>
              Overridden(svcs, overrides, stat, done + {k}, i) == Overridden(svcs, overrides, stat, done, i)
  {
  }

  // Splits the overrides into host executables and docker images, applying the
  // images; the overrides are visited in an arbitrary order.
  method PartitionOverrides(manifest: Manifest, overrides: map<string, string>, stat: string -> bool)
    returns (r: PartitionResult)
    requires manifest.Valid()
    modifies manifest.services
    ensures manifest.Valid()
    ensures r.Partitioned? <==> forall k :: k in overrides && !stat(overrides[k]) ==>
              Applicable(old(manifest.View()), k, overrides[k])
    ensures r.Partitioned? ==>
              r.hosts == (map k | k in overrides && stat(overrides[k]) :: overrides[k]) &&
              forall i: nat :: i < |manifest.services| ==>
                manifest.services[i].View() == Overridden(old(manifest.View()), overrides, stat, overrides.Keys, i)
  {
    hide Applicable, Overridden, Views, PortTable;
    ghost var svcs := manifest.View();
    ghost var done: set<string> := {};
    UntouchedAtStart(svcs, overrides, stat);
    var hosts := overrides;
    var todo := overrides.Keys;
    while todo != {}
      invariant manifest.Valid() && done == overrides.Keys - todo && todo <= overrides.Keys
      invariant hosts == map k | k in overrides && (k in todo || stat(overrides[k])) :: overrides[k]
      invariant forall k :: k in done && !stat(overrides[k]) ==> Applicable(svcs, k, overrides[k])
      invariant forall i: nat :: i < |manifest.services| ==>
                  manifest.services[i].View() == Overridden(svcs, overrides, stat, done, i)
    {
      var k :| k in todo;
      if !stat(overrides[k]) {
        var failure := ApplyImage(manifest, overrides, stat, k, svcs, done);
        if failure.Some? {
          return failure.value;
        }
        hosts := hosts - {k};
      } else {
        HostKeySkipped(svcs, overrides, stat, done, k);
      }
      todo := todo - {k};
      done := done + {k};
    }
    assert done == overrides.Keys;
    return Partitioned(hosts);
  }

  lemma UntouchedAtStart(svcs: seq<ServiceView>, overrides: map<string, string>, stat: string -> bool)
    ensures forall i: nat :: i < |svcs| ==> Overridden(svcs, overrides, stat, {}, i) == svcs[i]
  {
  }

  lemma HostKeySkipped(
    svcs: seq<ServiceView>, overrides: map<string, string>, stat: string -> bool, done: set<string>, k: string)
    requires k in overrides && stat(overrides[k])
    ensures forall i: nat :: i < |svcs| ==>
              Overridden(svcs, overrides, stat, done + {k}, i) == Overridden(svcs, overrides, stat, done, i)
  {
  }

  lemma {:induction false} SameNamesFind(u: seq<ServiceView>, v: seq<ServiceView>, name: string)
    requires |u| == |v| && forall i :: 0 <= i < |u| ==> u[i].name == v[i].name
    ensures FindService(u, name) == FindService(v, name)
  {
    if u != [] {
      SameNamesFind(u[1..], v[1..], name);
    }
  }

  // What a caller relies on: after a successful partition a service is either a
  // host executable or its image is the one asked for.
  lemma PartitionMeaning(svcs: seq<ServiceView>, overrides: map<string, string>, stat: string -> bool, k: string)
    requires k in overrides && !stat(overrides[k]) && Applicable(svcs, k, overrides[k])
    ensures var after := Overridden(svcs, overrides, stat, overrides.Keys, FindService(svcs, k).value);
            after.image + ":" + after.tag == overrides[k]
  {
  }

  // A service that no image override names, or not by the first of its name, is
  // left as it is.
  lemma PartitionLeaves(
    svcs: seq<ServiceView>, overrides: map<string, string>, stat: string -> bool, i: nat)
    requires i < |svcs|
    requires svcs[i].name !in overrides || stat(overrides[svcs[i].name]) ||
             exists k :: 0 <= k < i && svcs[k].name == svcs[i].name
    ensures Overridden(svcs, overrides, stat, overrides.Keys, i) == svcs[i]
  {
  }

  lemma OverriddenDeploys(
    svcs: seq<ServiceView>, overrides: map<string, string>, stat: string -> bool, keys: set<string>, i: nat)
    requires i < |svcs|
    ensures Deployed(svcs[i], Overridden(svcs, overrides, stat, keys, i))
  {
  }

  // ----- the deployment -----

  datatype Reservation = Reserved(port: int) | InvalidProtocol | Exhausted

  // One entry of the compose file.
  datatype ComposeService = ComposeService(
    image: string,
    command: seq<string>,
    environment: map<string, string>,
    published: seq<PortView>,
    dependsOn: map<string, Condition>,
    healthcheck: Option<ReadyCheck>,
    entrypoint: string)

  datatype HostProcess = HostProcess(name: string, path: string, args: seq<string>)

  datatype RunResult =
    | Launched(compose: map<string, ComposeService>, launched: seq<HostProcess>)
    | ReservePanic
    | TemplateFailure
    | ImageMissing

  // args and env are the resolved texts of s.
  predicate TextsResolveTo(
    svcs: seq<ServiceView>, hosts: set<string>, s: ServiceView, args: seq<string>, env: map<string, string>)
  {
    |args| == |s.args| && env.Keys == s.env.Keys &&
    (forall i :: 0 <= i < |args| ==> ResolveText(svcs, hosts, s, s.args[i]) == Resolved(args[i])) &&
    (forall k :: k in env ==> ResolveText(svcs, hosts, s, s.env[k]) == Resolved(env[k]))
  }

  predicate TextsResolve(svcs: seq<ServiceView>, hosts: set<string>, s: ServiceView) {
    (forall i :: 0 <= i < |s.args| ==> ResolveText(svcs, hosts, s, s.args[i]).Resolved?) &&
    (forall k :: k in s.env ==> ResolveText(svcs, hosts, s, s.env[k]).Resolved?)
  }

  predicate SomeTextFails(svcs: seq<ServiceView>, hosts: set<string>) {
    exists i :: 0 <= i < |svcs| && !TextsResolve(svcs, hosts, svcs[i])
  }

  // Among the first n services a container has no image.
  predicate SomeImageMissing(svcs: seq<ServiceView>, hosts: set<string>, imageExists: string -> bool, n: nat)
    requires n <= |svcs|
  {
    exists i :: 0 <= i < n && svcs[i].name !in hosts && !imageExists(svcs[i].image + ":" + svcs[i].tag)
  }

  // The last condition given for each name.
  function DependencyMap(ds: seq<DependsOn>): (r: map<string, Condition>)
    ensures forall n :: n in r <==> exists k :: 0 <= k < |ds| && ds[k].name == n
  {
    if ds == [] then map[]
    else
      var last := ds[|ds| - 1];
      assert forall k :: 0 <= k < |ds| - 1 ==> ds[..|ds| - 1][k] == ds[k];
      DependencyMap(ds[..|ds| - 1])[last.name := last.condition]
  }

  // The last dependency on a name gives its condition.
  lemma {:induction false} LastDependencyWins(ds: seq<DependsOn>, k: nat)
    requires k < |ds| && forall l :: k < l < |ds| ==> ds[l].name != ds[k].name
    ensures ds[k].name in DependencyMap(ds) && DependencyMap(ds)[ds[k].name] == ds[k].condition
  {
    var n := |ds| - 1;
    if k < n {
      assert forall l :: 0 <= l < n ==> ds[..n][l] == ds[l];
      LastDependencyWins(ds[..n], k);
    }
  }

  predicate ComposeOf(svcs: seq<ServiceView>, hosts: set<string>, s: ServiceView, c: ComposeService) {
    c.image == s.image + ":" + s.tag && c.published == s.ports && c.dependsOn == DependencyMap(s.dependsOn) &&
    c.healthcheck == s.readyCheck && c.entrypoint == s.entrypoint &&
    TextsResolveTo(svcs, hosts, s, c.command, c.environment)
  }

  // The compose file after the first n services: an entry for every name of a
  // container service, describing the last service of that name.
  predicate ComposeFile(svcs: seq<ServiceView>, hosts: set<string>, compose: map<string, ComposeService>, n: nat)
    requires n <= |svcs|
  {
    (forall name :: name in compose ==> name !in hosts && exists i :: 0 <= i < n && svcs[i].name == name) &&
    (forall i :: 0 <= i < n && svcs[i].name !in hosts ==> svcs[i].name in compose) &&
    (forall i :: 0 <= i < n && svcs[i].name !in hosts && Latest(svcs, n, i) ==>
       ComposeOf(svcs, hosts, svcs[i], compose[svcs[i].name]))
  }

  // Service i is the last of its name among the first n.
  predicate Latest(svcs: seq<ServiceView>, n: nat, i: int)
    requires n <= |svcs|
  {
    0 <= i < n && forall k :: i < k < n ==> svcs[k].name != svcs[i].name
  }

  // The host services among the first n, in order.
  function HostServices(svcs: seq<ServiceView>, hosts: set<string>): seq<ServiceView> {
    if svcs == [] then []
    else
      var last := svcs[|svcs| - 1];
      HostServices(svcs[..|svcs| - 1], hosts) + if last.name in hosts then [last] else []
  }

  predicate LaunchOf(svcs: seq<ServiceView>, overrides: map<string, string>, s: ServiceView, p: HostProcess) {
    p.name == s.name && s.name in overrides && p.path == overrides[s.name] &&
    |p.args| == |s.args| &&
    forall i :: 0 <= i < |p.args| ==> ResolveText(svcs, overrides.Keys, s, s.args[i]) == Resolved(p.args[i])
  }

  class LocalRunner {
    const manifest: Manifest
    const overrides: map<string, string>
    var reservedPorts: map<int, bool>

    constructor (manifest: Manifest, overrides: map<string, string>)
      ensures this.manifest == manifest && this.overrides == overrides && reservedPorts == map[]
    {
      this.manifest, this.overrides, reservedPorts := manifest, overrides, map[];
    }

    method ReservePort(startPort: int, protocol: string, refuses: BindOracle, scan: nat) returns (r: Reservation)
      modifies this`reservedPorts
      ensures match r
              case Reserved(p) =>
                (protocol == TCP || protocol == UDP) && reservedPorts == old(reservedPorts)[p := true] &&
                FirstFit(startPort, protocol, old(reservedPorts.Keys), refuses, scan, p)
              case InvalidProtocol => reservedPorts == old(reservedPorts) && protocol != TCP && protocol != UDP
              case Exhausted =>
                reservedPorts == old(reservedPorts) &&
                forall q :: startPort <= q < startPort + 1000 ==>
                  Blocked(reservedPorts.Keys, refuses, scan, protocol, q)
    {
      for i := startPort to startPort + SCAN_WIDTH
        invariant reservedPorts == old(reservedPorts)
        invariant forall q :: startPort <= q < i ==> Blocked(reservedPorts.Keys, refuses, scan, protocol, q)
      {
        if i in reservedPorts { continue; }
        if protocol == UDP {
          if refuses(scan, protocol, i) { continue; }
        } else if protocol == TCP {
          if refuses(scan, protocol, i) { continue; }
        } else {
          return InvalidProtocol;
        }
        reservedPorts := reservedPorts[i := true];
        return Reserved(i);
      }
      return Exhausted;
    }

    // One step of the inner loop: port k of s, after the k ports before it.
    method AssignPort(s: Service, k: nat, refuses: BindOracle, scan: nat, ghost reserved0: set<int>)
      returns (ok: bool)
      requires k < |s.ports| && Supported(DeclOf(s.ports[k]))
      requires FirstFitRun(s.ports[..k], reserved0, refuses, scan)
      requires reservedPorts.Keys == reserved0 + Hosts(s.ports[..k])
      modifies this`reservedPorts, s`ports
      ensures |s.ports| == |old(s.ports)|
      ensures s.ports == old(s.ports)[k := old(s.ports[k]).(hostPort := s.ports[k].hostPort)]
      ensures ok ==> FirstFitRun(s.ports[..k + 1], reserved0, refuses, scan)
      ensures ok ==> reservedPorts.Keys == reserved0 + Hosts(s.ports[..k + 1])
      ensures !ok ==> s.ports == old(s.ports)
      ensures !ok ==>
                Exhausts(s.ports[k].number, s.ports[k].protocol, reserved0 + Hosts(s.ports[..k]), refuses, scan + k)
    {
      hide FirstFitRun, Hosts;
      var p := s.ports[k];
      var r := ReservePort(p.number, p.protocol, refuses, scan + k);
      if !r.Reserved? {
        return false;
      }
      ghost var before := s.ports[..k];
      s.ports := s.ports[k := p.(hostPort := r.port)];
      assert s.ports[..k + 1] == before + [s.ports[k]];
      RunSnoc(before, s.ports[k], reserved0, refuses, scan);
      HostsSnoc(before, s.ports[k]);
      return true;
    }

    // The inner loop: one host port for each port of s; scan is the number of
    // the first scan.  It fails exactly when no choice of host ports would do.
    method ReserveService(s: Service, refuses: BindOracle, scan: nat) returns (ok: bool)
      requires s.Valid()
      modifies this`reservedPorts, s`ports
      ensures s.Valid() && SamePortsButHost(old(s.ports), s.ports)
      ensures ok <==> Allocatable(old(s.ports), old(reservedPorts.Keys), refuses, scan)
      ensures ok ==> FirstFitRun(s.ports, old(reservedPorts.Keys), refuses, scan)
      ensures ok ==> reservedPorts.Keys == old(reservedPorts.Keys) + Hosts(s.ports)
    {
      hide FirstFitRun, Hosts, PortTable, Supported, Exhausts, Allocatable;
      ghost var ports0, reserved0 := s.ports, reservedPorts.Keys;
      RunEmpty(reserved0, refuses, scan);
      assert s.ports[..0] == [];
      for k := 0 to |s.ports|
        invariant SamePortsButHost(ports0, s.ports) && s.Valid()
        invariant FirstFitRun(s.ports[..k], reserved0, refuses, scan)
        invariant reservedPorts.Keys == reserved0 + Hosts(s.ports[..k])
      {
        TableSupports(s.ports, k);
        ok := AssignPort(s, k, refuses, scan, reserved0);
        SamePortsValid(ports0, s.ports);
        if !ok {
          if Allocatable(ports0, reserved0, refuses, scan) { RunGoesOn(ports0, s.ports, k, reserved0, refuses, scan); }
          return;
        }
      }
      assert s.ports[..|s.ports|] == s.ports;
      RunAllocates(ports0, s.ports, reserved0, refuses, scan);
      return true;
    }

    // The ports of the services in done are reserved, the other services are as at the start.
    ghost predicate Progress(
      start: seq<ServiceView>, done: seq<ServiceView>, reserved0: set<int>, refuses: BindOracle)
      reads this, manifest, manifest.services
    {
      manifest.Valid() && |done| <= |start| == |manifest.services| &&
      (forall k :: 0 <= k < |done| ==> done[k] == manifest.services[k].View() && Deployed(start[k], done[k])) &&
      (forall k :: |done| <= k < |start| ==> manifest.services[k].View() == start[k]) &&
      FirstFitRun(Flat(done), reserved0, refuses, 0) &&
      reservedPorts.Keys == reserved0 + Hosts(Flat(done))
    }

    method ReserveNext(
      i: nat, scan: nat, refuses: BindOracle,
      ghost start: seq<ServiceView>, ghost done: seq<ServiceView>, ghost reserved0: set<int>)
      returns (ok: bool)
      requires Progress(start, done, reserved0, refuses)
      requires i == |done| < |start| && scan == |Flat(done)|
      modifies this`reservedPorts, {manifest.services[i]}
      ensures manifest.Valid() && AllDeployed(start, manifest.View())
      ensures ok ==> Progress(start, done + [manifest.services[i].View()], reserved0, refuses)
      ensures |Flat(done + [manifest.services[i].View()])| == scan + |manifest.services[i].ports|
      ensures !ok ==> !Allocatable(Flat(start), reserved0, refuses, 0)
    {
      hide FirstFitRun, Hosts, Allocatable, PortTable, Deployed, AllDeployed, SamePortsButHost, Flat, Views;
      var s := manifest.services[i];
      assert s.ports == start[i].ports;
      ghost var reserved := reservedPorts.Keys;
      ok := ReserveService(s, refuses, scan);
      ghost var v := s.View();
      ghost var after := done + [v];
      DeployedByPorts(start[i], v);
      DeployedUpTo(start, manifest.View(), i + 1);
      FlatSnoc(done, v);
      if ok {
        RunExtends(done, v, reserved0, reserved, refuses);
        forall k | 0 <= k < |after|
          ensures after[k] == manifest.services[k].View() && Deployed(start[k], after[k])
        {
          if k < i { assert after[k] == done[k]; }
        }
      } else {
        DoneSame(start, done);
        NoRunOverall(start, done, reserved0, refuses);
      }
    }

    // The outer loop: every port of every service, sharing one set of reserved
    // ports.  It fails exactly when no choice of host ports is a first-fit run.
    method ReserveAll(refuses: BindOracle) returns (ok: bool)
      requires manifest.Valid()
      modifies this`reservedPorts, manifest.services
      ensures manifest.Valid() && AllDeployed(old(manifest.View()), manifest.View())
      ensures ok <==> Allocatable(Flat(old(manifest.View())), old(reservedPorts.Keys), refuses, 0)
      ensures ok ==> FirstFitRun(Flat(manifest.View()), old(reservedPorts.Keys), refuses, 0)
      ensures ok ==> reservedPorts.Keys == old(reservedPorts.Keys) + Hosts(Flat(manifest.View()))
    {
      hide FirstFitRun, Hosts, Allocatable, PortTable, Deployed, AllDeployed, Flat, SamePortsButHost;
      ghost var start, reserved0 := manifest.View(), reservedPorts.Keys;
      ghost var done: seq<ServiceView> := [];
      var scan := 0;
      EmptyRun(reserved0, refuses);
      DeployedUpTo(start, start, 0);
      for i := 0 to |manifest.services|
        invariant Progress(start, done, reserved0, refuses)
        invariant AllDeployed(start, manifest.View())
        invariant |done| == i && scan == |Flat(done)|
      {
        ok := ReserveNext(i, scan, refuses, start, done, reserved0);
        if !ok {
          return;
        }
        scan := scan + |manifest.services[i].ports|;
        done := done + [manifest.services[i].View()];
      }
      assert |done| == |manifest.View()| && forall k :: 0 <= k < |done| ==> done[k] == manifest.View()[k];
      assert done == manifest.View();
      DeployedFlat(start, done);
      RunAllocates(Flat(start), Flat(done), reserved0, refuses, 0);
      return true;
    }

    // LocalRunner.applyTemplate: the resolved arguments and environment of s; the
    // environment is visited in an arbitrary order.
    method ApplyTemplate(s: Service) returns (r: Resolved<(seq<string>, map<string, string>)>)
      requires manifest.Valid()
      ensures r.Resolved? <==> TextsResolve(manifest.View(), overrides.Keys, s.View())
      ensures r.Resolved? ==> TextsResolveTo(manifest.View(), overrides.Keys, s.View(), r.value.0, r.value.1)
    {
      hide ResolveText;
      var args := [];
      for i := 0 to |s.args|
        invariant |args| == i
        invariant forall k :: 0 <= k < i ==>
                    ResolveText(manifest.View(), overrides.Keys, s.View(), s.args[k]) == Resolved(args[k])
      {
        var arg := RunTemplate(s, s.args[i]);
        match arg {
          case Resolved(text) => args := args + [text];
          case ParseError => return ParseError;
          case ExecError => return ExecError;
        }
      }
      var envs := map[];
      var todo := s.env.Keys;
      while todo != {}
        invariant todo <= s.env.Keys && envs.Keys == s.env.Keys - todo
        invariant forall k :: k in envs ==>
                    ResolveText(manifest.View(), overrides.Keys, s.View(), s.env[k]) == Resolved(envs[k])
      {
        var k :| k in todo;
        var value := RunTemplate(s, s.env[k]);
        match value {
          case Resolved(text) => envs := envs[k := text];
          case ParseError => return ParseError;
          case ExecError => return ExecError;
        }
        todo := todo - {k};
      }
      return Resolved((args, envs));
    }

    method RunTemplate(s: Service, text: string) returns (r: Resolved<string>)
      requires manifest.Valid()
      ensures r == ResolveText(manifest.View(), overrides.Keys, s.View(), text)
    {
      hide Scan, ResolvePiece;
      var scan := Scan(text);
      if scan.None? {
        return ParseError;
      }
      var pieces := scan.value;
      var out := "";
      assert pieces[0..] == pieces;
      PrependNothing(ResolvePieces(manifest.View(), overrides.Keys, s.View(), pieces));
      for k := 0 to |pieces|
        invariant ResolvePieces(manifest.View(), overrides.Keys, s.View(), pieces)
               == Prepend(out, ResolvePieces(manifest.View(), overrides.Keys, s.View(), pieces[k..]))
      {
        assert pieces[k..][0] == pieces[k] && pieces[k..][1..] == pieces[k + 1..];
        var piece := RunPiece(s, pieces[k]);
        if piece.None? {
          return ExecError;
        }
        PrependTwice(out, piece.value, ResolvePieces(manifest.View(), overrides.Keys, s.View(), pieces[k + 1..]));
        out := out + piece.value;
      }
      assert pieces[|pieces|..] == [] && out + "" == out;
      return Resolved(out);
    }

    // One literal or function call of a template; None is a failed lookup.
    method RunPiece(s: Service, piece: Piece) returns (r: Option<string>)
      requires manifest.Valid()
      ensures r == ResolvePiece(manifest.View(), overrides.Keys, s.View(), piece)
    {
      match piece
      case Lit(text) => return Some(text);
      case Act(ServiceRef(name, portLabel, protocol, user)) =>
        var target := manifest.GetService(name);
        if target == null {
          return None;
        }
        var port := target.GetPort(portLabel);
        if port == None {
          return None;
        }
        if s.name in overrides {
          return Some(PrintAddr(protocol, LOCALHOST, port.value.hostPort, user));
        } else if target.name in overrides {
          return Some(PrintAddr(protocol, HOST_GATEWAY, port.value.hostPort, user));
        }
        return Some(PrintAddr(protocol, target.name, port.value.number, user));
      case Act(PortDecl(name, number)) => r := RunPort(s, name, number);
      case Act(PortUDPDecl(name, number)) => r := RunPort(s, name, number);
    }

    method RunPort(s: Service, name: string, number: int) returns (r: Option<string>)
      ensures r == match ResolvePort(overrides.Keys, s.View(), name, number)
                   case None => None
                   case Some(n) => Some(Show(n))
    {
      if s.name !in overrides {
        return Some(Show(number));
      }
      var port := s.GetPort(name);
      return if port == None then None else Some(Show(port.value.hostPort));
    }

    // The services part of the compose file, once the host ports are reserved.
    method ComposeServices(imageExists: string -> bool) returns (r: RunResult)
      requires manifest.Valid()
      ensures r.Launched? ==>
                r.launched == [] && ComposeFile(manifest.View(), overrides.Keys, r.compose, |manifest.services|)
      ensures !r.ReservePanic?
      ensures r.TemplateFailure? ==> SomeTextFails(manifest.View(), overrides.Keys)
      ensures r.ImageMissing? ==> SomeImageMissing(manifest.View(), overrides.Keys, imageExists, |manifest.services|)
      ensures r.Launched? ==> !SomeImageMissing(manifest.View(), overrides.Keys, imageExists, |manifest.services|)
    {
      hide TextsResolve, TextsResolveTo, ComposeFile, DependencyMap, SomeTextFails, SomeImageMissing;
      var compose: map<string, ComposeService> := map[];
      ComposeStart(manifest.View(), overrides.Keys);
      NoImageYet(manifest.View(), overrides.Keys, imageExists);
      for i := 0 to |manifest.services|
        invariant ComposeFile(manifest.View(), overrides.Keys, compose, i)
        invariant !SomeImageMissing(manifest.View(), overrides.Keys, imageExists, i)
      {
        var s := manifest.services[i];
        ImageStep(manifest.View(), overrides.Keys, imageExists, i);
        if s.name in overrides {
          ComposeSkips(manifest.View(), overrides.Keys, compose, i);
          continue;
        }
        var texts := ApplyTemplate(s);
        if !texts.Resolved? {
          TextFails(manifest.View(), overrides.Keys, i);
          return TemplateFailure;
        }
        var image := s.image + ":" + s.tag;
        if !imageExists(image) {
          return ImageMissing;
        }
        var depends := Depends(s.dependsOn);
        var entry := ComposeService(
          image, texts.value.0, texts.value.1, s.ports, depends, s.readyCheck, s.entrypoint);
        ComposeAdds(manifest.View(), overrides.Keys, compose, i, entry);
        compose := compose[s.name := entry];
      }
      return Launched(compose, []);
    }

    method Depends(ds: seq<DependsOn>) returns (depends: map<string, Condition>)
      ensures depends == DependencyMap(ds)
    {
      depends := map[];
      for k := 0 to |ds|
        invariant depends == DependencyMap(ds[..k])
      {
        assert ds[..k + 1][..k] == ds[..k];
        depends := depends[ds[k].name := ds[k].condition];
      }
      assert ds[..|ds|] == ds;
    }

    // The host services are started in manifest order.
    method LaunchHostServices() returns (r: Option<seq<HostProcess>>)
      requires manifest.Valid()
      ensures r.None? ==> SomeTextFails(manifest.View(), overrides.Keys)
      ensures r.Some? ==> Launches(HostServices(manifest.View(), overrides.Keys), overrides, manifest.View(), r.value)
    {
      hide TextsResolve, ResolveText, Launches, HostServices;
      var launched := [];
      LaunchStart(overrides, manifest.View());
      for i := 0 to |manifest.services|
        invariant Launches(HostServices(manifest.View()[..i], overrides.Keys), overrides, manifest.View(), launched)
      {
        var s := manifest.services[i];
        if s.name in overrides {
          var texts := ApplyTemplate(s);
          if !texts.Resolved? {
            return None;
          }
          var process := HostProcess(s.name, overrides[s.name], texts.value.0);
          LaunchAdds(overrides, manifest.View(), launched, i, process);
          launched := launched + [process];
        } else {
          LaunchSkips(overrides, manifest.View(), launched, i);
        }
      }
      assert manifest.View()[..|manifest.services|] == manifest.View();
      return Some(launched);
    }

    // LocalRunner.Run without the calls to docker.
    method Run(refuses: BindOracle, imageExists: string -> bool) returns (r: RunResult)
      requires manifest.Valid()
      modifies this`reservedPorts, manifest.services
      ensures manifest.Valid() && AllDeployed(old(manifest.View()), manifest.View())
      ensures r.Launched? ==>
                FirstFitRun(Flat(manifest.View()), old(reservedPorts.Keys), refuses, 0) &&
                ComposeFile(manifest.View(), overrides.Keys, r.compose, |manifest.services|) &&
                Launches(HostServices(manifest.View(), overrides.Keys), overrides, manifest.View(), r.launched)
      ensures AllWellBuilt(old(manifest.View())) && LinksOk(old(manifest.View()), |old(manifest.View())|) ==>
                !r.TemplateFailure?
      ensures r.ReservePanic? <==> !Allocatable(Flat(old(manifest.View())), old(reservedPorts.Keys), refuses, 0)
      ensures r.ImageMissing? ==> SomeImageMissing(manifest.View(), overrides.Keys, imageExists, |manifest.services|)
      ensures r.Launched? ==> !SomeImageMissing(manifest.View(), overrides.Keys, imageExists, |manifest.services|)
    {
      hide FirstFitRun, Allocatable, Flat, AllDeployed, AllWellBuilt, LinksOk, ComposeFile, Launches, TextsResolve,
        PortTable, HostServices, SomeImageMissing;
      ghost var start := manifest.View();
      var ok := ReserveAll(refuses);
      if !ok {
        return ReservePanic;
      }
      if AllWellBuilt(start) && LinksOk(start, |start|) {
        AllTextsResolve(start, manifest.View(), overrides.Keys);
      }
      r := Launch(imageExists);
    }

    // What follows the reservation of the ports.
    method Launch(imageExists: string -> bool) returns (r: RunResult)
      requires manifest.Valid()
      ensures r.Launched? ==>
                ComposeFile(manifest.View(), overrides.Keys, r.compose, |manifest.services|) &&
                Launches(HostServices(manifest.View(), overrides.Keys), overrides, manifest.View(), r.launched)
      ensures !r.ReservePanic?
      ensures r.TemplateFailure? ==> SomeTextFails(manifest.View(), overrides.Keys)
      ensures r.ImageMissing? ==> SomeImageMissing(manifest.View(), overrides.Keys, imageExists, |manifest.services|)
      ensures r.Launched? ==> !SomeImageMissing(manifest.View(), overrides.Keys, imageExists, |manifest.services|)
    {
      hide ComposeFile, Launches, TextsResolve, HostServices, SomeImageMissing, SomeTextFails;
      r := ComposeServices(imageExists);
      if r.Launched? {
        var launched := LaunchHostServices();
        r := if launched.None? then TemplateFailure else Launched(r.compose, launched.value);
      }
    }
  }

  lemma TextFails(svcs: seq<ServiceView>, hosts: set<string>, i: nat)
    requires i < |svcs| && !TextsResolve(svcs, hosts, svcs[i])
    ensures SomeTextFails(svcs, hosts)
  {
    hide TextsResolve;
  }

  lemma NoImageYet(svcs: seq<ServiceView>, hosts: set<string>, imageExists: string -> bool)
    ensures !SomeImageMissing(svcs, hosts, imageExists, 0)
  {
  }

  lemma ImageStep(svcs: seq<ServiceView>, hosts: set<string>, imageExists: string -> bool, n: nat)
    requires n < |svcs| && !SomeImageMissing(svcs, hosts, imageExists, n)
    ensures var missing := svcs[n].name !in hosts && !imageExists(svcs[n].image + ":" + svcs[n].tag);
            (SomeImageMissing(svcs, hosts, imageExists, n + 1) <==> missing) &&
            (missing ==> SomeImageMissing(svcs, hosts, imageExists, |svcs|))
  {
  }

  lemma ComposeStart(svcs: seq<ServiceView>, hosts: set<string>)
    ensures ComposeFile(svcs, hosts, map[], 0)
  {
  }

  lemma ComposeSkips(svcs: seq<ServiceView>, hosts: set<string>, compose: map<string, ComposeService>, n: nat)
    requires n < |svcs| && ComposeFile(svcs, hosts, compose, n) && svcs[n].name in hosts
    ensures ComposeFile(svcs, hosts, compose, n + 1)
  {
    hide ComposeOf, Latest;
    LatestSnoc(svcs, n);
    forall name | name in compose
      ensures exists i :: 0 <= i < n + 1 && svcs[i].name == name
    {
      var i :| 0 <= i < n && svcs[i].name == name;
    }
  }

  lemma ComposeAdds(
    svcs: seq<ServiceView>, hosts: set<string>, compose: map<string, ComposeService>, n: nat, c: ComposeService)
    requires n < |svcs| && ComposeFile(svcs, hosts, compose, n) && svcs[n].name !in hosts
    requires ComposeOf(svcs, hosts, svcs[n], c)
    ensures ComposeFile(svcs, hosts, compose[svcs[n].name := c], n + 1)
  {
    hide ComposeOf, Latest;
    var after := compose[svcs[n].name := c];
    LatestSnoc(svcs, n);
    forall name | name in after
      ensures name !in hosts && exists i :: 0 <= i < n + 1 && svcs[i].name == name
    {
      if name != svcs[n].name {
        var i :| 0 <= i < n && svcs[i].name == name;
      }
    }
  }

  lemma LatestSnoc(svcs: seq<ServiceView>, n: nat)
    requires n < |svcs|
    ensures Latest(svcs, n + 1, n)
    ensures forall i :: 0 <= i < n ==> (Latest(svcs, n + 1, i) <==> Latest(svcs, n, i) && svcs[i].name != svcs[n].name)
  {
  }

  // The host processes are the given services, one process each, in order.
  predicate Launches(
    services: seq<ServiceView>, overrides: map<string, string>, svcs: seq<ServiceView>, launched: seq<HostProcess>)
  {
    |launched| == |services| && forall k :: 0 <= k < |launched| ==> LaunchOf(svcs, overrides, services[k], launched[k])
  }

  lemma LaunchStart(overrides: map<string, string>, svcs: seq<ServiceView>)
    ensures Launches(HostServices(svcs[..0], overrides.Keys), overrides, svcs, [])
  {
  }

  lemma LaunchAdds(
    overrides: map<string, string>, svcs: seq<ServiceView>, launched: seq<HostProcess>, n: nat, p: HostProcess)
    requires n < |svcs| && Launches(HostServices(svcs[..n], overrides.Keys), overrides, svcs, launched)
    requires LaunchOf(svcs, overrides, svcs[n], p)
    ensures Launches(HostServices(svcs[..n + 1], overrides.Keys), overrides, svcs, launched + [p])
  {
    hide ResolveText;
    assert svcs[..n + 1][..n] == svcs[..n];
  }

  lemma LaunchSkips(overrides: map<string, string>, svcs: seq<ServiceView>, launched: seq<HostProcess>, n: nat)
    requires n < |svcs| && Launches(HostServices(svcs[..n], overrides.Keys), overrides, svcs, launched)
    requires svcs[n].name !in overrides
    ensures Launches(HostServices(svcs[..n + 1], overrides.Keys), overrides, svcs, launched)
  {
    assert svcs[..n + 1][..n] == svcs[..n];
    assert HostServices(svcs[..n], overrides.Keys) + [] == HostServices(svcs[..n], overrides.Keys);
  }

  function Prepend(out: string, rest: Option<string>): Option<string> {
    match rest case None => None case Some(t) => Some(out + t)
  }

  lemma PrependNothing(rest: Option<string>)
    ensures Prepend("", rest) == rest
  {
    if rest.Some? { assert "" + rest.value == rest.value; }
  }

  lemma PrependTwice(a: string, b: string, rest: Option<string>)
    ensures Prepend(a, Prepend(b, rest)) == Prepend(a + b, rest)
  {
    if rest.Some? { assert a + (b + rest.value) == a + b + rest.value; }
  }

  lemma AllTextsResolve(us: seq<ServiceView>, vs: seq<ServiceView>, hosts: set<string>)
    requires AllWellBuilt(us) && LinksOk(us, |us|) && AllDeployed(us, vs)
    ensures forall i :: 0 <= i < |vs| ==> TextsResolve(vs, hosts, vs[i])
  {
    hide ResolveText, AllWellBuilt, LinksOk, AllDeployed;
    forall i | 0 <= i < |vs|
      ensures TextsResolve(vs, hosts, vs[i])
    {
      forall k | 0 <= k < |vs[i].args| ensures ResolveText(vs, hosts, vs[i], vs[i].args[k]).Resolved? {
        ResolutionSafe(us, vs, hosts, i, vs[i].args[k]);
      }
      forall k | k in vs[i].env ensures ResolveText(vs, hosts, vs[i], vs[i].env[k]).Resolved? {
        ResolutionSafe(us, vs, hosts, i, vs[i].env[k]);
      }
    }
  }

  lemma DeployedByPorts(u: ServiceView, v: ServiceView)
    requires v == u.(ports := v.ports) && SamePortsButHost(u.ports, v.ports)
    ensures Deployed(u, v)
  {
  }

  lemma DeployedUpTo(us: seq<ServiceView>, vs: seq<ServiceView>, n: nat)
    requires |us| == |vs| && forall k :: 0 <= k < |us| ==> (k < n && Deployed(us[k], vs[k])) || us[k] == vs[k]
    ensures AllDeployed(us, vs)
  {
  }

  lemma RunExtends(done: seq<ServiceView>, s: ServiceView, reserved0: set<int>, reserved: set<int>, refuses: BindOracle)
    requires FirstFitRun(Flat(done), reserved0, refuses, 0) && reserved == reserved0 + Hosts(Flat(done))
    requires FirstFitRun(s.ports, reserved, refuses, |Flat(done)|)
    ensures FirstFitRun(Flat(done + [s]), reserved0, refuses, 0)
    ensures reserved + Hosts(s.ports) == reserved0 + Hosts(Flat(done + [s]))
    ensures |Flat(done + [s])| == |Flat(done)| + |s.ports|
  {
    RunAppend(Flat(done), s.ports, reserved0, refuses, 0);
    HostsAppend(Flat(done), s.ports);
    FlatSnoc(done, s);
  }

  lemma DoneSame(start: seq<ServiceView>, done: seq<ServiceView>)
    requires |done| <= |start| && forall k :: 0 <= k < |done| ==> Deployed(start[k], done[k])
    ensures forall k :: 0 <= k < |done| ==> SamePortsButHost(start[k].ports, done[k].ports)
  {
    hide SamePortsButHost;
  }

  lemma DeployedFlat(us: seq<ServiceView>, vs: seq<ServiceView>)
    requires AllDeployed(us, vs)
    ensures SamePortsButHost(Flat(us), Flat(vs))
  {
    hide Flat, SamePortsButHost;
    forall k | 0 <= k < |us|
      ensures SamePortsButHost(us[k].ports, vs[k].ports)
    {
      assert Deployed(us[k], vs[k]);
    }
    FlatSame(us, vs);
  }

  lemma RunAllocates(
    ports: seq<PortView>, v: seq<PortView>, reserved: set<int>, refuses: BindOracle, scan: nat)
    requires SamePortsButHost(ports, v) && FirstFitRun(v, reserved, refuses, scan)
    ensures Allocatable(ports, reserved, refuses, scan)
  {
  }

  lemma EmptyRun(reserved: set<int>, refuses: BindOracle)
    ensures Flat([]) == [] && FirstFitRun(Flat([]), reserved, refuses, 0) && Hosts(Flat([])) == {}
  {
  }

  lemma RunEmpty(reserved: set<int>, refuses: BindOracle, scan: nat)
    ensures FirstFitRun([], reserved, refuses, scan) && Hosts([]) == {}
  {
  }

  lemma TableSupports(ports: seq<PortView>, k: nat)
    requires PortTable(ports) && k < |ports|
    ensures Supported(DeclOf(ports[k]))
  {
  }

  lemma SamePortsValid(u: seq<PortView>, v: seq<PortView>)
    requires PortTable(u) && SamePortsButHost(u, v)
    ensures PortTable(v)
  {
    forall i | 0 <= i < |v| ensures DeclOf(v[i]) == DeclOf(u[i]) { assert v[i] == u[i].(hostPort := v[i].hostPort); }
  }

  // ----- every service is started exactly once -----

  function ContainerServices(svcs: seq<ServiceView>, hosts: set<string>): seq<ServiceView> {
    if svcs == [] then []
    else
      var last := svcs[|svcs| - 1];
      ContainerServices(svcs[..|svcs| - 1], hosts) + if last.name in hosts then [] else [last]
  }

  function Names(svcs: seq<ServiceView>): set<string> { set i | 0 <= i < |svcs| :: svcs[i].name }

  ghost predicate DistinctNames(svcs: seq<ServiceView>) {
    forall i, j :: 0 <= i < j < |svcs| ==> svcs[i].name != svcs[j].name
  }

  lemma {:induction false} NamesSize(svcs: seq<ServiceView>)
    ensures |Names(svcs)| <= |svcs|
    ensures |Names(svcs)| == |svcs| <==> DistinctNames(svcs)
  {
    if svcs != [] {
      hide Names, DistinctNames;
      var init, last := svcs[..|svcs| - 1], svcs[|svcs| - 1];
      NamesSize(init);
      assert svcs == init + [last];
      NamesSnoc(init, last);
      DistinctSnoc(init, last);
      if last.name in Names(init) {
        assert Names(svcs) == Names(init);
      }
    }
  }

  lemma DistinctSnoc(svcs: seq<ServiceView>, s: ServiceView)
    ensures DistinctNames(svcs + [s]) <==> DistinctNames(svcs) && s.name !in Names(svcs)
  {
    var all := svcs + [s];
    assert forall i :: 0 <= i < |svcs| ==> all[i] == svcs[i];
    if s.name in Names(svcs) {
      var i :| 0 <= i < |svcs| && svcs[i].name == s.name;
      assert all[i].name == all[|svcs|].name;
    }
  }

  // Host services keep their order.
  lemma {:induction false} HostServicesInOrder(a: seq<ServiceView>, b: seq<ServiceView>, hosts: set<string>)
    ensures HostServices(a + b, hosts) == HostServices(a, hosts) + HostServices(b, hosts)
  {
    if b == [] {
      assert a + b == a;
    } else {
      var n := |b| - 1;
      HostServicesInOrder(a, b[..n], hosts);
      assert (a + b)[..|a + b| - 1] == a + b[..n] && (a + b)[|a + b| - 1] == b[n];
    }
  }

  lemma {:induction false} SplitServices(svcs: seq<ServiceView>, hosts: set<string>)
    ensures |ContainerServices(svcs, hosts)| + |HostServices(svcs, hosts)| == |svcs|
    ensures Names(ContainerServices(svcs, hosts)) == Names(svcs) - hosts
    ensures Names(HostServices(svcs, hosts)) == Names(svcs) * hosts
  {
    if svcs != [] {
      var init, last := svcs[..|svcs| - 1], svcs[|svcs| - 1];
      SplitServices(init, hosts);
      assert svcs == init + [last];
      NamesSnoc(init, last);
      NamesSnoc(ContainerServices(init, hosts), last);
      NamesSnoc(HostServices(init, hosts), last);
    }
  }

  lemma NamesSnoc(svcs: seq<ServiceView>, s: ServiceView)
    ensures Names(svcs + [s]) == Names(svcs) + {s.name}
    ensures svcs + [] == svcs
  {
    var all := svcs + [s];
    assert forall i :: 0 <= i < |svcs| ==> all[i] == svcs[i];
    forall n | n in Names(svcs) + {s.name}
      ensures n in Names(all)
    {
      if n in Names(svcs) {
        var i :| 0 <= i < |svcs| && svcs[i].name == n;
        assert all[i].name == n;
      } else {
        assert all[|svcs|].name == n;
      }
    }
  }

  lemma ComposeKeys(svcs: seq<ServiceView>, hosts: set<string>, compose: map<string, ComposeService>)
    requires ComposeFile(svcs, hosts, compose, |svcs|)
    ensures compose.Keys == Names(svcs) - hosts
  {
    hide ComposeOf;
    forall n
      ensures n in compose <==> n in Names(svcs) - hosts
    {
      if n in Names(svcs) - hosts {
        var i :| 0 <= i < |svcs| && svcs[i].name == n;
        assert svcs[i].name in compose;
      }
    }
  }

  function Started(launched: seq<HostProcess>): set<string> { set k | 0 <= k < |launched| :: launched[k].name }

  lemma StartedNames(
    services: seq<ServiceView>, overrides: map<string, string>, svcs: seq<ServiceView>, launched: seq<HostProcess>)
    requires Launches(services, overrides, svcs, launched)
    ensures |launched| == |services| && forall k :: 0 <= k < |launched| ==> launched[k].name == services[k].name
    ensures Started(launched) == Names(services)
  {
    hide ResolveText;
    assert forall k :: 0 <= k < |launched| ==> LaunchOf(svcs, overrides, services[k], launched[k]);
    assert forall k :: 0 <= k < |launched| ==> launched[k].name == services[k].name;
  }

  // Compose entries and host processes together are as many as the services
  // exactly when no two container services share a name; an entry per name of a
  // container service, a process per host service.
  lemma LaunchConservation(
    svcs: seq<ServiceView>, overrides: map<string, string>, compose: map<string, ComposeService>,
    launched: seq<HostProcess>)
    requires ComposeFile(svcs, overrides.Keys, compose, |svcs|)
    requires Launches(HostServices(svcs, overrides.Keys), overrides, svcs, launched)
    ensures compose.Keys == Names(svcs) - overrides.Keys
    ensures Started(launched) == Names(svcs) * overrides.Keys
    ensures |compose| + |launched| == |svcs| <==> DistinctNames(ContainerServices(svcs, overrides.Keys))
  {
    hide ComposeFile, Launches, DistinctNames, Names, Started;
    var hosts := overrides.Keys;
    SplitServices(svcs, hosts);
    NamesSize(ContainerServices(svcs, hosts));
    ComposeKeys(svcs, hosts, compose);
    StartedNames(HostServices(svcs, hosts), overrides, svcs, launched);
    assert |compose| == |compose.Keys|;
  }

  // A recipe that adds the contender twice starts it once.
  lemma ContenderAddedTwice()
    ensures var calls := [WithImage("flashbots/contender"), WithTag("latest")];
            ApplyOps(NewService("contender"), calls).Some? &&
            var v := ApplyOps(NewService("contender"), calls).value;
            exists compose ::
              ComposeFile([v, v], {}, compose, 2) && Launches(HostServices([v, v], {}), map[], [v, v], []) &&
              |compose| == 1
  {
    hide ComposeFile, Launches, HostServices;
    var calls := [WithImage("flashbots/contender"), WithTag("latest")];
    var s := NewService("contender");
    assert calls[..1] == [WithImage("flashbots/contender")] && calls[..1][..0] == [];
    assert ApplyOps(s, calls[..1]) == Some(s.(image := "flashbots/contender"));
    var v := ApplyOps(s, calls).value;
    assert v == s.(image := "flashbots/contender", tag := "latest");
    var compose := ComposedTwice(v);
  }

  lemma ComposedTwice(v: ServiceView) returns (compose: map<string, ComposeService>)
    requires v.args == [] && v.env == map[]
    ensures ComposeFile([v, v], {}, compose, 2) && Launches(HostServices([v, v], {}), map[], [v, v], [])
    ensures |compose| == 1
  {
    hide DependencyMap;
    var depends := DependencyMap(v.dependsOn);
    var entry := ComposeService(v.image + ":" + v.tag, [], map[], v.ports, depends, v.readyCheck, v.entrypoint);
    assert ComposeOf([v, v], {}, v, entry);
    compose := map[v.name := entry];
    assert [v, v][0].name == v.name;
    assert [v, v][..1] == [v] && [v][..0] == [];
    assert HostServices([v], {}) == [];
  }

  // ----- dependencies inside the compose file -----

  // docker compose refuses a file in which a service depends on one that has no entry.
  predicate DependenciesPresent(compose: map<string, ComposeService>) {
    forall n, d :: n in compose && d in compose[n].dependsOn ==> d in compose
  }

  // No container waits for a service that runs on the host.
  predicate NoHostDependency(svcs: seq<ServiceView>, hosts: set<string>) {
    forall i :: 0 <= i < |svcs| && svcs[i].name !in hosts && Latest(svcs, |svcs|, i) ==>
      forall k :: 0 <= k < |svcs[i].dependsOn| ==> svcs[i].dependsOn[k].name !in hosts
  }

  // For a validated manifest the compose file holds every dependency it names
  // exactly when none of them runs on the host.
  lemma DependenciesPresentExactly(svcs: seq<ServiceView>, hosts: set<string>, compose: map<string, ComposeService>)
    requires LinksOk(svcs, |svcs|) && ComposeFile(svcs, hosts, compose, |svcs|)
    ensures DependenciesPresent(compose) <==> NoHostDependency(svcs, hosts)
  {
    hide ComposeFile, Latest, TextsResolveTo, LinksOk;
    ComposeKeys(svcs, hosts, compose);
    forall i, k | 0 <= i < |svcs| && svcs[i].name !in hosts && Latest(svcs, |svcs|, i) && 0 <= k < |svcs[i].dependsOn|
      ensures svcs[i].name in compose && svcs[i].dependsOn[k].name in compose[svcs[i].name].dependsOn
      ensures svcs[i].dependsOn[k].name in Names(svcs)
    {
      ComposeDescribes(svcs, hosts, compose, i);
      DependencyNamed(svcs, i, k);
    }
    if NoHostDependency(svcs, hosts) {
      forall n, d | n in compose && d in compose[n].dependsOn
        ensures d in compose
      {
        var i := LastNamed(svcs, n);
        ComposeDescribes(svcs, hosts, compose, i);
        var k :| 0 <= k < |svcs[i].dependsOn| && svcs[i].dependsOn[k].name == d;
      }
    }
  }

  lemma ComposeDescribes(svcs: seq<ServiceView>, hosts: set<string>, compose: map<string, ComposeService>, i: nat)
    requires ComposeFile(svcs, hosts, compose, |svcs|)
    requires i < |svcs| && svcs[i].name !in hosts && Latest(svcs, |svcs|, i)
    ensures svcs[i].name in compose && ComposeOf(svcs, hosts, svcs[i], compose[svcs[i].name])
  {
    hide ComposeOf;
  }

  lemma DependencyNamed(svcs: seq<ServiceView>, i: nat, k: nat)
    requires LinksOk(svcs, |svcs|) && i < |svcs| && k < |svcs[i].dependsOn|
    ensures svcs[i].dependsOn[k].name in Names(svcs)
  {
    assert CheckDependency(svcs, svcs[i].dependsOn[k]) == DependencyOk;
    var j := FindService(svcs, svcs[i].dependsOn[k].name).value;
    assert svcs[j].name == svcs[i].dependsOn[k].name;
  }

  lemma LastNamed(svcs: seq<ServiceView>, name: string) returns (i: nat)
    requires name in Names(svcs)
    ensures i < |svcs| && svcs[i].name == name && Latest(svcs, |svcs|, i)
  {
    var n := |svcs| - 1;
    if svcs[n].name == name {
      i := n;
    } else {
      var k :| 0 <= k < |svcs| && svcs[k].name == name;
      assert svcs[..n][k].name == name;
      i := LastNamed(svcs[..n], name);
      assert forall j :: i < j < n ==> svcs[..n][j].name != name;
      assert forall j :: i < j < n ==> svcs[j] == svcs[..n][j];
    }
  }

  // Running a dependency of a container on the host makes the file unusable.
  lemma DependencyOnHost(compose: map<string, ComposeService>)
    requires var db := NewService("db");
             var app := NewService("app").(dependsOn := [DependsOn("db", Running)]);
             ComposeFile([db, app], {"db"}, compose, 2)
    ensures var db := NewService("db");
            var app := NewService("app").(dependsOn := [DependsOn("db", Running)]);
            LinksOk([db, app], 2) && !DependenciesPresent(compose)
  {
    hide ComposeFile;
    var db := NewService("db");
    var app := NewService("app").(dependsOn := [DependsOn("db", Running)]);
    var svcs := [db, app];
    assert FindService(svcs, "db") == Some(0);
    assert LinksOk(svcs, 2);
    assert Latest(svcs, 2, 1) && svcs[1].dependsOn[0].name == "db";
    DependenciesPresentExactly(svcs, {"db"}, compose);
  }

  // Process k is the one and only process of that name.
  ghost predicate OnlyLaunch(launched: seq<HostProcess>, name: string, k: int) {
    0 <= k < |launched| && launched[k].name == name &&
    forall l :: 0 <= l < |launched| && launched[l].name == name ==> l == k
  }

  lemma DistinctLaunch(services: seq<ServiceView>, launched: seq<HostProcess>, k: nat)
    requires |launched| == |services| && forall l :: 0 <= l < |launched| ==> launched[l].name == services[l].name
    requires DistinctNames(services) && k < |launched|
    ensures OnlyLaunch(launched, launched[k].name, k)
  {
    forall l | 0 <= l < |launched| && launched[l].name == launched[k].name
      ensures l == k
    {
      assert services[l].name == services[k].name;
    }
  }

  // With unique names each service is in exactly one of the two, once.
  lemma StartedExactlyOnce(
    svcs: seq<ServiceView>, overrides: map<string, string>, compose: map<string, ComposeService>,
    launched: seq<HostProcess>, i: nat)
    requires ComposeFile(svcs, overrides.Keys, compose, |svcs|)
    requires Launches(HostServices(svcs, overrides.Keys), overrides, svcs, launched)
    requires DistinctNames(svcs) && i < |svcs|
    ensures svcs[i].name in overrides ==>
              svcs[i].name !in compose && exists k :: OnlyLaunch(launched, svcs[i].name, k)
    ensures svcs[i].name !in overrides ==>
              svcs[i].name in compose && ComposeOf(svcs, overrides.Keys, svcs[i], compose[svcs[i].name]) &&
              svcs[i].name !in Started(launched)
  {
    hide Launches, OnlyLaunch, ComposeFile, ComposeOf, DistinctNames;
    LaunchConservation(svcs, overrides, compose, launched);
    assert svcs[i].name in Names(svcs);
    if svcs[i].name in overrides {
      HostStartedOnce(svcs, overrides, launched, svcs[i].name);
    } else {
      ContainerDescribed(svcs, overrides.Keys, compose, i);
    }
  }

  lemma HostStartedOnce(
    svcs: seq<ServiceView>, overrides: map<string, string>, launched: seq<HostProcess>, name: string)
    requires Launches(HostServices(svcs, overrides.Keys), overrides, svcs, launched)
    requires DistinctNames(svcs) && name in Names(svcs) * overrides.Keys
    ensures exists k :: OnlyLaunch(launched, name, k)
  {
    hide Launches, DistinctNames;
    var hosted := HostServices(svcs, overrides.Keys);
    SplitServices(svcs, overrides.Keys);
    HostNamesDistinct(svcs, overrides.Keys);
    StartedNames(hosted, overrides, svcs, launched);
    assert name in Started(launched);
    var k :| 0 <= k < |launched| && launched[k].name == name;
    DistinctLaunch(hosted, launched, k);
  }

  lemma ContainerDescribed(svcs: seq<ServiceView>, hosts: set<string>, compose: map<string, ComposeService>, i: nat)
    requires ComposeFile(svcs, hosts, compose, |svcs|) && DistinctNames(svcs) && i < |svcs| && svcs[i].name !in hosts
    ensures svcs[i].name in compose && ComposeOf(svcs, hosts, svcs[i], compose[svcs[i].name])
  {
    hide ComposeOf;
  }

  lemma {:induction false} HostNamesDistinct(svcs: seq<ServiceView>, hosts: set<string>)
    requires DistinctNames(svcs)
    ensures DistinctNames(HostServices(svcs, hosts))
  {
    if svcs != [] {
      var init, last := svcs[..|svcs| - 1], svcs[|svcs| - 1];
      HostNamesDistinct(init, hosts);
      SplitServices(init, hosts);
      var h := HostServices(init, hosts);
      forall i | 0 <= i < |h|
        ensures h[i].name != last.name
      {
        assert h[i].name in Names(h);
      }
    }
  }

  // ----- setting up a runner -----

  // The executables downloaded for the services that ask for host execution.
  function ReleasePaths(svcs: seq<ServiceView>, release: nat -> Option<string>): map<string, string> {
    if svcs == [] then map[]
    else
      var n := |svcs| - 1;
      var before := ReleasePaths(svcs[..n], release);
      if WantsHost(svcs[n]) && release(n).Some? then before[svcs[n].name := release(n).value] else before
  }

  predicate WantsHost(s: ServiceView) {
    USE_HOST_EXECUTION in s.labels && s.labels[USE_HOST_EXECUTION] == "true"
  }

  predicate ReleasesFound(svcs: seq<ServiceView>, release: nat -> Option<string>, n: nat)
    requires n <= |svcs|
  {
    forall i :: 0 <= i < n && WantsHost(svcs[i]) ==> release(i).Some?
  }

  // A name is bound exactly if a service of that name asks for the host, to the
  // release of the last one that does.
  lemma {:induction false} ReleasePathsExact(svcs: seq<ServiceView>, release: nat -> Option<string>, name: string)
    requires ReleasesFound(svcs, release, |svcs|)
    ensures forall i: nat :: LastAsks(svcs, i, name) ==>
              name in ReleasePaths(svcs, release) && release(i) == Some(ReleasePaths(svcs, release)[name])
    ensures (forall i :: 0 <= i < |svcs| ==> !Asks(svcs, i, name)) ==> name !in ReleasePaths(svcs, release)
  {
    if svcs != [] {
      hide Asks, WantsHost;
      var n := |svcs| - 1;
      AsksPrefix(svcs, n, name);
      ReleasePathsExact(svcs[..n], release, name);
      forall i: nat | LastAsks(svcs, i, name)
        ensures name in ReleasePaths(svcs, release) && release(i) == Some(ReleasePaths(svcs, release)[name])
      {
        if i < n { assert LastAsks(svcs[..n], i, name) && !Asks(svcs, n, name); }
      }
      assert (forall i :: 0 <= i < |svcs| ==> !Asks(svcs, i, name)) ==> !Asks(svcs, n, name);
    }
  }

  lemma AsksPrefix(svcs: seq<ServiceView>, n: nat, name: string)
    requires n < |svcs|
    ensures forall i :: 0 <= i < n ==> Asks(svcs[..n], i, name) == Asks(svcs, i, name)
    ensures Asks(svcs, n, name) <==> svcs[n].name == name && WantsHost(svcs[n])
  {
  }

  predicate LastAsks(svcs: seq<ServiceView>, i: nat, name: string) {
    i < |svcs| && Asks(svcs, i, name) && forall k :: i < k < |svcs| ==> !Asks(svcs, k, name)
  }

  // Service i is called name and wants to run on the host.
  predicate Asks(svcs: seq<ServiceView>, i: int, name: string)
    requires 0 <= i < |svcs|
  {
    svcs[i].name == name && "use-host-execution" in svcs[i].labels && svcs[i].labels["use-host-execution"] == "true"
  }

  method WithManifestOverrides(manifest: Manifest, given: map<string, string>) returns (merged: map<string, string>)
    ensures merged == given + manifest.overrides
  {
    merged := given;
    var todo := manifest.overrides.Keys;
    while todo != {}
      invariant todo <= manifest.overrides.Keys
      invariant merged == given + (manifest.overrides - todo)
    {
      var k :| k in todo;
      merged := merged[k := manifest.overrides[k]];
      todo := todo - {k};
    }
    assert manifest.overrides - {} == manifest.overrides;
  }

  // release(i) is the path of the artifact of service number i, None if its
  // component has none or the download fails.
  method MergeOverrides(manifest: Manifest, given: map<string, string>, release: nat -> Option<string>)
    returns (r: Option<map<string, string>>)
    requires manifest.Valid()
    ensures r.Some? <==> ReleasesFound(manifest.View(), release, |manifest.services|)
    ensures r.Some? ==> r.value == given + manifest.overrides + ReleasePaths(manifest.View(), release)
  {
    hide PortTable, Views, ReleasePaths, ReleasesFound;
    ghost var svcs := manifest.View();
    var merged := WithManifestOverrides(manifest, given);
    ghost var base := merged;
    NoReleases(base, svcs, release);
    for i := 0 to |manifest.services|
      invariant ReleasesFound(svcs, release, i)
      invariant merged == base + ReleasePaths(svcs[..i], release)
    {
      ReleaseStep(base, svcs, release, i);
      var s := manifest.services[i];
      assert svcs[i] == s.View();
      if USE_HOST_EXECUTION in s.labels && s.labels[USE_HOST_EXECUTION] == "true" {
        var path := release(i);
        if path.None? {
          MissingRelease(svcs, release, i);
          return None;
        }
        merged := merged[s.name := path.value];
      }
    }
    assert svcs[..|manifest.services|] == svcs;
    return Some(merged);
  }

  lemma NoReleases(base: map<string, string>, svcs: seq<ServiceView>, release: nat -> Option<string>)
    ensures ReleasesFound(svcs, release, 0) && base + ReleasePaths(svcs[..0], release) == base
  {
  }

  lemma MissingRelease(svcs: seq<ServiceView>, release: nat -> Option<string>, n: nat)
    requires n < |svcs| && WantsHost(svcs[n]) && release(n).None?
    ensures !ReleasesFound(svcs, release, |svcs|)
  {
  }

  // What service n adds to the overrides.
  lemma ReleaseStep(base: map<string, string>, svcs: seq<ServiceView>, release: nat -> Option<string>, n: nat)
    requires n < |svcs| && ReleasesFound(svcs, release, n)
    ensures WantsHost(svcs[n]) && release(n).Some? ==>
              ReleasesFound(svcs, release, n + 1) &&
              base + ReleasePaths(svcs[..n + 1], release) ==
                (base + ReleasePaths(svcs[..n], release))[svcs[n].name := release(n).value]
    ensures !WantsHost(svcs[n]) ==>
              ReleasesFound(svcs, release, n + 1) &&
              ReleasePaths(svcs[..n + 1], release) == ReleasePaths(svcs[..n], release)
  {
    hide WantsHost;
    assert svcs[..n + 1][..n] == svcs[..n] && svcs[..n + 1][n] == svcs[n];
    if WantsHost(svcs[n]) && release(n).Some? {
      UpdateSum(base, ReleasePaths(svcs[..n], release), svcs[n].name, release(n).value);
    }
  }

  lemma UpdateSum(a: map<string, string>, b: map<string, string>, k: string, v: string)
    ensures (a + b)[k := v] == a + b[k := v]
  {
  }

  lemma PartitionDeploys(
    svcs: seq<ServiceView>, vs: seq<ServiceView>, overrides: map<string, string>, stat: string -> bool)
    requires |svcs| == |vs|
    requires forall i: nat :: i < |svcs| ==> vs[i] == Overridden(svcs, overrides, stat, overrides.Keys, i)
    ensures AllDeployed(svcs, vs)
  {
    forall i | 0 <= i < |svcs|
      ensures Deployed(svcs[i], vs[i])
    {
      OverriddenDeploys(svcs, overrides, stat, overrides.Keys, i);
    }
  }
}
