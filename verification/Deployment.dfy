// From a built manifest to a running deployment, end to end.
module Deployment {
  import opened Text
  import opened Template
  import opened ServiceSpec
  import opened Manifests
  import opened Allocation
  import opened Resolution
  import opened Wiring
  import opened LocalRunners

  // ----- what a printed address dials -----

  // Nothing, or something that ends the scheme or the user part.
  predicate EndsAuthority(prefix: string) {
    prefix == "" || prefix[|prefix| - 1] == '/' || prefix[|prefix| - 1] == '@'
  }

  predicate PlainHost(host: string) { '/' !in host && '@' !in host }

  // What comes before the host.
  predicate Introduces(prefix: string, scheme: string, user: string) {
    var front := if scheme == "" then "" else scheme + "://";
    prefix == if user == "" then front else front + user + "@"
  }

  // text reads as [scheme://][user@]host:port.
  ghost predicate Dials(text: string, scheme: string, user: string, host: string, port: int) {
    PlainHost(host) &&
    exists prefix :: Introduces(prefix, scheme, user) && text == prefix + host + ":" + Show(port)
  }

  lemma PrintedAddressDials(protocol: string, host: string, port: int, user: string)
    requires PlainHost(host)
    ensures Dials(PrintAddr(protocol, host, port, user), protocol, user, host, port)
  {
    hide Show;
    var scheme := if protocol != "" then protocol + "://" else "";
    var login := if user != "" then user + "@" else "";
    assert scheme + login == if user == "" then scheme else scheme + user + "@";
    assert Introduces(scheme + login, protocol, user);
  }

  lemma ShowHasNoColon(n: int)
    ensures ':' !in Show(n)
  {
    assert forall i :: 0 <= i < |Show(n)| ==> IsDigit(Show(n)[i]) || Show(n)[i] == '-';
  }

  lemma ShowInjective(m: int, n: int)
    requires Show(m) == Show(n)
    ensures m == n
  {
    if m < 0 {
      assert !IsDigit(Show(n)[0]);
      assert Show(m)[1..] == ShowNat(-m) && Show(n)[1..] == ShowNat(-n);
      ShowNatInjective(-m, -n);
    } else {
      assert IsDigit(Show(n)[0]);
      ShowNatInjective(m, n);
    }
  }

  lemma ColonInside(a: string, m: string, b: string, n: string)
    requires a + ":" + m == b + ":" + n && |m| < |n|
    ensures ':' in n
  {
    assert (a + ":" + m)[|a|] == ':' && (b + ":" + n)[|a|] == n[|a| - |b| - 1];
  }

  lemma LastColon(a: string, m: string, b: string, n: string)
    requires a + ":" + m == b + ":" + n
    requires ':' !in m && ':' !in n
    ensures a == b && m == n
  {
    assert |m| == |n| by {
      if |m| < |n| { ColonInside(a, m, b, n); }
      if |n| < |m| { ColonInside(b, n, a, m); }
    }
    var text := a + ":" + m;
    assert a == text[..|a|] && m == text[|a| + 1..];
    assert b == (b + ":" + n)[..|b|] && n == (b + ":" + n)[|b| + 1..];
  }

  lemma AuthorityInside(p: string, g: string, q: string, h: string)
    requires EndsAuthority(q) && p + g == q + h && |p| < |q|
    ensures !PlainHost(g)
  {
    assert (p + g)[|q| - 1] == g[|q| - 1 - |p|] && (q + h)[|q| - 1] == q[|q| - 1];
  }

  lemma LastAuthority(p: string, g: string, q: string, h: string)
    requires EndsAuthority(p) && EndsAuthority(q) && PlainHost(g) && PlainHost(h)
    requires p + g == q + h
    ensures g == h
  {
    assert |p| == |q| by {
      if |p| < |q| { AuthorityInside(p, g, q, h); }
      if |q| < |p| { AuthorityInside(q, h, p, g); }
    }
    assert g == (p + g)[|p|..] && h == (q + h)[|q|..];
  }

  lemma IntroductionEnds(prefix: string, scheme: string, user: string)
    requires Introduces(prefix, scheme, user)
    ensures EndsAuthority(prefix)
  {
  }

  lemma SlashInside(a: string, u: string, b: string, v: string)
    requires a + u == b + v && |a| < |b| && b[|b| - 1] == '/'
    ensures '/' in u
  {
    assert (a + u)[|b| - 1] == u[|b| - 1 - |a|] && (b + v)[|b| - 1] == b[|b| - 1];
  }

  // The last slash of a prefix is the end of its scheme.
  lemma SchemeSplit(a: string, u: string, b: string, v: string)
    requires a + u == b + v && '/' !in u && '/' !in v
    requires (a == "" || a[|a| - 1] == '/') && (b == "" || b[|b| - 1] == '/')
    ensures a == b && u == v
  {
    var text := a + u;
    assert |a| == |b| by {
      if |a| < |b| { SlashInside(a, u, b, v); }
      if |b| < |a| { SlashInside(b, v, a, u); }
    }
    assert a == text[..|a|] && b == (b + v)[..|b|] && u == text[|a|..] && v == (b + v)[|b|..];
  }

  lemma SameIntroduction(prefix: string, s: string, u: string, t: string, v: string)
    requires Introduces(prefix, s, u) && Introduces(prefix, t, v) && '/' !in u && '/' !in v
    ensures s == t && u == v
  {
    var a, b := if s == "" then "" else s + "://", if t == "" then "" else t + "://";
    var x, y := if u == "" then "" else u + "@", if v == "" then "" else v + "@";
    assert prefix == a + x && prefix == b + y;
    SchemeSplit(a, x, b, y);
    if a != "" { assert s == a[..|a| - 3] && t == b[..|b| - 3]; }
    if x != "" { assert u == x[..|x| - 1] && v == y[..|y| - 1]; }
  }

  // A text dials at most one host and port, with one scheme and user unless a user
  // contains a slash.
  lemma DialsOne(text: string, s: string, u: string, g: string, m: int, t: string, v: string, h: string, n: int)
    requires Dials(text, s, u, g, m) && Dials(text, t, v, h, n)
    ensures g == h && m == n
    ensures '/' !in u && '/' !in v ==> s == t && u == v
  {
    hide Show, Introduces;
    var p :| Introduces(p, s, u) && text == p + g + ":" + Show(m);
    var q :| Introduces(q, t, v) && text == q + h + ":" + Show(n);
    IntroductionEnds(p, s, u);
    IntroductionEnds(q, t, v);
    ShowHasNoColon(m);
    ShowHasNoColon(n);
    LastColon(p + g, Show(m), q + h, Show(n));
    LastAuthority(p, g, q, h);
    ShowInjective(m, n);
    if '/' !in u && '/' !in v {
      assert p == (p + g)[..|p|] && q == (q + h)[..|q|];
      SameIntroduction(p, s, u, t, v);
    }
  }

  lemma ConnectRawResolves(
    svcs: seq<ServiceView>, hosts: set<string>, self: ServiceView, service: string, portLabel: string,
    protocol: string, user: string)
    requires Plain(service) && Plain(portLabel) && Plain(protocol) && Plain(user)
    requires ResolveRef(svcs, hosts, self, service, portLabel).Some?
    ensures var (host, port) := ResolveRef(svcs, hosts, self, service, portLabel).value;
            ResolveText(svcs, hosts, self, ConnectRaw(service, portLabel, protocol, user)) ==
              Resolved(PrintAddr(protocol, host, port, user))
  {
    hide Scan, ResolveRef;
    var p := Act(ServiceRef(service, portLabel, protocol, user));
    ConnectRawRoundTrip(service, portLabel, protocol, user);
    assert [p][1..] == [];
    assert ResolvePieces(svcs, hosts, self, [p][1..]) == Some("");
    var (host, port) := ResolveRef(svcs, hosts, self, service, portLabel).value;
    assert PrintAddr(protocol, host, port, user) + "" == PrintAddr(protocol, host, port, user);
  }

  // The text with which a service names a port of its own.
  function OwnText(p: PortView): string { PortText(p.protocol, p.name, p.number) }

  // The connection string a component writes for port j of service i, resolved
  // for service c of the finished deployment, dials an address whose traffic
  // service i receives on the very number that its own text for the port became.
  lemma ConnectionArrives(
    us: seq<ServiceView>, vs: seq<ServiceView>, hosts: set<string>, reserved: set<int>, refuses: BindOracle,
    c: nat, i: nat, j: nat, protocol: string, user: string)
    requires AllWellBuilt(us) && AllDeployed(us, vs) && FirstFitRun(Flat(vs), reserved, refuses, 0)
    requires UsableNames(vs) && c < |vs| && i < |vs| && j < |vs[i].ports|
    requires Plain(vs[i].name) && PlainHost(vs[i].name) && Plain(vs[i].ports[j].name) && Plain(protocol) && Plain(user)
    requires OnHost(hosts, vs[c]) && !OnHost(hosts, vs[i]) ==>
               vs[i].ports[FindPort(vs[i].ports, vs[i].ports[j].name).value].protocol == vs[i].ports[j].protocol
    ensures exists text, host, port, number ::
              ResolveText(vs, hosts, vs[c], ConnectRaw(vs[i].name, vs[i].ports[j].name, protocol, user)) ==
                Resolved(text) &&
              Dials(text, protocol, user, host, port) &&
              Received(hosts, vs[c], vs[i].ports[j].protocol, host, port, vs[i], number) &&
              (IsInt64(vs[i].ports[j].number) ==>
                 ResolveText(vs, hosts, vs[i], OwnText(vs[i].ports[j])) == Resolved(Show(number)))
  {
    hide ResolveText, ConnectRaw, FirstFitRun, WellBuilt, Received, Rendered, PortsAssigned, Dials, PortText;
    var portLabel := vs[i].ports[j].name;
    forall k | 0 <= k < |vs|
      ensures PortTable(vs[k].ports)
    {
      assert Deployed(us[k], vs[k]) && WellBuilt(us[k]);
      WellBuiltPorts(us[k], vs[k]);
    }
    AllocationAssigns(vs, reserved, refuses);
    WiringExact(vs, hosts, vs[c], i, portLabel, j);
    var (host, port) := ResolveRef(vs, hosts, vs[c], vs[i].name, portLabel).value;
    HostIsPlain(vs, hosts, vs[c], i, portLabel);
    ConnectRawResolves(vs, hosts, vs[c], vs[i].name, portLabel, protocol, user);
    PrintedAddressDials(protocol, host, port, user);
    var number := Rendered(hosts, vs[i], vs[i].ports[j]);
    if IsInt64(vs[i].ports[j].number) { RenderedText(vs, hosts, vs[i], j); }
    assert Received(hosts, vs[c], vs[i].ports[j].protocol, host, port, vs[i], number);
  }

  lemma WellBuiltPorts(u: ServiceView, v: ServiceView)
    requires Deployed(u, v) && WellBuilt(u)
    ensures PortTable(v.ports)
  {
    DeployedWellBuilt(u, v);
  }

  lemma HostIsPlain(svcs: seq<ServiceView>, hosts: set<string>, client: ServiceView, i: nat, portLabel: string)
    requires i < |svcs| && PlainHost(svcs[i].name)
    requires ResolveRef(svcs, hosts, client, svcs[i].name, portLabel).Some?
    ensures PlainHost(ResolveRef(svcs, hosts, client, svcs[i].name, portLabel).value.0)
  {
  }

  // ----- main.runIt, from the validated manifest to the running services -----

  datatype CookResult =
    | InvalidManifest(violation: Violation)
    | UnknownOverride
    | NoReleaseArtifact
    | BadOverride
    | Cooked(hosts: map<string, string>, result: RunResult)

  // The manifest that is deployed: the validated one, and prometheus if asked for.
  function WithPrometheus(svcs: seq<ServiceView>, enabled: bool): seq<ServiceView> {
    if enabled && ApplyOps(NewService("prometheus"), PROMETHEUS_CALLS).Some?
    then svcs + [ApplyOps(NewService("prometheus"), PROMETHEUS_CALLS).value]
    else svcs
  }

  class Cook {
    const fileExists: string -> bool
    const pathExists: string -> bool
    const imageExists: string -> bool
    const release: nat -> Option<string>
    const refuses: BindOracle

    // The environment: files, executables, images, release downloads and ports.
    constructor (fileExists: string -> bool, pathExists: string -> bool, imageExists: string -> bool,
                 release: nat -> Option<string>, refuses: BindOracle)
      ensures this.fileExists == fileExists && this.pathExists == pathExists && this.imageExists == imageExists
      ensures this.release == release && this.refuses == refuses
    {
      this.fileExists, this.pathExists, this.imageExists := fileExists, pathExists, imageExists;
      this.release, this.refuses := release, refuses;
    }

    function Executables(overrides: map<string, string>): map<string, string> {
      map k | k in overrides && pathExists(overrides[k]) :: overrides[k]
    }

    method OverridesKnown(manifest: Manifest, overrides: map<string, string>) returns (ok: bool)
      requires manifest.Valid()
      ensures ok <==> OverridesNamed(manifest.View(), overrides)
    {
      var todo := overrides.Keys;
      while todo != {}
        invariant todo <= overrides.Keys
        invariant forall k :: k in overrides.Keys - todo ==> FindService(manifest.View(), k).Some?
      {
        var k :| k in todo;
        var service := manifest.GetService(k);
        if service == null {
          return false;
        }
        todo := todo - {k};
      }
      return true;
    }

    method AddPrometheus(manifest: Manifest, enabled: bool)
      requires manifest.Valid() && AllWellBuilt(manifest.View()) && LinksOk(manifest.View(), |manifest.services|)
      modifies manifest`services
      ensures manifest.Valid() && manifest.View() == WithPrometheus(old(manifest.View()), enabled)
      ensures AllWellBuilt(manifest.View()) && LinksOk(manifest.View(), |manifest.services|)
      ensures forall s :: s in manifest.services ==> s in old(manifest.services) || fresh(s)
    {
      hide LinksOk, AllWellBuilt, ApplyOps;
      if enabled {
        PrometheusKeepsLinks(manifest.View());
        var ok := manifest.AddService("prometheus", PROMETHEUS_CALLS);
      }
    }

    // main.runIt up to the start of the services.
    method RunIt(manifest: Manifest, withPrometheus: bool, overrides: map<string, string>) returns (r: CookResult)
      requires manifest.Valid() && manifest.Built()
      modifies manifest`services, set s | s in manifest.services
      ensures manifest.Valid()
      ensures r.InvalidManifest? <==>
                !(LinksOk(old(manifest.View()), |old(manifest.services)|) &&
                  FilesOk(old(manifest.View()), fileExists, |old(manifest.services)|))
      ensures r.InvalidManifest? ==> FirstViolation(old(manifest.View()), fileExists, r.violation)
      ensures var svcs := WithPrometheus(old(manifest.View()), withPrometheus);
              var merged := overrides + old(manifest.overrides) + ReleasePaths(svcs, release);
              r.InvalidManifest? || Decided(svcs, overrides, merged, r)
      ensures r.Cooked? ==>
                var svcs := WithPrometheus(old(manifest.View()), withPrometheus);
                AllDeployed(svcs, manifest.View()) && AllWellBuilt(svcs) && Outcome(svcs, manifest.View(), r)
    {
      hide LinksOk, FilesOk, AllWellBuilt, AllDeployed, WithPrometheus, PortTable, WellBuilt, FirstViolation,
        Decided, ReleasePaths, Outcome;
      BuiltIsWellBuilt(manifest.View());
      var violation := manifest.Validate(fileExists);
      if violation.Some? {
        return InvalidManifest(violation.value);
      }
      AddPrometheus(manifest, withPrometheus);
      assert forall s :: s in manifest.services ==> s in old(manifest.services) || fresh(s);
      r := RunValid(manifest, overrides);
    }

    // The rest of main.runIt, for the manifest that is deployed.
    method RunValid(manifest: Manifest, overrides: map<string, string>) returns (r: CookResult)
      requires manifest.Valid()
      requires AllWellBuilt(manifest.View()) && LinksOk(manifest.View(), |manifest.services|)
      modifies set s | s in manifest.services
      ensures manifest.Valid()
      ensures var svcs := old(manifest.View());
              Decided(svcs, overrides, overrides + manifest.overrides + ReleasePaths(svcs, release), r)
      ensures !r.InvalidManifest?
      ensures r.Cooked? ==>
                AllDeployed(old(manifest.View()), manifest.View()) &&
                Outcome(old(manifest.View()), manifest.View(), r)
    {
      hide LinksOk, AllWellBuilt, AllDeployed, PortTable, OverridesApply, ReleasesFound, ReleasePaths, Outcome,
        Executables, Views;
      var known := OverridesKnown(manifest, overrides);
      if !known {
        return UnknownOverride;
      }
      var merged := MergeOverrides(manifest, overrides, release);
      if merged.None? {
        return NoReleaseArtifact;
      }
      r := StartRunner(manifest, merged.value);
    }

    predicate OverridesNamed(svcs: seq<ServiceView>, overrides: map<string, string>) {
      forall k :: k in overrides ==> FindService(svcs, k).Some?
    }

    // All overrides that are no executables are images of known services.
    predicate OverridesApply(svcs: seq<ServiceView>, merged: map<string, string>) {
      forall k :: k in merged && !pathExists(merged[k]) ==> Applicable(svcs, k, merged[k])
    }

    // How a valid manifest is refused, or run with exactly the executables on the host.
    predicate Decided(
      svcs: seq<ServiceView>, overrides: map<string, string>, merged: map<string, string>, r: CookResult)
    {
      if !OverridesNamed(svcs, overrides) then r == UnknownOverride
      else if !ReleasesFound(svcs, release, |svcs|) then r == NoReleaseArtifact
      else if !OverridesApply(svcs, merged) then r == BadOverride
      else r.Cooked? && r.hosts == Executables(merged)
    }

    // What running the services comes to: no text fails to resolve, ports run
    // out exactly when no choice of host ports would do, an image is missing
    // exactly when a container then has none, and otherwise ports,
    // compose file and host processes are as they should be, the dependencies in
    // the compose file being there exactly when none of them runs on the host.
    ghost predicate Outcome(svcs: seq<ServiceView>, vs: seq<ServiceView>, r: CookResult)
      requires r.Cooked?
    {
      !r.result.TemplateFailure? &&
      (r.result.ReservePanic? <==> !Allocatable(Flat(svcs), {}, refuses, 0)) &&
      (r.result.ImageMissing? <==>
         !r.result.ReservePanic? && SomeImageMissing(vs, r.hosts.Keys, imageExists, |vs|)) &&
      (r.result.Launched? ==>
         FirstFitRun(Flat(vs), {}, refuses, 0) && ComposeFile(vs, r.hosts.Keys, r.result.compose, |vs|) &&
         Launches(HostServices(vs, r.hosts.Keys), r.hosts, vs, r.result.launched) &&
         (DependenciesPresent(r.result.compose) <==> NoHostDependency(vs, r.hosts.Keys)))
    }

    // NewLocalRunner after the overrides are merged, and Run.
    method StartRunner(manifest: Manifest, merged: map<string, string>) returns (r: CookResult)
      requires manifest.Valid()
      requires AllWellBuilt(manifest.View()) && LinksOk(manifest.View(), |manifest.services|)
      modifies set s | s in manifest.services
      ensures manifest.Valid()
      ensures if OverridesApply(old(manifest.View()), merged)
              then r.Cooked? && r.hosts == Executables(merged) && AllDeployed(old(manifest.View()), manifest.View()) &&
                   Outcome(old(manifest.View()), manifest.View(), r)
              else r == BadOverride
    {
      hide LinksOk, AllWellBuilt, AllDeployed, FirstFitRun, ComposeFile, Launches, HostServices, Flat, Allocatable,
        Applicable, Overridden, PortTable, SamePortsButHost, DependenciesPresent, NoHostDependency;
      ghost var start := manifest.View();
      var partition := PartitionOverrides(manifest, merged, pathExists);
      if !partition.Partitioned? {
        return BadOverride;
      }
      ghost var middle := manifest.View();
      PartitionDeploys(start, middle, merged, pathExists);
      DeploymentKeeps(start, middle);
      DeployedFlat(start, middle);
      AllocatableSame(Flat(start), Flat(middle), {}, refuses, 0);
      var runner := new LocalRunner(manifest, partition.hosts);
      assert runner.reservedPorts.Keys == {};
      var result := runner.Run(refuses, imageExists);
      DeployedTwice(start, middle, manifest.View());
      DeploymentKeeps(middle, manifest.View());
      if result.Launched? {
        DependenciesPresentExactly(manifest.View(), partition.hosts.Keys, result.compose);
      }
      return Cooked(partition.hosts, result);
    }
  }

  lemma BuiltIsWellBuilt(svcs: seq<ServiceView>)
    ensures AllWellBuilt(svcs) <==> forall v :: v in svcs ==> WellBuilt(v)
  {
    hide WellBuilt;
  }

  lemma DeploymentKeeps(us: seq<ServiceView>, vs: seq<ServiceView>)
    requires AllDeployed(us, vs) && AllWellBuilt(us) && LinksOk(us, |us|)
    ensures AllWellBuilt(vs) && LinksOk(vs, |vs|)
  {
    hide WellBuilt, LinksOk;
    DeployedLinksOk(us, vs);
    forall i | 0 <= i < |vs|
      ensures WellBuilt(vs[i])
    {
      assert Deployed(us[i], vs[i]);
      DeployedWellBuilt(us[i], vs[i]);
    }
  }

  lemma DeployedTwice(us: seq<ServiceView>, vs: seq<ServiceView>, ws: seq<ServiceView>)
    requires AllDeployed(us, vs) && AllDeployed(vs, ws)
    ensures AllDeployed(us, ws)
  {
    forall i | 0 <= i < |us|
      ensures Deployed(us[i], ws[i])
    {
      assert Deployed(us[i], vs[i]) && Deployed(vs[i], ws[i]);
    }
  }
}
