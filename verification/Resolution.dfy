// The second pass over the templates, when the hosts of all services and their
// host ports are known.
module Resolution {
  import opened Text
  import opened Template
  import opened ServiceSpec
  import opened Allocation

  const LOCALHOST := "localhost"
  const HOST_GATEWAY := "host.docker.internal"

  // A failed lookup panics inside a template function, which the template
  // package turns into an execution error.
  datatype Resolved<+T> = Resolved(value: T) | ParseError | ExecError

  function PrintAddr(protocol: string, host: string, port: int, user: string): string {
    (if protocol != "" then protocol + "://" else "") + (if user != "" then user + "@" else "")
    + host + ":" + Show(port)
  }

  // The network address self uses for a port of another service; None is a failed lookup.
  function ResolveRef(svcs: seq<ServiceView>, hosts: set<string>, self: ServiceView, name: string, portLabel: string)
    : Option<(string, int)>
  {
    var i :- FindService(svcs, name);
    var j :- FindPort(svcs[i].ports, portLabel);
    var port := svcs[i].ports[j];
    if self.name in hosts then Some((LOCALHOST, port.hostPort))
    else if svcs[i].name in hosts then Some((HOST_GATEWAY, port.hostPort))
    else Some((svcs[i].name, port.number))
  }

  // The port number a service is told to listen on.
  function ResolvePort(hosts: set<string>, self: ServiceView, name: string, number: int): Option<int> {
    if self.name in hosts then
      var j :- FindPort(self.ports, name);
      Some(self.ports[j].hostPort)
    else Some(number)
  }

  function ResolvePiece(svcs: seq<ServiceView>, hosts: set<string>, self: ServiceView, p: Piece): Option<string> {
    match p
    case Lit(t) => Some(t)
    case Act(ServiceRef(name, portLabel, protocol, user)) =>
      var (host, port) :- ResolveRef(svcs, hosts, self, name, portLabel);
      Some(PrintAddr(protocol, host, port, user))
    case Act(PortDecl(name, number)) =>
      var port :- ResolvePort(hosts, self, name, number);
      Some(Show(port))
    case Act(PortUDPDecl(name, number)) =>
      var port :- ResolvePort(hosts, self, name, number);
      Some(Show(port))
  }

  function ResolvePieces(
    svcs: seq<ServiceView>, hosts: set<string>, self: ServiceView, ps: seq<Piece>): Option<string> {
    if ps == [] then Some("")
    else
      var first :- ResolvePiece(svcs, hosts, self, ps[0]);
      var rest :- ResolvePieces(svcs, hosts, self, ps[1..]);
      Some(first + rest)
  }

  function ResolveText(svcs: seq<ServiceView>, hosts: set<string>, self: ServiceView, text: string): Resolved<string> {
    match Scan(text)
    case None => ParseError
    case Some(ps) =>
      match ResolvePieces(svcs, hosts, self, ps)
      case None => ExecError
      case Some(t) => Resolved(t)
  }

  // ----- what a resolved text is -----

  // Of the first port of that name of s.
  ghost predicate FirstPort(s: ServiceView, name: string, p: PortView) {
    exists j :: 0 <= j < |s.ports| && s.ports[j] == p && p.name == name &&
                forall k :: 0 <= k < j ==> s.ports[k].name != name
  }

  ghost predicate FirstService(svcs: seq<ServiceView>, name: string, s: ServiceView) {
    exists i :: 0 <= i < |svcs| && svcs[i] == s && s.name == name && forall k :: 0 <= k < i ==> svcs[k].name != name
  }

  // part is a port number as self is told to use it.
  ghost predicate OwnPort(hosts: set<string>, self: ServiceView, name: string, number: int, part: string) {
    if self.name in hosts then exists p :: FirstPort(self, name, p) && part == Show(p.hostPort)
    else part == Show(number)
  }

  // part is the address of a port of another service, in one of the four cases.
  ghost predicate OtherPort(
    svcs: seq<ServiceView>, hosts: set<string>, self: ServiceView,
    name: string, portLabel: string, protocol: string, user: string, part: string)
  {
    exists s, p :: FirstService(svcs, name, s) && FirstPort(s, portLabel, p) &&
      part ==
        if self.name in hosts then PrintAddr(protocol, "localhost", p.hostPort, user)
        else if name in hosts then PrintAddr(protocol, "host.docker.internal", p.hostPort, user)
        else PrintAddr(protocol, name, p.number, user)
  }

  // part is what self reads for the piece.
  ghost predicate Reads(svcs: seq<ServiceView>, hosts: set<string>, self: ServiceView, piece: Piece, part: string) {
    match piece
    case Lit(t) => part == t
    case Act(PortDecl(name, number)) => OwnPort(hosts, self, name, number, part)
    case Act(PortUDPDecl(name, number)) => OwnPort(hosts, self, name, number, part)
    case Act(ServiceRef(name, portLabel, protocol, user)) =>
      OtherPort(svcs, hosts, self, name, portLabel, protocol, user, part)
  }

  // text is made of one part for each piece, in order.
  ghost predicate MadeOf(
    svcs: seq<ServiceView>, hosts: set<string>, self: ServiceView, ps: seq<Piece>, parts: seq<string>, text: string)
  {
    |parts| == |ps| && text == Joined(parts) &&
    forall i :: 0 <= i < |ps| ==> Reads(svcs, hosts, self, ps[i], parts[i])
  }

  function Joined(parts: seq<string>): string {
    if parts == [] then "" else Joined(parts[..|parts| - 1]) + parts[|parts| - 1]
  }

  lemma FirstPortExact(s: ServiceView, name: string)
    ensures forall p :: FirstPort(s, name, p) <==>
              FindPort(s.ports, name).Some? && s.ports[FindPort(s.ports, name).value] == p
  {
  }

  lemma FirstServiceExact(svcs: seq<ServiceView>, name: string)
    ensures forall s :: FirstService(svcs, name, s) <==>
              FindService(svcs, name).Some? && svcs[FindService(svcs, name).value] == s
  {
  }

  lemma ReadsExact(svcs: seq<ServiceView>, hosts: set<string>, self: ServiceView, piece: Piece)
    ensures forall part :: Reads(svcs, hosts, self, piece, part) <==>
              ResolvePiece(svcs, hosts, self, piece) == Some(part)
  {
    hide FirstPort, FirstService, PrintAddr, Show;
    match piece
    case Lit(t) =>
    case Act(PortDecl(name, number)) => FirstPortExact(self, name);
    case Act(PortUDPDecl(name, number)) => FirstPortExact(self, name);
    case Act(ServiceRef(name, portLabel, protocol, user)) => OtherPortExact(svcs, hosts, self, piece);
  }

  lemma OtherPortExact(svcs: seq<ServiceView>, hosts: set<string>, self: ServiceView, piece: Piece)
    requires piece.Act? && piece.action.ServiceRef?
    ensures forall part :: Reads(svcs, hosts, self, piece, part) <==>
              ResolvePiece(svcs, hosts, self, piece) == Some(part)
  {
    hide FirstPort, FirstService, PrintAddr;
    var a := piece.action;
    FirstServiceExact(svcs, a.service);
    var i := FindService(svcs, a.service);
    if i.Some? {
      FirstPortExact(svcs[i.value], a.portLabel);
      var j := FindPort(svcs[i.value].ports, a.portLabel);
      if j.Some? {
        assert FirstService(svcs, a.service, svcs[i.value]);
        assert FirstPort(svcs[i.value], a.portLabel, svcs[i.value].ports[j.value]);
      }
    }
  }

  lemma JoinedCons(first: string, parts: seq<string>)
    ensures Joined([first] + parts) == first + Joined(parts)
  {
    var all := [first] + parts;
    if parts == [] {
      assert all[..0] == [];
    } else {
      var n := |parts| - 1;
      JoinedCons(first, parts[..n]);
      assert all[..|all| - 1] == [first] + parts[..n];
      Associate(first, Joined(parts[..n]), parts[n]);
    }
  }

  lemma {:induction false} PartsOfPieces(svcs: seq<ServiceView>, hosts: set<string>, self: ServiceView, ps: seq<Piece>)
    returns (parts: seq<string>)
    requires ResolvePieces(svcs, hosts, self, ps).Some?
    ensures MadeOf(svcs, hosts, self, ps, parts, ResolvePieces(svcs, hosts, self, ps).value)
  {
    hide Reads, ResolvePiece, Joined;
    if ps == [] {
      parts := [];
      JoinedNothing();
    } else {
      var first := ResolvePiece(svcs, hosts, self, ps[0]).value;
      var rest := PartsOfPieces(svcs, hosts, self, ps[1..]);
      parts := [first] + rest;
      ReadsExact(svcs, hosts, self, ps[0]);
      JoinedCons(first, rest);
      forall i | 0 <= i < |ps|
        ensures Reads(svcs, hosts, self, ps[i], parts[i])
      {
        if i > 0 { assert ps[i] == ps[1..][i - 1]; }
      }
    }
  }

  lemma JoinedNothing()
    ensures Joined([]) == ""
  {
  }

  lemma {:induction false} PiecesOfParts(
    svcs: seq<ServiceView>, hosts: set<string>, self: ServiceView, ps: seq<Piece>, parts: seq<string>, text: string)
    requires MadeOf(svcs, hosts, self, ps, parts, text)
    ensures ResolvePieces(svcs, hosts, self, ps) == Some(text)
  {
    hide Reads, ResolvePiece, Joined;
    if ps == [] {
      JoinedNothing();
    } else {
      assert parts == [parts[0]] + parts[1..];
      JoinedCons(parts[0], parts[1..]);
      assert Reads(svcs, hosts, self, ps[0], parts[0]);
      ReadsExact(svcs, hosts, self, ps[0]);
      PiecesOfParts(svcs, hosts, self, ps[1..], parts[1..], Joined(parts[1..]));
    }
  }

  // A text resolves exactly to the parts its pieces read, one after the other.
  lemma ResolvesExactly(svcs: seq<ServiceView>, hosts: set<string>, self: ServiceView, text: string, result: string)
    ensures ResolveText(svcs, hosts, self, text) == Resolved(result) <==>
            Scan(text).Some? && exists parts :: MadeOf(svcs, hosts, self, Scan(text).value, parts, result)
  {
    hide Scan, ResolvePieces, MadeOf;
    if ResolveText(svcs, hosts, self, text) == Resolved(result) {
      var parts := PartsOfPieces(svcs, hosts, self, Scan(text).value);
    }
    if Scan(text).Some? {
      if parts :| MadeOf(svcs, hosts, self, Scan(text).value, parts, result) {
        PiecesOfParts(svcs, hosts, self, Scan(text).value, parts, result);
      }
    }
  }

  // A text without actions stays as it is.
  lemma LiteralResolves(svcs: seq<ServiceView>, hosts: set<string>, self: ServiceView, text: string)
    requires Find(text, "{{").None?
    ensures ResolveText(svcs, hosts, self, text) == Resolved(text)
  {
    hide Find;
    if text != "" {
      assert [Lit(text)][1..] == [] && text + "" == text;
      assert ResolvePieces(svcs, hosts, self, []) == Some("");
    }
  }

  // The text with which a service names its own port.
  function PortText(protocol: string, name: string, number: int): string {
    Print([Act(if protocol == UDP then PortUDPDecl(name, number) else PortDecl(name, number))])
  }

  // On the host it becomes the reserved host port, in a container the port itself.
  lemma OwnPortResolves(
    svcs: seq<ServiceView>, hosts: set<string>, self: ServiceView, protocol: string, name: string, number: int, j: nat)
    requires Plain(name) && IsInt64(number) && FindPort(self.ports, name) == Some(j)
    ensures ResolveText(svcs, hosts, self, PortText(protocol, name, number)) ==
            Resolved(if self.name in hosts then Show(self.ports[j].hostPort) else Show(number))
  {
    hide Scan, Print, Show;
    var p := Act(if protocol == UDP then PortUDPDecl(name, number) else PortDecl(name, number));
    ScanPrint([p]);
    assert [p][1..] == [];
    assert ResolvePieces(svcs, hosts, self, [p][1..]) == Some("");
    var shown := if self.name in hosts then Show(self.ports[j].hostPort) else Show(number);
    assert shown + "" == shown;
  }

  // Resolving the re-printed text instead of the original gives the same result.
  lemma ReprintedTextResolvesAlike(svcs: seq<ServiceView>, hosts: set<string>, self: ServiceView, text: string)
    requires FirstPass(text).FirstPassOk?
    requires !Contains(text, ESCAPED_QUOTE)
    ensures ResolveText(svcs, hosts, self, FirstPass(text).text) == ResolveText(svcs, hosts, self, text)
  {
    hide FirstPass, Scan, ResolvePieces;
    FirstPassStable(text);
  }

  // ----- what deployment leaves as it was -----

  // v is u after host ports were reserved and images overridden.
  predicate Deployed(u: ServiceView, v: ServiceView) {
    v == u.(ports := v.ports, image := v.image, tag := v.tag) && SamePortsButHost(u.ports, v.ports)
  }

  predicate AllDeployed(us: seq<ServiceView>, vs: seq<ServiceView>) {
    |us| == |vs| && forall i :: 0 <= i < |us| ==> Deployed(us[i], vs[i])
  }

  predicate AllWellBuilt(svcs: seq<ServiceView>) {
    forall i :: 0 <= i < |svcs| ==> WellBuilt(svcs[i])
  }

  lemma {:induction false} DeployedFindService(us: seq<ServiceView>, vs: seq<ServiceView>, name: string)
    requires AllDeployed(us, vs)
    ensures FindService(us, name) == FindService(vs, name)
  {
    if us != [] {
      assert Deployed(us[0], vs[0]);
      DeployedFindService(us[1..], vs[1..], name);
    }
  }

  lemma {:induction false} SamePortsFindPort(us: seq<PortView>, vs: seq<PortView>, name: string)
    requires SamePortsButHost(us, vs)
    ensures FindPort(us, name) == FindPort(vs, name)
  {
    if us != [] {
      assert vs[0] == us[0].(hostPort := vs[0].hostPort);
      SamePortsFindPort(us[1..], vs[1..], name);
    }
  }

  lemma DeployedLinksOk(us: seq<ServiceView>, vs: seq<ServiceView>)
    requires AllDeployed(us, vs) && LinksOk(us, |us|)
    ensures LinksOk(vs, |vs|)
  {
    forall i | 0 <= i < |vs|
      ensures forall k :: 0 <= k < |vs[i].nodeRefs| ==> CheckRef(vs, vs[i].nodeRefs[k]) == RefOk
      ensures forall k :: 0 <= k < |vs[i].dependsOn| ==> CheckDependency(vs, vs[i].dependsOn[k]) == DependencyOk
    {
      assert Deployed(us[i], vs[i]);
      forall k | 0 <= k < |vs[i].nodeRefs|
        ensures CheckRef(vs, vs[i].nodeRefs[k]) == RefOk
      {
        DeployedCheckRef(us, vs, us[i].nodeRefs[k]);
      }
      forall k | 0 <= k < |vs[i].dependsOn|
        ensures CheckDependency(vs, vs[i].dependsOn[k]) == DependencyOk
      {
        DeployedCheckDependency(us, vs, us[i].dependsOn[k]);
      }
    }
  }

  lemma DeployedCheckRef(us: seq<ServiceView>, vs: seq<ServiceView>, ref: NodeRef)
    requires AllDeployed(us, vs)
    ensures CheckRef(us, ref) == CheckRef(vs, ref)
  {
    DeployedFindService(us, vs, ref.service);
    match FindService(us, ref.service)
    case None =>
    case Some(i) =>
      assert Deployed(us[i], vs[i]);
      SamePortsFindPort(us[i].ports, vs[i].ports, ref.portLabel);
  }

  lemma DeployedCheckDependency(us: seq<ServiceView>, vs: seq<ServiceView>, dependency: DependsOn)
    requires AllDeployed(us, vs)
    ensures CheckDependency(us, dependency) == CheckDependency(vs, dependency)
  {
    DeployedFindService(us, vs, dependency.name);
    match FindService(us, dependency.name)
    case None =>
    case Some(i) => assert Deployed(us[i], vs[i]);
  }

  lemma DeployedPresent(us: seq<PortView>, vs: seq<PortView>, d: Decl)
    requires SamePortsButHost(us, vs) && Present(us, d)
    ensures Present(vs, d)
  {
    var i :| 0 <= i < |us| && DeclOf(us[i]) == d;
    assert DeclOf(vs[i]) == d;
  }

  lemma DeployedRegistered(u: ServiceView, v: ServiceView, text: string)
    requires Deployed(u, v) && Registered(u, text)
    ensures Registered(v, text)
  {
    forall d | d in DeclsOf(FirstPass(text).pieces)
      ensures Present(v.ports, d)
    {
      DeployedPresent(u.ports, v.ports, d);
    }
  }

  lemma DeployedWellBuilt(u: ServiceView, v: ServiceView)
    requires Deployed(u, v) && WellBuilt(u)
    ensures WellBuilt(v)
  {
    hide Registered;
    forall i | 0 <= i < |v.args| ensures Registered(v, v.args[i]) { DeployedRegistered(u, v, u.args[i]); }
    forall k | k in v.env ensures Registered(v, v.env[k]) { DeployedRegistered(u, v, u.env[k]); }
    assert PortTable(v.ports) by {
      forall i | 0 <= i < |v.ports|
        ensures v.ports[i] == u.ports[i].(hostPort := v.ports[i].hostPort) && Supported(DeclOf(u.ports[i]))
      {
      }
    }
  }

  // ----- resolution cannot fail -----

  lemma {:induction false} ResolvePiecesSafe(
      svcs: seq<ServiceView>, hosts: set<string>, self: ServiceView, all: seq<Piece>, n: nat)
    requires n <= |all|
    requires forall d :: d in DeclsOf(all) ==> Present(self.ports, d)
    requires forall r :: r in RefsOf(all) ==> CheckRef(svcs, r) == RefOk
    ensures ResolvePieces(svcs, hosts, self, all[n..]).Some?
    decreases |all| - n
  {
    if n < |all| {
      ResolvePiecesSafe(svcs, hosts, self, all, n + 1);
      assert all[n..][0] == all[n] && all[n..][1..] == all[n + 1..];
      if all[n].Act? {
        PieceCollected(all, n);
        match all[n].action
        case ServiceRef(s, l, p, u) => assert CheckRef(svcs, NodeRef(s, l, p, u)) == RefOk;
        case PortDecl(name, number) => PresentFindPort(self.ports, Decl(name, number, TCP));
        case PortUDPDecl(name, number) => PresentFindPort(self.ports, Decl(name, number, UDP));
      }
    }
  }

  lemma PresentFindPort(ports: seq<PortView>, d: Decl)
    requires Present(ports, d)
    ensures FindPort(ports, d.name).Some?
  {
    var i :| 0 <= i < |ports| && DeclOf(ports[i]) == d;
    assert ports[i].name == d.name;
  }

  // In a validated manifest of built services every argument and environment
  // value of every service resolves, whichever services run on the host and
  // whatever host ports were reserved.
  lemma ResolutionSafe(
      us: seq<ServiceView>, vs: seq<ServiceView>, hosts: set<string>, i: nat, text: string)
    requires AllWellBuilt(us) && LinksOk(us, |us|)
    requires AllDeployed(us, vs)
    requires i < |vs| && (text in vs[i].args || text in vs[i].env.Values)
    ensures ResolveText(vs, hosts, vs[i], text).Resolved?
  {
    hide FirstPass, CheckRef;
    DeployedLinksOk(us, vs);
    assert Deployed(us[i], vs[i]) && WellBuilt(us[i]);
    DeployedWellBuilt(us[i], vs[i]);
    assert Registered(vs[i], text);
    RegisteredScans(text);
    var ps := FirstPass(text).pieces;
    forall r | r in RefsOf(ps)
      ensures CheckRef(vs, r) == RefOk
    {
      assert r in vs[i].nodeRefs;
    }
    ResolvePiecesSafe(vs, hosts, vs[i], ps, 0);
    assert ps[0..] == ps;
  }

  lemma RegisteredScans(text: string)
    requires FirstPass(text).FirstPassOk?
    ensures Scan(text) == Some(FirstPass(text).pieces)
  {
  }

  // ----- a service without references or dependencies can be added later -----

  lemma {:induction false} AppendFindService(svcs: seq<ServiceView>, p: ServiceView, name: string)
    requires FindService(svcs, name).Some?
    ensures FindService(svcs + [p], name) == FindService(svcs, name)
  {
    if svcs[0].name != name {
      AppendFindService(svcs[1..], p, name);
      assert (svcs + [p])[1..] == svcs[1..] + [p];
    }
  }

  lemma AppendKeepsLinks(svcs: seq<ServiceView>, p: ServiceView)
    requires LinksOk(svcs, |svcs|) && p.nodeRefs == [] && p.dependsOn == []
    ensures LinksOk(svcs + [p], |svcs| + 1)
  {
    var all := svcs + [p];
    forall i | 0 <= i < |all|
      ensures forall k :: 0 <= k < |all[i].nodeRefs| ==> CheckRef(all, all[i].nodeRefs[k]) == RefOk
      ensures forall k :: 0 <= k < |all[i].dependsOn| ==> CheckDependency(all, all[i].dependsOn[k]) == DependencyOk
    {
      if i < |svcs| {
        assert all[i] == svcs[i];
        forall k | 0 <= k < |all[i].nodeRefs|
          ensures CheckRef(all, all[i].nodeRefs[k]) == RefOk
        {
          assert CheckRef(svcs, svcs[i].nodeRefs[k]) == RefOk;
          AppendFindService(svcs, p, svcs[i].nodeRefs[k].service);
        }
        forall k | 0 <= k < |all[i].dependsOn|
          ensures CheckDependency(all, all[i].dependsOn[k]) == DependencyOk
        {
          assert CheckDependency(svcs, svcs[i].dependsOn[k]) == DependencyOk;
          AppendFindService(svcs, p, svcs[i].dependsOn[k].name);
        }
      }
    }
  }

  const PROMETHEUS_CALLS: seq<BuildOp> := [
    WithImage("prom/prometheus"),
    WithTag("latest"),
    WithArgs(["--config.file", "/data/prometheus.yaml"]),
    WithPort("metrics", 9090, ["tcp"]),
    WithArtifact("/data/prometheus.yaml", "prometheus.yaml")]

  lemma PlainTextApplies(v: ServiceView, text: string)
    requires text != "" && forall i :: 0 <= i < |text| ==> text[i] != '{'
    ensures ApplyText(v, text) == Some(v)
  {
    NoBraceNoAction(text);
    var ps := [Lit(text)];
    assert Scan(text) == Some(ps) && ps[1..] == [];
    assert DeclsOf(ps) == DeclsOf([]) && RefsOf(ps) == RefsOf([]);
    assert v.nodeRefs + [] == v.nodeRefs;
  }

  lemma NoBraceNoAction(text: string)
    requires forall i :: 0 <= i < |text| ==> text[i] != '{'
    ensures Find(text, "{{").None?
  {
    forall i: nat | i + 2 <= |text|
      ensures !At(text, i, "{{")
    {
      assert text[i..i + 2][0] == text[i];
    }
  }

  lemma PrometheusArgs(v: ServiceView)
    ensures ApplyTexts(v, ["--config.file", "/data/prometheus.yaml"]) == Some(v)
  {
    hide ApplyText;
    var first, second := "--config.file", "/data/prometheus.yaml";
    PlainTextApplies(v, first);
    PlainTextApplies(v, second);
    assert [first][..0] == [] && [first, second][..1] == [first];
    assert ApplyTexts(v, [first]) == Some(v);
  }

  // The prometheus service as it is built.
  function Prometheus(): ServiceView {
    NewService("prometheus").(
      image := "prom/prometheus",
      tag := "latest",
      args := ["--config.file", "/data/prometheus.yaml"],
      ports := [PortView("metrics", 9090, TCP, 0)],
      filesMapped := map["/data/prometheus.yaml" := "prometheus.yaml"])
  }

  lemma PrometheusBuilt()
    ensures ApplyOps(NewService("prometheus"), PROMETHEUS_CALLS) == Some(Prometheus())
  {
    hide ApplyTexts, ApplyOps, Declare;
    var ops := PROMETHEUS_CALLS;
    var v0 := NewService("prometheus");
    var v1 := v0.(image := "prom/prometheus");
    var v2 := v1.(tag := "latest");
    var v3 := v2.(args := ["--config.file", "/data/prometheus.yaml"]);
    var v4 := v3.(ports := [PortView("metrics", 9090, TCP, 0)]);
    NoCalls(v0);
    OneMoreCall(v0, [], v0, ops[0]);
    OneMoreCall(v0, [] + [ops[0]], v1, ops[1]);
    PrometheusArgs(v2);
    assert v2.args + ["--config.file", "/data/prometheus.yaml"] == v3.args;
    OneMoreCall(v0, [] + [ops[0]] + [ops[1]], v2, ops[2]);
    MetricsPort();
    OneMoreCall(v0, [] + [ops[0]] + [ops[1]] + [ops[2]], v3, ops[3]);
    OneMoreCall(v0, [] + [ops[0]] + [ops[1]] + [ops[2]] + [ops[3]], v4, ops[4]);
    assert ops == [] + [ops[0]] + [ops[1]] + [ops[2]] + [ops[3]] + [ops[4]];
  }

  lemma MetricsPort()
    ensures Declare([], Decl("metrics", 9090, "tcp")) == Some([PortView("metrics", 9090, TCP, 0)])
  {
    assert [] + [PortView("metrics", 9090, TCP, 0)] == [PortView("metrics", 9090, TCP, 0)];
  }

  // The prometheus service added after validation keeps the manifest closed.
  lemma PrometheusKeepsLinks(svcs: seq<ServiceView>)
    requires AllWellBuilt(svcs) && LinksOk(svcs, |svcs|)
    ensures ApplyOps(NewService("prometheus"), PROMETHEUS_CALLS) == Some(Prometheus())
    ensures AllWellBuilt(svcs + [Prometheus()]) && LinksOk(svcs + [Prometheus()], |svcs| + 1)
  {
    hide ApplyOps, WellBuilt, LinksOk;
    PrometheusBuilt();
    BuiltServicesAreWellBuilt("prometheus", PROMETHEUS_CALLS);
    AppendKeepsLinks(svcs, Prometheus());
  }
}
