// The value of a service description and what each builder call does to it.
// The classes of module Manifests are proved against these functions.
module ServiceSpec {
  import opened Text
  import opened Template

  const TCP := "tcp"
  const UDP := "udp"
  const USE_HOST_EXECUTION := "use-host-execution"

  datatype PortView = PortView(name: string, number: int, protocol: string, hostPort: int)

  datatype NodeRef = NodeRef(service: string, portLabel: string, protocol: string, user: string)

  datatype Condition = Running | Healthy

  datatype DependsOn = DependsOn(name: string, condition: Condition)

  // How a container is probed; times are in nanoseconds.
  datatype ReadyCheck = ReadyCheck(
    queryURL: string,
    test: seq<string>,
    interval: int,
    startPeriod: int,
    timeout: int,
    retries: int)

  datatype ServiceView = ServiceView(
    name: string,
    args: seq<string>,
    env: map<string, string>,
    labels: map<string, string>,
    ports: seq<PortView>,
    nodeRefs: seq<NodeRef>,
    dependsOn: seq<DependsOn>,
    readyCheck: Option<ReadyCheck>,
    filesMapped: map<string, string>,
    volumesMapped: map<string, string>,
    image: string,
    tag: string,
    entrypoint: string)

  function NewService(name: string): ServiceView {
    ServiceView(name, [], map[], map[], [], [], [], None, map[], map[], "", "", "")
  }

  // ----- port declarations -----

  datatype Decl = Decl(name: string, number: int, protocol: string)

  predicate Supported(d: Decl) { d.protocol == TCP || d.protocol == UDP }

  function DeclOf(p: PortView): Decl { Decl(p.name, p.number, p.protocol) }

  // A port of the same name with a different number.
  predicate Conflicts(ports: seq<PortView>, d: Decl) {
    exists i :: 0 <= i < |ports| && ports[i].name == d.name && ports[i].number != d.number
  }

  predicate Present(ports: seq<PortView>, d: Decl) {
    exists i :: 0 <= i < |ports| && DeclOf(ports[i]) == d
  }

  // One number per name, one entry per name and protocol.
  predicate PortTable(ports: seq<PortView>) {
    (forall i :: 0 <= i < |ports| ==> Supported(DeclOf(ports[i]))) &&
    (forall i, j :: 0 <= i < j < |ports| && ports[i].name == ports[j].name ==>
       ports[i].number == ports[j].number && ports[i].protocol != ports[j].protocol)
  }

  // None is a panic.
  function Declare(ports: seq<PortView>, d: Decl): Option<seq<PortView>> {
    if !Supported(d) || Conflicts(ports, d) then None
    else if Present(ports, d) then Some(ports)
    else Some(ports + [PortView(d.name, d.number, d.protocol, 0)])
  }

  function DeclareAll(ports: seq<PortView>, ds: seq<Decl>): Option<seq<PortView>> {
    if ds == [] then Some(ports)
    else
      var before :- DeclareAll(ports, ds[..|ds| - 1]);
      Declare(before, ds[|ds| - 1])
  }

  lemma DeclareKeeps(ports: seq<PortView>, d: Decl)
    requires PortTable(ports)
    requires Declare(ports, d).Some?
    ensures var after := Declare(ports, d).value;
            PortTable(after) && ports <= after && Present(after, d)
            && (forall e :: Present(after, e) <==> Present(ports, e) || e == d)
  {
    var after := Declare(ports, d).value;
    if !Present(ports, d) {
      var n := |ports|;
      assert DeclOf(after[n]) == d;
      forall e
        ensures Present(after, e) <==> Present(ports, e) || e == d
      {
        if Present(ports, e) {
          var i :| 0 <= i < n && DeclOf(ports[i]) == e;
          assert DeclOf(after[i]) == e;
        }
      }
      forall i | 0 <= i < n && ports[i].name == d.name
        ensures ports[i].number == d.number && ports[i].protocol != d.protocol
      {
        assert DeclOf(ports[i]) != d;
      }
    }
  }

  lemma {:induction false} DeclareAllKeeps(ports: seq<PortView>, ds: seq<Decl>)
    requires PortTable(ports)
    requires DeclareAll(ports, ds).Some?
    ensures var after := DeclareAll(ports, ds).value;
            PortTable(after) && ports <= after
            && (forall e :: Present(after, e) <==> Present(ports, e) || e in ds)
  {
    if ds != [] {
      var init, d := ds[..|ds| - 1], ds[|ds| - 1];
      DeclareAllKeeps(ports, init);
      DeclareKeeps(DeclareAll(ports, init).value, d);
      assert ds == init + [d];
    }
  }

  lemma {:induction false} DeclareAllPrefix(ports: seq<PortView>, ds: seq<Decl>, k: nat)
    requires k <= |ds|
    requires DeclareAll(ports, ds).Some?
    ensures DeclareAll(ports, ds[..k]).Some?
  {
    if k < |ds| {
      DeclareAllPrefix(ports, ds[..|ds| - 1], k);
      assert ds[..|ds| - 1][..k] == ds[..k];
    } else {
      assert ds[..k] == ds;
    }
  }

  predicate SameNameDifferentNumber(ds: seq<Decl>) {
    exists i, j :: 0 <= i < |ds| && 0 <= j < |ds| && ds[i].name == ds[j].name && ds[i].number != ds[j].number
  }

  predicate AllSupported(ds: seq<Decl>) {
    forall d :: d in ds ==> Supported(d)
  }

  // A sequence of declarations panics exactly when one is unsupported or two
  // give the same name different numbers.
  lemma {:induction false} PortConflictExact(ds: seq<Decl>)
    ensures DeclareAll([], ds).None? <==> !AllSupported(ds) || SameNameDifferentNumber(ds)
  {
    hide PortTable, Supported;
    if ds != [] {
      var init, d := ds[..|ds| - 1], ds[|ds| - 1];
      assert ds == init + [d];
      PortConflictExact(init);
      if DeclareAll([], init).Some? {
        var before := DeclareAll([], init).value;
        DeclareAllKeeps([], init);
        if Conflicts(before, d) {
          var i :| 0 <= i < |before| && before[i].name == d.name && before[i].number != d.number;
          assert Present(before, DeclOf(before[i]));
          assert DeclOf(before[i]) in init;
          var j :| 0 <= j < |init| && init[j] == DeclOf(before[i]);
          assert ds[j].name == ds[|ds| - 1].name && ds[j].number != ds[|ds| - 1].number;
        } else if SameNameDifferentNumber(ds) {
          LatestConflict(before, init, d);
        }
      } else if SameNameDifferentNumber(init) {
        var i, j :|
          0 <= i < |init| && 0 <= j < |init| && init[i].name == init[j].name && init[i].number != init[j].number;
        assert ds[i].name == ds[j].name && ds[i].number != ds[j].number;
      }
    }
  }

  lemma LatestConflict(before: seq<PortView>, init: seq<Decl>, d: Decl)
    requires forall e :: Present(before, e) <==> e in init
    requires !SameNameDifferentNumber(init) && SameNameDifferentNumber(init + [d])
    ensures Conflicts(before, d)
  {
    var ds := init + [d];
    var i, j :| 0 <= i < |ds| && 0 <= j < |ds| && ds[i].name == ds[j].name && ds[i].number != ds[j].number;
    var k := if i == |init| then j else i;
    assert ds[k] in init;
    assert Present(before, ds[k]);
    var m :| 0 <= m < |before| && DeclOf(before[m]) == ds[k];
    assert before[m].name == d.name && before[m].number != d.number;
  }

  function DeclSet(ports: seq<PortView>): set<Decl> { set i | 0 <= i < |ports| :: DeclOf(ports[i]) }

  // The outcome depends on which ports are declared, not on their order or
  // repetition, and the table is their union without duplicates.
  lemma PortOrderIrrelevant(ds: seq<Decl>, es: seq<Decl>)
    requires forall d :: d in ds <==> d in es
    ensures DeclareAll([], ds).None? <==> DeclareAll([], es).None?
    ensures DeclareAll([], ds).Some? ==>
              var (p, q) := (DeclareAll([], ds).value, DeclareAll([], es).value);
              DeclSet(p) == DeclSet(q) == (set d | d in ds) && |p| == |q| == |DeclSet(p)|
  {
    PortConflictExact(ds);
    PortConflictExact(es);
    ConflictBySet(ds, es);
    ConflictBySet(es, ds);
    if DeclareAll([], ds).Some? {
      DeclareAllUnion(ds);
      DeclareAllUnion(es);
    }
  }

  lemma ConflictBySet(ds: seq<Decl>, es: seq<Decl>)
    requires forall d :: d in ds ==> d in es
    ensures SameNameDifferentNumber(ds) ==> SameNameDifferentNumber(es)
  {
    if SameNameDifferentNumber(ds) {
      var i, j :| 0 <= i < |ds| && 0 <= j < |ds| && ds[i].name == ds[j].name && ds[i].number != ds[j].number;
      assert ds[i] in es && ds[j] in es;
      var k :| 0 <= k < |es| && es[k] == ds[i];
      var l :| 0 <= l < |es| && es[l] == ds[j];
      assert es[k].name == es[l].name && es[k].number != es[l].number;
    }
  }

  lemma DeclareAllUnion(ds: seq<Decl>)
    requires DeclareAll([], ds).Some?
    ensures var ports := DeclareAll([], ds).value;
            DeclSet(ports) == (set d | d in ds) && |ports| == |DeclSet(ports)|
  {
    DeclareAllKeeps([], ds);
    var ports := DeclareAll([], ds).value;
    forall d
      ensures d in DeclSet(ports) <==> d in ds
    {
      assert d in DeclSet(ports) <==> Present(ports, d);
    }
    DeclSetSize(ports);
  }

  lemma {:induction false} DeclSetSize(ports: seq<PortView>)
    requires PortTable(ports)
    ensures |DeclSet(ports)| == |ports|
  {
    if ports != [] {
      var init, last := ports[..|ports| - 1], ports[|ports| - 1];
      DeclSetSize(init);
      assert DeclOf(last) !in DeclSet(init);
      assert DeclSet(ports) == DeclSet(init) + {DeclOf(last)};
    }
  }

  // Declaring again what is already declared changes nothing.
  lemma {:induction false} RedeclareIdempotent(ports: seq<PortView>, ds: seq<Decl>)
    requires PortTable(ports)
    requires forall d :: d in ds ==> Present(ports, d)
    ensures DeclareAll(ports, ds) == Some(ports)
  {
    if ds != [] {
      var init, d := ds[..|ds| - 1], ds[|ds| - 1];
      RedeclareIdempotent(ports, init);
      assert d in ds && Present(ports, d);
      var k :| 0 <= k < |ports| && DeclOf(ports[k]) == d;
      forall i | 0 <= i < |ports| && ports[i].name == d.name
        ensures ports[i].number == d.number
      {
        if i < k { assert ports[i].name == ports[k].name; } else if k < i { assert ports[k].name == ports[i].name; }
      }
    }
  }

  // ----- lookups: the first entry with the given name -----

  function FindPort(ports: seq<PortView>, name: string): (r: Option<nat>)
    ensures r.Some? ==> r.value < |ports| && ports[r.value].name == name
    ensures r.Some? ==> forall i :: 0 <= i < r.value ==> ports[i].name != name
    ensures r.None? ==> forall i :: 0 <= i < |ports| ==> ports[i].name != name
  {
    if ports == [] then None
    else if ports[0].name == name then Some(0)
    else
      match FindPort(ports[1..], name)
      case None => None
      case Some(i) => Some(i + 1)
  }

  function FindService(svcs: seq<ServiceView>, name: string): (r: Option<nat>)
    ensures r.Some? ==> r.value < |svcs| && svcs[r.value].name == name
    ensures r.Some? ==> forall i :: 0 <= i < r.value ==> svcs[i].name != name
    ensures r.None? ==> forall i :: 0 <= i < |svcs| ==> svcs[i].name != name
  {
    if svcs == [] then None
    else if svcs[0].name == name then Some(0)
    else
      match FindService(svcs[1..], name)
      case None => None
      case Some(i) => Some(i + 1)
  }

  // ----- builder calls -----

  function DeclsOf(ps: seq<Piece>): seq<Decl> {
    if ps == [] then []
    else
      (match ps[0]
       case Act(PortDecl(n, k)) => [Decl(n, k, TCP)]
       case Act(PortUDPDecl(n, k)) => [Decl(n, k, UDP)]
       case _ => []) + DeclsOf(ps[1..])
  }

  function RefsOf(ps: seq<Piece>): seq<NodeRef> {
    if ps == [] then []
    else
      (match ps[0]
       case Act(ServiceRef(s, l, p, u)) => [NodeRef(s, l, p, u)]
       case _ => []) + RefsOf(ps[1..])
  }

  lemma {:induction false} PieceCollected(ps: seq<Piece>, i: nat)
    requires i < |ps| && ps[i].Act?
    ensures match ps[i].action
            case ServiceRef(s, l, p, u) => NodeRef(s, l, p, u) in RefsOf(ps)
            case PortDecl(n, k) => Decl(n, k, TCP) in DeclsOf(ps)
            case PortUDPDecl(n, k) => Decl(n, k, UDP) in DeclsOf(ps)
  {
    if i > 0 {
      PieceCollected(ps[1..], i - 1);
    }
  }

  // And nothing else is recorded.
  lemma {:induction false} CollectedPiece(ps: seq<Piece>)
    ensures forall r :: r in RefsOf(ps) ==> Act(ServiceRef(r.service, r.portLabel, r.protocol, r.user)) in ps
    ensures forall d :: d in DeclsOf(ps) ==>
              (d.protocol == TCP && Act(PortDecl(d.name, d.number)) in ps) ||
              (d.protocol == UDP && Act(PortUDPDecl(d.name, d.number)) in ps)
  {
    if ps != [] {
      CollectedPiece(ps[1..]);
      assert ps == [ps[0]] + ps[1..];
    }
  }

  // Pieces are recorded in order, and each action once.
  lemma {:induction false} RefsAddUp(a: seq<Piece>, b: seq<Piece>)
    ensures RefsOf(a + b) == RefsOf(a) + RefsOf(b)
  {
    if a == [] {
      assert [] + b == b;
    } else {
      RefsAddUp(a[1..], b);
      assert (a + b)[1..] == a[1..] + b && (a + b)[0] == a[0];
    }
  }

  lemma {:induction false} DeclsAddUp(a: seq<Piece>, b: seq<Piece>)
    ensures DeclsOf(a + b) == DeclsOf(a) + DeclsOf(b)
  {
    hide FirstDecls, DeclsOf;
    if a == [] {
      NoDecls();
      assert [] + b == b;
    } else {
      DeclsAddUp(a[1..], b);
      assert (a + b)[1..] == a[1..] + b && (a + b)[0] == a[0];
      DeclsStep(a);
      DeclsStep(a + b);
    }
  }

  // What the first piece declares.
  function FirstDecls(p: Piece): seq<Decl> {
    match p
    case Act(PortDecl(n, k)) => [Decl(n, k, TCP)]
    case Act(PortUDPDecl(n, k)) => [Decl(n, k, UDP)]
    case _ => []
  }

  lemma NoDecls()
    ensures DeclsOf([]) == []
  {
  }

  lemma DeclsStep(ps: seq<Piece>)
    requires ps != []
    ensures DeclsOf(ps) == FirstDecls(ps[0]) + DeclsOf(ps[1..])
  {
  }

  lemma {:induction false} ActionsCounted(ps: seq<Piece>)
    ensures |RefsOf(ps)| + |DeclsOf(ps)| == |Actions(ps)|
  {
    if ps != [] { ActionsCounted(ps[1..]); }
  }

  function Actions(ps: seq<Piece>): seq<Action> {
    if ps == [] then [] else (if ps[0].Act? then [ps[0].action] else []) + Actions(ps[1..])
  }

  function ApplyText(v: ServiceView, text: string): Option<ServiceView> {
    match FirstPass(text)
    case FirstPassPanic => None
    case FirstPassOk(_, ps) =>
      var ports :- DeclareAll(v.ports, DeclsOf(ps));
      Some(v.(ports := ports, nodeRefs := v.nodeRefs + RefsOf(ps)))
  }

  function ApplyTexts(v: ServiceView, texts: seq<string>): Option<ServiceView> {
    if texts == [] then Some(v)
    else
      var before :- ApplyTexts(v, texts[..|texts| - 1]);
      ApplyText(before, texts[|texts| - 1])
  }

  datatype BuildOp =
    | WithPort(name: string, number: int, protocolVar: seq<string>)
    | WithArgs(args: seq<string>)
    | WithEnv(key: string, value: string)
    | WithLabel(key: string, value: string)
    | WithArtifact(localPath: string, artifact: string)
    | WithVolume(volume: string, localPath: string)
    | WithReady(check: ReadyCheck)
    | WithDependency(dependency: DependsOn)
    | WithImage(image: string)
    | WithTag(tag: string)
    | WithEntrypoint(entrypoint: string)

  function ApplyOp(v: ServiceView, op: BuildOp): Option<ServiceView> {
    match op
    case WithPort(name, number, protocolVar) =>
      var ports :- Declare(v.ports, Decl(name, number, if |protocolVar| > 0 then protocolVar[0] else TCP));
      Some(v.(ports := ports))
    case WithArgs(args) =>
      var after :- ApplyTexts(v, args);
      Some(after.(args := after.args + args))
    case WithEnv(key, value) =>
      var after :- ApplyText(v, value);
      Some(after.(env := after.env[key := value]))
    case WithLabel(key, value) => Some(v.(labels := v.labels[key := value]))
    case WithArtifact(localPath, artifact) => Some(v.(filesMapped := v.filesMapped[localPath := artifact]))
    case WithVolume(volume, localPath) => Some(v.(volumesMapped := v.volumesMapped[localPath := volume]))
    case WithReady(check) => Some(v.(readyCheck := Some(check)))
    case WithDependency(dependency) => Some(v.(dependsOn := v.dependsOn + [dependency]))
    case WithImage(image) => Some(v.(image := image))
    case WithTag(tag) => Some(v.(tag := tag))
    case WithEntrypoint(entrypoint) => Some(v.(entrypoint := entrypoint))
  }

  function ApplyOps(v: ServiceView, ops: seq<BuildOp>): Option<ServiceView> {
    if ops == [] then Some(v)
    else
      var before :- ApplyOps(v, ops[..|ops| - 1]);
      ApplyOp(before, ops[|ops| - 1])
  }

  lemma OneMoreCall(v: ServiceView, ops: seq<BuildOp>, u: ServiceView, op: BuildOp)
    requires ApplyOps(v, ops) == Some(u)
    ensures ApplyOps(v, ops + [op]) == ApplyOp(u, op)
  {
    hide ApplyOp;
    assert (ops + [op])[..|ops + [op]| - 1] == ops && (ops + [op])[|ops|] == op;
  }

  lemma NoCalls(v: ServiceView)
    ensures ApplyOps(v, []) == Some(v)
  {
  }

  lemma {:induction false} ApplyTextsPrefix(v: ServiceView, texts: seq<string>, k: nat)
    requires k <= |texts|
    requires ApplyTexts(v, texts).Some?
    ensures ApplyTexts(v, texts[..k]).Some?
  {
    if k < |texts| {
      ApplyTextsPrefix(v, texts[..|texts| - 1], k);
      assert texts[..|texts| - 1][..k] == texts[..k];
    } else {
      assert texts[..k] == texts;
    }
  }

  lemma {:induction false} ApplyOpsPrefix(v: ServiceView, ops: seq<BuildOp>, k: nat)
    requires k <= |ops|
    requires ApplyOps(v, ops).Some?
    ensures ApplyOps(v, ops[..k]).Some?
  {
    if k < |ops| {
      ApplyOpsPrefix(v, ops[..|ops| - 1], k);
      assert ops[..|ops| - 1][..k] == ops[..k];
    } else {
      assert ops[..k] == ops;
    }
  }

  // ----- what every built service satisfies -----

  // The text scans, and everything it mentions is recorded in the service.
  predicate Registered(v: ServiceView, text: string) {
    match FirstPass(text)
    case FirstPassPanic => false
    case FirstPassOk(_, ps) =>
      (forall d :: d in DeclsOf(ps) ==> Present(v.ports, d)) &&
      (forall r :: r in RefsOf(ps) ==> r in v.nodeRefs)
  }

  predicate WellBuilt(v: ServiceView) {
    PortTable(v.ports) &&
    (forall i :: 0 <= i < |v.args| ==> Registered(v, v.args[i])) &&
    (forall k :: k in v.env ==> Registered(v, v.env[k]))
  }

  // v records at least what u records, and differs in nothing but ports and references.
  predicate Grows(u: ServiceView, v: ServiceView) {
    u.ports <= v.ports && u.nodeRefs <= v.nodeRefs &&
    v == u.(ports := v.ports, nodeRefs := v.nodeRefs)
  }

  lemma GrowsRegistered(u: ServiceView, v: ServiceView, text: string)
    requires u.ports <= v.ports && u.nodeRefs <= v.nodeRefs
    requires Registered(u, text)
    ensures Registered(v, text)
  {
    var ps := FirstPass(text).pieces;
    forall d | d in DeclsOf(ps)
      ensures Present(v.ports, d)
    {
      assert Present(u.ports, d);
      var i :| 0 <= i < |u.ports| && DeclOf(u.ports[i]) == d;
      assert DeclOf(v.ports[i]) == d;
    }
  }

  lemma ApplyTextGrows(v: ServiceView, text: string)
    requires PortTable(v.ports)
    requires ApplyText(v, text).Some?
    ensures var after := ApplyText(v, text).value;
            Grows(v, after) && PortTable(after.ports) && Registered(after, text)
  {
    DeclareAllKeeps(v.ports, DeclsOf(FirstPass(text).pieces));
  }

  lemma {:induction false} ApplyTextsGrows(v: ServiceView, texts: seq<string>)
    requires PortTable(v.ports)
    requires ApplyTexts(v, texts).Some?
    ensures var after := ApplyTexts(v, texts).value; Grows(v, after) && PortTable(after.ports)
  {
    if texts != [] {
      ApplyTextsGrows(v, texts[..|texts| - 1]);
      ApplyTextGrows(ApplyTexts(v, texts[..|texts| - 1]).value, texts[|texts| - 1]);
    }
  }

  lemma {:induction false} ApplyTextsRegistered(v: ServiceView, texts: seq<string>, i: nat)
    requires PortTable(v.ports) && i < |texts|
    requires ApplyTexts(v, texts).Some?
    ensures Registered(ApplyTexts(v, texts).value, texts[i])
  {
    hide FirstPass;
    var init, text := texts[..|texts| - 1], texts[|texts| - 1];
    var before := ApplyTexts(v, init).value;
    var after := ApplyText(before, text).value;
    assert ApplyTexts(v, texts) == Some(after);
    ApplyTextsGrows(v, init);
    ApplyTextGrows(before, text);
    if i < |init| {
      assert init[i] == texts[i];
      ApplyTextsRegistered(v, init, i);
      GrowsRegistered(before, after, texts[i]);
    }
  }

  // Every text of u that is registered in u is registered in v.
  lemma GrowsWellBuilt(u: ServiceView, v: ServiceView)
    requires WellBuilt(u) && u.ports <= v.ports && u.nodeRefs <= v.nodeRefs
    ensures forall i :: 0 <= i < |u.args| ==> Registered(v, u.args[i])
    ensures forall k :: k in u.env ==> Registered(v, u.env[k])
  {
    forall i | 0 <= i < |u.args| ensures Registered(v, u.args[i]) { GrowsRegistered(u, v, u.args[i]); }
    forall k | k in u.env ensures Registered(v, u.env[k]) { GrowsRegistered(u, v, u.env[k]); }
  }

  lemma ApplyOpKeeps(v: ServiceView, op: BuildOp)
    requires WellBuilt(v)
    requires ApplyOp(v, op).Some?
    ensures WellBuilt(ApplyOp(v, op).value)
    ensures ApplyOp(v, op).value.name == v.name
  {
    var after := ApplyOp(v, op).value;
    match op
    case WithPort(name, number, protocolVar) =>
      DeclareKeeps(v.ports, Decl(name, number, if |protocolVar| > 0 then protocolVar[0] else TCP));
      GrowsWellBuilt(v, after);
    case WithArgs(args) =>
      ApplyTextsGrows(v, args);
      GrowsWellBuilt(v, after);
      forall i | 0 <= i < |after.args|
        ensures Registered(after, after.args[i])
      {
        if i >= |v.args| {
          assert after.args[i] == args[i - |v.args|];
          ApplyTextsRegistered(v, args, i - |v.args|);
          GrowsRegistered(ApplyTexts(v, args).value, after, args[i - |v.args|]);
        }
      }
    case WithEnv(key, value) =>
      ApplyTextGrows(v, value);
      GrowsWellBuilt(v, after);
      GrowsRegistered(ApplyText(v, value).value, after, value);
    case _ =>
      GrowsWellBuilt(v, after);
  }

  // Whatever builder calls a component makes, the finished service records every
  // port and every reference that its arguments and environment mention.
  lemma {:induction false} BuiltServicesAreWellBuilt(name: string, ops: seq<BuildOp>)
    requires ApplyOps(NewService(name), ops).Some?
    ensures WellBuilt(ApplyOps(NewService(name), ops).value)
    ensures ApplyOps(NewService(name), ops).value.name == name
  {
    if ops != [] {
      BuiltServicesAreWellBuilt(name, ops[..|ops| - 1]);
      ApplyOpKeeps(ApplyOps(NewService(name), ops[..|ops| - 1]).value, ops[|ops| - 1]);
    }
  }

  // ----- validation -----

  // What can be wrong with a manifest: entry k of a list of service number i,
  // or the file mapped at a path.
  datatype Violation =
    | UnknownService(service: nat, k: nat)
    | UnknownPort(service: nat, k: nat)
    | UnknownDependency(service: nat, k: nat)
    | NoReadyCheck(service: nat, k: nat)
    | MissingFile(service: nat, path: string)

  datatype RefStatus = RefOk | NoSuchService | NoSuchPort

  function CheckRef(svcs: seq<ServiceView>, ref: NodeRef): RefStatus {
    match FindService(svcs, ref.service)
    case None => NoSuchService
    case Some(i) => if FindPort(svcs[i].ports, ref.portLabel).None? then NoSuchPort else RefOk
  }

  datatype DependencyStatus = DependencyOk | NoSuchDependency | NotHealthChecked

  function CheckDependency(svcs: seq<ServiceView>, dependency: DependsOn): DependencyStatus {
    match FindService(svcs, dependency.name)
    case None => NoSuchDependency
    case Some(i) =>
      if dependency.condition == Healthy && svcs[i].readyCheck.None? then NotHealthChecked else DependencyOk
  }

  // The first service of a name, by its number.
  predicate FirstNamed(svcs: seq<ServiceView>, name: string, i: nat) {
    i < |svcs| && svcs[i].name == name && forall k :: 0 <= k < i ==> svcs[k].name != name
  }

  predicate HasPort(s: ServiceView, portLabel: string) {
    exists j :: 0 <= j < |s.ports| && s.ports[j].name == portLabel
  }

  // A reference is in order exactly if the first service of its name has a port of
  // its label.
  lemma CheckRefExact(svcs: seq<ServiceView>, ref: NodeRef)
    ensures CheckRef(svcs, ref) == NoSuchService <==> forall i :: 0 <= i < |svcs| ==> svcs[i].name != ref.service
    ensures CheckRef(svcs, ref) == RefOk <==>
            exists i: nat :: FirstNamed(svcs, ref.service, i) && HasPort(svcs[i], ref.portLabel)
  {
    var r := FindService(svcs, ref.service);
    if r.Some? { assert FirstNamed(svcs, ref.service, r.value); }
  }

  // A dependency is in order exactly if the first service of its name exists and,
  // where it has to be healthy, has a ready check.
  lemma CheckDependencyExact(svcs: seq<ServiceView>, dependency: DependsOn)
    ensures CheckDependency(svcs, dependency) == NoSuchDependency <==>
            forall i :: 0 <= i < |svcs| ==> svcs[i].name != dependency.name
    ensures CheckDependency(svcs, dependency) == DependencyOk <==>
            exists i: nat :: FirstNamed(svcs, dependency.name, i) &&
                             (dependency.condition == Healthy ==> svcs[i].readyCheck.Some?)
  {
    var r := FindService(svcs, dependency.name);
    if r.Some? { assert FirstNamed(svcs, dependency.name, r.value); }
  }

  predicate Violates(svcs: seq<ServiceView>, stat: string -> bool, e: Violation) {
    e.service < |svcs| &&
    var s := svcs[e.service];
    match e
    case UnknownService(_, k) => k < |s.nodeRefs| && CheckRef(svcs, s.nodeRefs[k]) == NoSuchService
    case UnknownPort(_, k) => k < |s.nodeRefs| && CheckRef(svcs, s.nodeRefs[k]) == NoSuchPort
    case UnknownDependency(_, k) => k < |s.dependsOn| && CheckDependency(svcs, s.dependsOn[k]) == NoSuchDependency
    case NoReadyCheck(_, k) => k < |s.dependsOn| && CheckDependency(svcs, s.dependsOn[k]) == NotHealthChecked
    case MissingFile(_, path) => path in s.filesMapped && !stat(s.filesMapped[path])
  }

  // Nothing is wrong with the first n services, files aside.
  predicate LinksOk(svcs: seq<ServiceView>, n: nat)
    requires n <= |svcs|
  {
    forall i :: 0 <= i < n ==>
      (forall k :: 0 <= k < |svcs[i].nodeRefs| ==> CheckRef(svcs, svcs[i].nodeRefs[k]) == RefOk) &&
      (forall k :: 0 <= k < |svcs[i].dependsOn| ==> CheckDependency(svcs, svcs[i].dependsOn[k]) == DependencyOk)
  }

  // The files mapped by the first n services exist.
  predicate FilesOk(svcs: seq<ServiceView>, stat: string -> bool, n: nat)
    requires n <= |svcs|
  {
    forall i :: 0 <= i < n ==> forall path :: path in svcs[i].filesMapped ==> stat(svcs[i].filesMapped[path])
  }

  predicate OfReference(e: Violation) { e.UnknownService? || e.UnknownPort? }

  // The order of the checks: for each service its references and then its
  // dependencies, and the files of all services after that.
  predicate CheckedBefore(d: Violation, e: Violation) {
    if d.MissingFile? then e.MissingFile? && d.service < e.service
    else
      e.MissingFile? || d.service < e.service ||
      (d.service == e.service && if OfReference(d) != OfReference(e) then OfReference(d) else d.k < e.k)
  }

  ghost predicate FirstViolation(svcs: seq<ServiceView>, stat: string -> bool, e: Violation) {
    Violates(svcs, stat, e) && forall d :: Violates(svcs, stat, d) ==> !CheckedBefore(d, e)
  }

  // Every link checked before e is in order.
  predicate LinksOkBefore(svcs: seq<ServiceView>, e: Violation) {
    !e.MissingFile? && e.service < |svcs| && LinksOk(svcs, e.service) &&
    var s := svcs[e.service];
    if OfReference(e) then e.k <= |s.nodeRefs| && forall j :: 0 <= j < e.k ==> CheckRef(svcs, s.nodeRefs[j]) == RefOk
    else
      (forall j :: 0 <= j < |s.nodeRefs| ==> CheckRef(svcs, s.nodeRefs[j]) == RefOk) &&
      e.k <= |s.dependsOn| && forall j :: 0 <= j < e.k ==> CheckDependency(svcs, s.dependsOn[j]) == DependencyOk
  }

  // What LinksOk means: every reference and every dependency of every service leads
  // to a service with the port or the ready check that is needed.
  lemma LinksOkExact(svcs: seq<ServiceView>)
    ensures LinksOk(svcs, |svcs|) <==>
            forall i :: 0 <= i < |svcs| ==>
              (forall k :: 0 <= k < |svcs[i].nodeRefs| ==>
                 exists t: nat :: FirstNamed(svcs, svcs[i].nodeRefs[k].service, t) &&
                                  HasPort(svcs[t], svcs[i].nodeRefs[k].portLabel)) &&
              (forall k :: 0 <= k < |svcs[i].dependsOn| ==>
                 exists t: nat :: FirstNamed(svcs, svcs[i].dependsOn[k].name, t) &&
                                  (svcs[i].dependsOn[k].condition == Healthy ==> svcs[t].readyCheck.Some?))
  {
    hide CheckRef, CheckDependency, FirstNamed, HasPort;
    forall i, k | 0 <= i < |svcs| && 0 <= k < |svcs[i].nodeRefs| {
      CheckRefExact(svcs, svcs[i].nodeRefs[k]);
    }
    forall i, k | 0 <= i < |svcs| && 0 <= k < |svcs[i].dependsOn| {
      CheckDependencyExact(svcs, svcs[i].dependsOn[k]);
    }
  }

  lemma FirstLink(svcs: seq<ServiceView>, stat: string -> bool, e: Violation)
    requires Violates(svcs, stat, e) && LinksOkBefore(svcs, e)
    ensures FirstViolation(svcs, stat, e)
  {
    hide CheckRef, CheckDependency;
    forall d | Violates(svcs, stat, d)
      ensures !CheckedBefore(d, e)
    {
    }
  }

  lemma FirstFile(svcs: seq<ServiceView>, stat: string -> bool, e: Violation)
    requires Violates(svcs, stat, e) && e.MissingFile?
    requires LinksOk(svcs, |svcs|) && FilesOk(svcs, stat, e.service)
    ensures FirstViolation(svcs, stat, e)
  {
    hide CheckRef, CheckDependency;
    forall d | Violates(svcs, stat, d)
      ensures !CheckedBefore(d, e)
    {
    }
  }

  lemma NothingViolated(svcs: seq<ServiceView>, stat: string -> bool)
    ensures LinksOk(svcs, |svcs|) && FilesOk(svcs, stat, |svcs|) <==> forall e :: !Violates(svcs, stat, e)
  {
    hide CheckRef, CheckDependency;
    if forall e :: !Violates(svcs, stat, e) {
      forall i: nat | i < |svcs|
        ensures forall k :: 0 <= k < |svcs[i].nodeRefs| ==> CheckRef(svcs, svcs[i].nodeRefs[k]) == RefOk
        ensures forall k :: 0 <= k < |svcs[i].dependsOn| ==> CheckDependency(svcs, svcs[i].dependsOn[k]) == DependencyOk
        ensures forall path :: path in svcs[i].filesMapped ==> stat(svcs[i].filesMapped[path])
      {
        forall k: nat | k < |svcs[i].nodeRefs|
          ensures CheckRef(svcs, svcs[i].nodeRefs[k]) == RefOk
        {
          assert !Violates(svcs, stat, UnknownService(i, k)) && !Violates(svcs, stat, UnknownPort(i, k));
        }
        forall k: nat | k < |svcs[i].dependsOn|
          ensures CheckDependency(svcs, svcs[i].dependsOn[k]) == DependencyOk
        {
          assert !Violates(svcs, stat, UnknownDependency(i, k)) && !Violates(svcs, stat, NoReadyCheck(i, k));
        }
        forall path | path in svcs[i].filesMapped
          ensures stat(svcs[i].filesMapped[path])
        {
          assert !Violates(svcs, stat, MissingFile(i, path));
        }
      }
    }
  }
}
