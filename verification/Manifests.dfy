// The manifest and its services as the mutable objects the recipes build, each
// method proved against the functions of ServiceSpec.  A method that answers
// ok == false stands for a panic.
module Manifests {
  import opened Text
  import opened Template
  import opened ServiceSpec

  ghost predicate Distinct<T>(s: seq<T>) { forall i, j :: 0 <= i < j < |s| ==> s[i] != s[j] }

  class Service {
    const name: string
    var args: seq<string>
    var env: map<string, string>
    var labels: map<string, string>
    var ports: seq<PortView>
    var nodeRefs: seq<NodeRef>
    var dependsOn: seq<DependsOn>
    var readyCheck: Option<ReadyCheck>
    var filesMapped: map<string, string>
    var volumesMapped: map<string, string>
    var image: string
    var tag: string
    var entrypoint: string

    constructor (name: string)
      ensures Valid() && View() == NewService(name)
    {
      this.name := name;
      args, env, labels, ports, nodeRefs, dependsOn := [], map[], map[], [], [], [];
      readyCheck, filesMapped, volumesMapped, image, tag, entrypoint := None, map[], map[], "", "", "";
    }

    ghost function View(): ServiceView
      reads this
    {
      ServiceView(name, args, env, labels, ports, nodeRefs, dependsOn, readyCheck, filesMapped, volumesMapped,
                  image, tag, entrypoint)
    }

    ghost predicate Valid()
      reads this
    {
      PortTable(ports)
    }

    method GetPort(name: string) returns (port: Option<PortView>)
      ensures match FindPort(ports, name)
              case None => port == None
              case Some(i) => port == Some(ports[i])
    {
      for k := 0 to |ports|
        invariant forall i :: 0 <= i < k ==> ports[i].name != name
      {
        if ports[k].name == name {
          return Some(ports[k]);
        }
      }
      return None;
    }

    method WithPort(name: string, number: int, protocolVar: seq<string>) returns (ok: bool)
      requires Valid()
      modifies this`ports
      ensures Valid()
      ensures var d := Decl(name, number, if |protocolVar| > 0 then protocolVar[0] else TCP);
              match Declare(old(ports), d)
              case None => !ok && ports == old(ports)
              case Some(after) => ok && ports == after
    {
      var protocol := TCP;
      if |protocolVar| > 0 {
        if protocolVar[0] != TCP && protocolVar[0] != UDP {
          return false;
        }
        protocol := protocolVar[0];
      }
      ghost var d := Decl(name, number, protocol);
      for k := 0 to |ports|
        invariant forall i :: 0 <= i < k ==> DeclOf(ports[i]) != d
        invariant forall i :: 0 <= i < k && ports[i].name == name ==> ports[i].number == number
      {
        if ports[k].name == name {
          if ports[k].number != number {
            assert Conflicts(ports, d);
            return false;
          }
          if ports[k].protocol == protocol {
            assert DeclOf(ports[k]) == d;
            SameNameSameNumber(ports, k, d);
            return true;
          }
        }
      }
      DeclareAbsent(ports, d);
      ports := ports + [PortView(name, number, protocol, 0)];
      return true;
    }

    method DeclarePorts(decls: seq<Decl>) returns (ok: bool)
      requires Valid()
      modifies this`ports
      ensures Valid()
      ensures ok <==> DeclareAll(old(ports), decls).Some?
      ensures ok ==> DeclareAll(old(ports), decls) == Some(ports)
    {
      hide Declare, PortTable, Supported;
      ghost var start := ports;
      for k := 0 to |decls|
        invariant Valid()
        invariant DeclareAll(start, decls[..k]) == Some(ports)
      {
        DeclareAllSnoc(start, decls, k);
        ok := WithPort(decls[k].name, decls[k].number, [decls[k].protocol]);
        if !ok {
          if DeclareAll(start, decls).Some? { DeclareAllPrefix(start, decls, k + 1); }
          return;
        }
      }
      assert decls[..|decls|] == decls;
      return true;
    }

    // Service.applyTemplate
    method ApplyTemplate(arg: string) returns (ok: bool)
      requires Valid()
      modifies this`ports, this`nodeRefs
      ensures Valid()
      ensures ok <==> ApplyText(old(View()), arg).Some?
      ensures ok ==> ApplyText(old(View()), arg) == Some(View())
    {
      hide FirstPass, PortTable, DeclareAll;
      var pass := FirstPass(arg);
      if pass.FirstPassPanic? {
        return false;
      }
      ok := DeclarePorts(DeclsOf(pass.pieces));
      if ok {
        var refs := RefsOf(pass.pieces);
        for k := 0 to |refs|
          invariant nodeRefs == old(nodeRefs) + refs[..k]
          modifies this`nodeRefs
        {
          nodeRefs := nodeRefs + [refs[k]];
        }
        assert refs[..|refs|] == refs;
      }
    }

    method ApplyTemplates(texts: seq<string>) returns (ok: bool)
      requires Valid()
      modifies this`ports, this`nodeRefs
      ensures Valid()
      ensures ok <==> ApplyTexts(old(View()), texts).Some?
      ensures ok ==> ApplyTexts(old(View()), texts) == Some(View())
    {
      hide ApplyText, PortTable;
      ghost var start := View();
      for k := 0 to |texts|
        invariant Valid()
        invariant ApplyTexts(start, texts[..k]) == Some(View())
      {
        ApplyTextsSnoc(start, texts, k);
        ok := ApplyTemplate(texts[k]);
        if !ok {
          if ApplyTexts(start, texts).Some? { ApplyTextsPrefix(start, texts, k + 1); }
          return;
        }
      }
      assert texts[..|texts|] == texts;
      return true;
    }

    method AddArgs(newArgs: seq<string>) returns (ok: bool)
      requires Valid()
      modifies this`ports, this`nodeRefs, this`args
      ensures Valid()
      ensures ok <==> ApplyOp(old(View()), WithArgs(newArgs)).Some?
      ensures ok ==> ApplyOp(old(View()), WithArgs(newArgs)) == Some(View())
    {
      ok := ApplyTemplates(newArgs);
      args := args + newArgs;
    }

    method AddEnv(key: string, value: string) returns (ok: bool)
      requires Valid()
      modifies this`ports, this`nodeRefs, this`env
      ensures Valid()
      ensures ok <==> ApplyOp(old(View()), WithEnv(key, value)).Some?
      ensures ok ==> ApplyOp(old(View()), WithEnv(key, value)) == Some(View())
    {
      ok := ApplyTemplate(value);
      env := env[key := value];
    }

    // The builder calls that only set or extend one field.
    method SetField(op: BuildOp)
      requires Valid()
      requires !op.WithPort? && !op.WithArgs? && !op.WithEnv?
      modifies this`labels, this`filesMapped, this`volumesMapped, this`readyCheck, this`dependsOn
      modifies this`image, this`tag, this`entrypoint
      ensures ApplyOp(old(View()), op) == Some(View())
    {
      match op
      case WithLabel(key, value) => labels := labels[key := value];
      case WithArtifact(localPath, artifact) => filesMapped := filesMapped[localPath := artifact];
      case WithVolume(volume, localPath) => volumesMapped := volumesMapped[localPath := volume];
      case WithReady(check) => readyCheck := Some(check);
      case WithDependency(dependency) => dependsOn := dependsOn + [dependency];
      case WithImage(i) => image := i;
      case WithTag(t) => tag := t;
      case WithEntrypoint(e) => entrypoint := e;
    }

    // One builder call of a component.
    method Apply(op: BuildOp) returns (ok: bool)
      requires Valid()
      modifies this
      ensures Valid()
      ensures ok <==> ApplyOp(old(View()), op).Some?
      ensures ok ==> ApplyOp(old(View()), op) == Some(View())
    {
      match op
      case WithPort(name, number, protocolVar) => ok := WithPort(name, number, protocolVar);
      case WithArgs(newArgs) => ok := AddArgs(newArgs);
      case WithEnv(key, value) => ok := AddEnv(key, value);
      case _ => SetField(op); ok := true;
    }
  }

  lemma SameNameSameNumber(ports: seq<PortView>, k: nat, d: Decl)
    requires PortTable(ports) && k < |ports| && DeclOf(ports[k]) == d
    ensures Declare(ports, d) == Some(ports)
  {
    RedeclareIdempotent(ports, [d]);
    assert DeclareAll(ports, []) == Some(ports);
    assert [d][..0] == [];
  }

  lemma DeclareAbsent(ports: seq<PortView>, d: Decl)
    requires PortTable(ports) && Supported(d)
    requires forall i :: 0 <= i < |ports| ==> DeclOf(ports[i]) != d
    requires forall i :: 0 <= i < |ports| && ports[i].name == d.name ==> ports[i].number == d.number
    ensures Declare(ports, d) == Some(ports + [PortView(d.name, d.number, d.protocol, 0)])
    ensures PortTable(ports + [PortView(d.name, d.number, d.protocol, 0)])
  {
    DeclareKeeps(ports, d);
  }

  lemma ApplyTextsSnoc(v: ServiceView, texts: seq<string>, k: nat)
    requires k < |texts|
    ensures ApplyTexts(v, texts[..k + 1])
         == match ApplyTexts(v, texts[..k]) case None => None case Some(u) => ApplyText(u, texts[k])
  {
    assert texts[..k + 1][..k] == texts[..k];
  }

  lemma DeclareAllSnoc(ports: seq<PortView>, ds: seq<Decl>, k: nat)
    requires k < |ds|
    ensures DeclareAll(ports, ds[..k + 1])
         == match DeclareAll(ports, ds[..k]) case None => None case Some(p) => Declare(p, ds[k])
  {
    assert ds[..k + 1][..k] == ds[..k];
  }

  method RunComponent(name: string, component: seq<BuildOp>) returns (ok: bool, s: Service)
    ensures fresh(s)
    ensures ok <==> ApplyOps(NewService(name), component).Some?
    ensures ok ==> s.Valid() && ApplyOps(NewService(name), component) == Some(s.View())
  {
    hide ApplyOp, PortTable;
    s := new Service(name);
    ok := true;
    for k := 0 to |component|
      invariant s.Valid() && fresh(s)
      invariant ApplyOps(NewService(name), component[..k]) == Some(s.View())
    {
      ApplyOpsSnoc(NewService(name), component, k);
      ok := s.Apply(component[k]);
      if !ok {
        if ApplyOps(NewService(name), component).Some? { ApplyOpsPrefix(NewService(name), component, k + 1); }
        return;
      }
    }
    assert component[..|component|] == component;
    ok := true;
  }

  // ----- the manifest -----

  ghost function Views(ss: seq<Service>): (r: seq<ServiceView>)
    reads ss
    ensures |r| == |ss| && forall i :: 0 <= i < |ss| ==> r[i] == ss[i].View()
  {
    if ss == [] then [] else Views(ss[..|ss| - 1]) + [ss[|ss| - 1].View()]
  }

  class Manifest {
    var services: seq<Service>
    var overrides: map<string, string>

    constructor ()
      ensures Valid() && Built() && services == [] && overrides == map[]
    {
      services, overrides := [], map[];
    }

    // No service object occurs twice.
    ghost predicate Valid()
      reads this, services
    {
      Distinct(services) &&
      forall i :: 0 <= i < |services| ==> services[i].Valid()
    }

    ghost function View(): seq<ServiceView>
      reads this, services
    {
      Views(services)
    }

    ghost predicate Built()
      reads this, services
    {
      forall v :: v in View() ==> WellBuilt(v)
    }

    // A component is the sequence of builder calls it makes.
    method AddService(name: string, component: seq<BuildOp>) returns (ok: bool)
      requires Valid()
      modifies this`services
      ensures Valid()
      ensures old(Built()) ==> Built()
      ensures forall s :: s in services ==> s in old(services) || fresh(s)
      ensures match ApplyOps(NewService(name), component)
              case None => !ok && services == old(services)
              case Some(v) => ok && View() == old(View()) + [v]
    {
      hide ApplyOps, WellBuilt, PortTable, Views;
      ghost var before := View();
      var s;
      ok, s := RunComponent(name, component);
      if ok {
        BuiltServicesAreWellBuilt(name, component);
        services := services + [s];
        assert forall i :: 0 <= i < |before| ==> View()[i] == services[i].View() == before[i];
        assert View() == before + [s.View()];
      }
    }

    method GetService(name: string) returns (service: Service?)
      requires Valid()
      ensures match FindService(View(), name)
              case None => service == null
              case Some(i) => service == services[i]
    {
      for k := 0 to |services|
        invariant forall i :: 0 <= i < k ==> services[i].name != name
      {
        if services[k].name == name {
          return services[k];
        }
      }
      return null;
    }

    method Validate(stat: string -> bool) returns (r: Option<Violation>)
      requires Valid()
      ensures r.None? <==> LinksOk(View(), |services|) && FilesOk(View(), stat, |services|)
      ensures r.Some? ==> FirstViolation(View(), stat, r.value)
    {
      hide LinksOk, LinksOkBefore, Violates;
      NothingViolated(View(), stat);
      r := ValidateLinks();
      if r.Some? {
        assert Violates(View(), stat, r.value);
        FirstLink(View(), stat, r.value);
        return;
      }
      r := ValidateAllFiles(stat);
      if r.Some? { FirstFile(View(), stat, r.value); }
    }

    method ValidateAllFiles(stat: string -> bool) returns (r: Option<Violation>)
      requires Valid()
      ensures r.None? <==> FilesOk(View(), stat, |services|)
      ensures r.Some? ==>
                Violates(View(), stat, r.value) && r.value.MissingFile? && FilesOk(View(), stat, r.value.service)
    {
      hide Views;
      for i := 0 to |services|
        invariant FilesOk(View(), stat, i)
      {
        r := ValidateFiles(i, stat);
        if r.Some? { return; }
      }
      return None;
    }

    method ValidateLinks() returns (r: Option<Violation>)
      requires Valid()
      ensures r.None? ==> LinksOk(View(), |services|)
      ensures r.Some? ==> LinksOkBefore(View(), r.value) && forall stat :: Violates(View(), stat, r.value)
    {
      hide CheckRef, CheckDependency, Violates, Views;
      ghost var svcs := View();
      for i := 0 to |services|
        invariant LinksOk(svcs, i)
      {
        assert svcs[i] == services[i].View();
        r := ValidateRefs(i);
        if r.Some? { return; }
        r := ValidateDependencies(i);
        if r.Some? { return; }
      }
      return None;
    }

    method StatusOfRef(ref: NodeRef) returns (r: RefStatus)
      requires Valid()
      ensures r == CheckRef(View(), ref)
    {
      var target := GetService(ref.service);
      if target == null {
        return NoSuchService;
      }
      var port := target.GetPort(ref.portLabel);
      return if port == None then NoSuchPort else RefOk;
    }

    method ValidateRefs(i: nat) returns (r: Option<Violation>)
      requires Valid() && i < |services|
      ensures r.None? ==> forall k :: 0 <= k < |services[i].nodeRefs| ==>
                CheckRef(View(), services[i].nodeRefs[k]) == RefOk
      ensures r.Some? ==>
                OfReference(r.value) && r.value.service == i && r.value.k < |services[i].nodeRefs| &&
                (forall j :: 0 <= j < r.value.k ==> CheckRef(View(), services[i].nodeRefs[j]) == RefOk) &&
                forall stat :: Violates(View(), stat, r.value)
    {
      hide CheckRef;
      var refs := services[i].nodeRefs;
      for k := 0 to |refs|
        invariant forall j :: 0 <= j < k ==> CheckRef(View(), refs[j]) == RefOk
      {
        var status := StatusOfRef(refs[k]);
        match status
        case RefOk =>
        case NoSuchService => return Some(UnknownService(i, k));
        case NoSuchPort => return Some(UnknownPort(i, k));
      }
      return None;
    }

    method StatusOfDependency(dependency: DependsOn) returns (r: DependencyStatus)
      requires Valid()
      ensures r == CheckDependency(View(), dependency)
    {
      var target := GetService(dependency.name);
      if target == null {
        return NoSuchDependency;
      }
      if dependency.condition == Healthy && target.readyCheck == None {
        return NotHealthChecked;
      }
      return DependencyOk;
    }

    method ValidateDependencies(i: nat) returns (r: Option<Violation>)
      requires Valid() && i < |services|
      ensures r.None? ==> forall k :: 0 <= k < |services[i].dependsOn| ==>
                            CheckDependency(View(), services[i].dependsOn[k]) == DependencyOk
      ensures r.Some? ==>
                (r.value.UnknownDependency? || r.value.NoReadyCheck?) && r.value.service == i &&
                r.value.k < |services[i].dependsOn| &&
                (forall j :: 0 <= j < r.value.k ==>
                   CheckDependency(View(), services[i].dependsOn[j]) == DependencyOk) &&
                forall stat :: Violates(View(), stat, r.value)
    {
      hide CheckDependency;
      var deps := services[i].dependsOn;
      for k := 0 to |deps|
        invariant forall j :: 0 <= j < k ==> CheckDependency(View(), deps[j]) == DependencyOk
      {
        var status := StatusOfDependency(deps[k]);
        match status
        case DependencyOk =>
        case NoSuchDependency => return Some(UnknownDependency(i, k));
        case NotHealthChecked => return Some(NoReadyCheck(i, k));
      }
      return None;
    }

    // The mapped files are visited in an arbitrary order.
    method ValidateFiles(i: nat, stat: string -> bool) returns (r: Option<Violation>)
      requires Valid() && i < |services|
      ensures r.None? <==> forall path :: path in services[i].filesMapped ==> stat(services[i].filesMapped[path])
      ensures r.Some? ==> Violates(View(), stat, r.value) && r.value.MissingFile? && r.value.service == i
    {
      hide Views;
      var files := services[i].filesMapped;
      var todo := files.Keys;
      while todo != {}
        invariant todo <= files.Keys
        invariant forall path :: path in files.Keys - todo ==> stat(files[path])
      {
        var path :| path in todo;
        if !stat(files[path]) {
          return Some(MissingFile(i, path));
        }
        todo := todo - {path};
      }
      return None;
    }
  }

  lemma ApplyOpsSnoc(v: ServiceView, ops: seq<BuildOp>, k: nat)
    requires k < |ops|
    ensures ApplyOps(v, ops[..k + 1])
         == match ApplyOps(v, ops[..k]) case None => None case Some(u) => ApplyOp(u, ops[k])
  {
    assert ops[..k + 1][..k] == ops[..k];
  }
}
