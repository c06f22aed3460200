// What a whole sequence of builder calls makes of a service, said without running
// the calls one after the other.
module BuilderCalls {
  import opened Text
  import opened Template
  import opened ServiceSpec

  // ----- what a sequence of calls comes to -----

  function CallTexts(op: BuildOp): seq<string> {
    match op
    case WithArgs(args) => args
    case WithEnv(_, value) => [value]
    case _ => []
  }

  function CallArgs(op: BuildOp): seq<string> { if op.WithArgs? then op.args else [] }

  function CallDependencies(op: BuildOp): seq<DependsOn> { if op.WithDependency? then [op.dependency] else [] }

  // What the calls give, first to last: the texts handed to the first pass, the
  // arguments, and the dependencies.
  function Gather<T>(ops: seq<BuildOp>, given: BuildOp -> seq<T>): seq<T> {
    if ops == [] then [] else given(ops[0]) + Gather(ops[1..], given)
  }

  function RefsOfTexts(texts: seq<string>): seq<NodeRef> {
    if texts == [] then []
    else (if Scan(texts[0]).Some? then RefsOf(Scan(texts[0]).value) else []) + RefsOfTexts(texts[1..])
  }

  // A text declares d, or a call does so itself; tcp is the default.
  predicate TextDeclares(text: string, d: Decl) { Scan(text).Some? && d in DeclsOf(Scan(text).value) }

  ghost predicate CallDeclares(op: BuildOp, d: Decl) {
    (op.WithPort? && op.name == d.name && op.number == d.number &&
     (if op.protocolVar == [] then d.protocol == "tcp" else d.protocol == op.protocolVar[0])) ||
    exists t :: t in CallTexts(op) && TextDeclares(t, d)
  }

  ghost predicate Declared(ops: seq<BuildOp>, d: Decl) {
    exists k :: 0 <= k < |ops| && CallDeclares(ops[k], d)
  }

  lemma {:induction false} GatherSnoc<T>(ops: seq<BuildOp>, op: BuildOp, given: BuildOp -> seq<T>)
    ensures Gather(ops + [op], given) == Gather(ops, given) + given(op)
  {
    if ops == [] {
      assert [] + [op] == [op] && [op][1..] == [];
    } else {
      GatherSnoc(ops[1..], op, given);
      assert (ops + [op])[1..] == ops[1..] + [op] && (ops + [op])[0] == ops[0];
    }
  }

  lemma {:induction false} RefsAppend(a: seq<string>, b: seq<string>)
    ensures RefsOfTexts(a + b) == RefsOfTexts(a) + RefsOfTexts(b)
  {
    hide Scan, RefsOf;
    if a == [] {
      assert [] + b == b;
    } else {
      RefsAppend(a[1..], b);
      assert (a + b)[1..] == a[1..] + b && (a + b)[0] == a[0];
    }
  }

  lemma ApplyTextEffect(v: ServiceView, text: string)
    requires PortTable(v.ports) && ApplyText(v, text).Some?
    ensures var after := ApplyText(v, text).value;
            after == v.(ports := after.ports, nodeRefs := v.nodeRefs + RefsOfTexts([text])) && PortTable(after.ports) &&
            forall d :: Present(after.ports, d) <==> Present(v.ports, d) || TextDeclares(text, d)
  {
    hide Scan, Print, RefsOf, DeclsOf, PortTable, DeclareAll, Present;
    DeclareAllKeeps(v.ports, DeclsOf(FirstPass(text).pieces));
    assert [text][1..] == [] && RefsOfTexts([text]) == RefsOf(FirstPass(text).pieces) + [];
  }

  lemma {:induction false} ApplyTextsEffect(v: ServiceView, texts: seq<string>)
    requires PortTable(v.ports) && ApplyTexts(v, texts).Some?
    ensures var after := ApplyTexts(v, texts).value;
            after == v.(ports := after.ports, nodeRefs := v.nodeRefs + RefsOfTexts(texts)) && PortTable(after.ports) &&
            forall d :: Present(after.ports, d) <==> Present(v.ports, d) || exists t :: t in texts && TextDeclares(t, d)
  {
    hide ApplyText, PortTable, Present, TextDeclares, RefsOfTexts;
    if texts == [] {
      NoRefs();
      assert v.nodeRefs + [] == v.nodeRefs;
    } else {
      var init, text := texts[..|texts| - 1], texts[|texts| - 1];
      var before := ApplyTexts(v, init).value;
      ApplyTextsEffect(v, init);
      ApplyTextEffect(before, text);
      assert texts == init + [text];
      RefsAppend(init, [text]);
      assert v.nodeRefs + RefsOfTexts(init) + RefsOfTexts([text]) == v.nodeRefs + RefsOfTexts(texts);
      assert forall t :: t in texts <==> t in init || t == text;
    }
  }

  // What one call adds.
  lemma ApplyOpEffect(v: ServiceView, op: BuildOp)
    requires PortTable(v.ports) && ApplyOp(v, op).Some?
    ensures var after := ApplyOp(v, op).value;
            PortTable(after.ports) && after.name == v.name && after.args == v.args + CallArgs(op) &&
            after.nodeRefs == v.nodeRefs + RefsOfTexts(CallTexts(op)) &&
            after.dependsOn == v.dependsOn + CallDependencies(op) &&
            forall d :: Present(after.ports, d) <==> Present(v.ports, d) || CallDeclares(op, d)
  {
    hide ApplyText, ApplyTexts, PortTable, Present, TextDeclares, RefsOfTexts, Declare;
    NoRefs();
    match op
    case WithPort(name, number, protocolVar) =>
      DeclareKeeps(v.ports, Decl(name, number, if |protocolVar| > 0 then protocolVar[0] else TCP));
    case WithArgs(args) =>
      ApplyTextsEffect(v, args);
    case WithEnv(key, value) =>
      ApplyTextEffect(v, value);
    case _ =>
  }

  lemma NoRefs()
    ensures RefsOfTexts([]) == []
  {
  }

  // v holds all arguments, references and dependencies of the calls, first to
  // last, and exactly the ports they declare.
  ghost predicate AddsUp(v: ServiceView, ops: seq<BuildOp>) {
    v.args == Gather(ops, CallArgs) && v.nodeRefs == RefsOfTexts(Gather(ops, CallTexts)) &&
    v.dependsOn == Gather(ops, CallDependencies) && PortTable(v.ports) &&
    forall d :: Present(v.ports, d) <==> Declared(ops, d)
  }

  // So does the finished service.
  lemma {:induction false} CallsAddUp(name: string, ops: seq<BuildOp>)
    requires ApplyOps(NewService(name), ops).Some?
    ensures ApplyOps(NewService(name), ops).value.name == name
    ensures AddsUp(ApplyOps(NewService(name), ops).value, ops)
  {
    hide ApplyOp, AddsUp;
    if ops == [] {
      NothingAddsUp(name);
    } else {
      var init, op := ops[..|ops| - 1], ops[|ops| - 1];
      var before := ApplyOps(NewService(name), init).value;
      assert ops == init + [op];
      OneMoreCall(NewService(name), init, before, op);
      CallsAddUp(name, init);
      CallAddsUp(before, init, op);
    }
  }

  lemma NothingAddsUp(name: string)
    ensures AddsUp(NewService(name), [])
  {
    NoRefs();
  }

  lemma CallAddsUp(v: ServiceView, ops: seq<BuildOp>, op: BuildOp)
    requires AddsUp(v, ops) && ApplyOp(v, op).Some?
    ensures AddsUp(ApplyOp(v, op).value, ops + [op]) && ApplyOp(v, op).value.name == v.name
  {
    hide ApplyOp, PortTable, Present, CallDeclares, TextDeclares, RefsOfTexts, CallArgs, CallTexts, CallDependencies,
      Gather, Declared;
    ApplyOpEffect(v, op);
    GatherSnoc(ops, op, CallArgs);
    GatherSnoc(ops, op, CallTexts);
    GatherSnoc(ops, op, CallDependencies);
    RefsAppend(Gather(ops, CallTexts), CallTexts(op));
    DeclaredSnoc(ops, op);
  }

  lemma DeclaredSnoc(ops: seq<BuildOp>, op: BuildOp)
    ensures forall d :: Declared(ops + [op], d) <==> Declared(ops, d) || CallDeclares(op, d)
  {
    hide CallDeclares;
    var all := ops + [op];
    assert all[|ops|] == op && forall k :: 0 <= k < |ops| ==> all[k] == ops[k];
  }

  // ----- fields of which the last call wins -----

  datatype Slot =
    | EnvSlot(key: string) | LabelSlot(key: string) | FileSlot(path: string) | VolumeSlot(path: string)
    | ImageSlot | TagSlot | EntrypointSlot | ReadySlot

  datatype Content = Word(text: string) | Check(check: ReadyCheck)

  // The field a call sets, and to what.
  function Sets(op: BuildOp): Option<(Slot, Content)> {
    match op
    case WithEnv(key, value) => Some((EnvSlot(key), Word(value)))
    case WithLabel(key, value) => Some((LabelSlot(key), Word(value)))
    case WithArtifact(localPath, artifact) => Some((FileSlot(localPath), Word(artifact)))
    case WithVolume(volume, localPath) => Some((VolumeSlot(localPath), Word(volume)))
    case WithImage(image) => Some((ImageSlot, Word(image)))
    case WithTag(tag) => Some((TagSlot, Word(tag)))
    case WithEntrypoint(entrypoint) => Some((EntrypointSlot, Word(entrypoint)))
    case WithReady(check) => Some((ReadySlot, Check(check)))
    case _ => None
  }

  function ReadKey(m: map<string, string>, k: string): Option<Content> { if k in m then Some(Word(m[k])) else None }

  function ReadSlot(v: ServiceView, slot: Slot): Option<Content> {
    match slot
    case EnvSlot(k) => ReadKey(v.env, k)
    case LabelSlot(k) => ReadKey(v.labels, k)
    case FileSlot(k) => ReadKey(v.filesMapped, k)
    case VolumeSlot(k) => ReadKey(v.volumesMapped, k)
    case ImageSlot => Some(Word(v.image))
    case TagSlot => Some(Word(v.tag))
    case EntrypointSlot => Some(Word(v.entrypoint))
    case ReadySlot => if v.readyCheck.Some? then Some(Check(v.readyCheck.value)) else None
  }

  // A call sets its field and no other.
  lemma SetsExactly(v: ServiceView, op: BuildOp, slot: Slot)
    requires ApplyOp(v, op).Some?
    ensures ReadSlot(ApplyOp(v, op).value, slot) ==
            if Sets(op).Some? && Sets(op).value.0 == slot then Some(Sets(op).value.1) else ReadSlot(v, slot)
  {
    hide ApplyText, ApplyTexts, Declare;
    match op
    case WithArgs(args) => TextsKeepSlots(v, args, slot);
    case WithEnv(_, value) => TextKeepsSlots(v, value, slot);
    case _ =>
  }

  lemma TextKeepsSlots(v: ServiceView, text: string, slot: Slot)
    requires ApplyText(v, text).Some?
    ensures ReadSlot(ApplyText(v, text).value, slot) == ReadSlot(v, slot)
    ensures ApplyText(v, text).value.env == v.env
  {
    hide FirstPass, DeclareAll, RefsOf, DeclsOf;
  }

  lemma {:induction false} TextsKeepSlots(v: ServiceView, texts: seq<string>, slot: Slot)
    requires ApplyTexts(v, texts).Some?
    ensures ReadSlot(ApplyTexts(v, texts).value, slot) == ReadSlot(v, slot)
  {
    hide ApplyText, ReadSlot;
    if texts != [] {
      TextsKeepSlots(v, texts[..|texts| - 1], slot);
      TextKeepsSlots(ApplyTexts(v, texts[..|texts| - 1]).value, texts[|texts| - 1], slot);
    }
  }

  // Call i is the last to set its field.
  predicate LastToSet(ops: seq<BuildOp>, i: nat, slot: Slot, content: Content)
    requires i < |ops|
  {
    Sets(ops[i]) == Some((slot, content)) &&
    forall k :: i < k < |ops| ==> Sets(ops[k]).None? || Sets(ops[k]).value.0 != slot
  }

  lemma LastSetPrefix(ops: seq<BuildOp>, slot: Slot)
    requires ops != []
    ensures var n := |ops| - 1;
            forall i, content :: 0 <= i < |ops| && LastToSet(ops, i, slot, content) ==>
              if i == n then Sets(ops[n]) == Some((slot, content))
              else LastToSet(ops[..n], i, slot, content) && (Sets(ops[n]).None? || Sets(ops[n]).value.0 != slot)
  {
    hide Sets;
  }

  // The last call that sets a field decides it, and an unset field is as it was.
  lemma {:induction false} LastCallWins(v: ServiceView, ops: seq<BuildOp>, slot: Slot)
    requires ApplyOps(v, ops).Some?
    ensures forall i, content :: 0 <= i < |ops| && LastToSet(ops, i, slot, content) ==>
              ReadSlot(ApplyOps(v, ops).value, slot) == Some(content)
    ensures (forall k :: 0 <= k < |ops| ==> Sets(ops[k]).None? || Sets(ops[k]).value.0 != slot) ==>
              ReadSlot(ApplyOps(v, ops).value, slot) == ReadSlot(v, slot)
  {
    if ops != [] {
      hide ApplyOp, ReadSlot, Sets, LastToSet;
      var n := |ops| - 1;
      LastCallWins(v, ops[..n], slot);
      SetsExactly(ApplyOps(v, ops[..n]).value, ops[n], slot);
      assert forall k :: 0 <= k < n ==> ops[..n][k] == ops[k];
      LastSetPrefix(ops, slot);
    }
  }
}
