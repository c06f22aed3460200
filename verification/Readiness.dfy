// The status of the running services and the queue of failures: one updater
// fed by docker events, host processes that may fail at any time, and one
// reader that polls for readiness and drains the queue.
module Readiness {
  import opened Text

  datatype Status = Pending | Started | Died

  datatype Task = Task(status: Status, ready: bool)

  datatype Event = Start(name: string) | Die(name: string) | Healthy(name: string)

  datatype Failure = ContainerFailed(name: string) | HostFailed(name: string)

  // The capacity of the channel of failures.
  const QUEUE_SIZE := 2

  // ----- what the log of events says -----

  // The latest start or die event of a service, pending if there was none.
  function LatestStatus(log: seq<Event>, name: string): Status {
    if log == [] then Pending
    else
      match log[|log| - 1]
      case Start(n) => if n == name then Started else LatestStatus(log[..|log| - 1], name)
      case Die(n) => if n == name then Died else LatestStatus(log[..|log| - 1], name)
      case Healthy(_) => LatestStatus(log[..|log| - 1], name)
  }

  // Event i is the last start or die event of a service.
  predicate LastMove(log: seq<Event>, i: nat, name: string) {
    i < |log| && (log[i] == Start(name) || log[i] == Die(name)) &&
    forall k :: i < k < |log| ==> log[k] != Start(name) && log[k] != Die(name)
  }

  // The status is what that event says, and pending exactly if there is none.
  lemma {:induction false} LatestStatusExact(log: seq<Event>, name: string)
    ensures forall i: nat :: LastMove(log, i, name) ==>
              LatestStatus(log, name) == if log[i].Start? then Started else Died
    ensures LatestStatus(log, name) == Pending <==>
              forall i :: 0 <= i < |log| ==> log[i] != Start(name) && log[i] != Die(name)
  {
    if log != [] {
      var n := |log| - 1;
      LatestStatusExact(log[..n], name);
      assert forall i :: 0 <= i < n ==> log[..n][i] == log[i];
      forall i: nat | LastMove(log, i, name)
        ensures LatestStatus(log, name) == if log[i].Start? then Started else Died
      {
        if i < n { assert LastMove(log[..n], i, name); }
      }
    }
  }

  // Names of the die events, in order.
  function Deaths(log: seq<Event>): seq<string> {
    if log == [] then []
    else
      match log[|log| - 1]
      case Die(n) => Deaths(log[..|log| - 1]) + [n]
      case _ => Deaths(log[..|log| - 1])
  }

  predicate ReadyByLog(log: seq<Event>, names: set<string>, hosts: set<string>, checked: set<string>) {
    forall n :: n in names && n !in hosts ==>
      LatestStatus(log, n) == Started && (n in checked ==> Healthy(n) in log)
  }

  // ----- the tasks of the runner -----

  class TaskBoard {
    var tasks: map<string, Task>
    const hosts: set<string>
    // the services with a ready check
    const checked: set<string>

    constructor (names: set<string>, hosts: set<string>, checked: set<string>)
      ensures tasks == InitialTasks(names) && this.hosts == hosts && this.checked == checked
    {
      tasks := map n | n in names :: Task(Pending, false);
      this.hosts, this.checked := hosts, checked;
    }

    // updateTaskStatus up to the point where a die event is reported.
    method Update(e: Event)
      requires e.name in tasks
      modifies this`tasks
      ensures tasks == Updated(old(tasks), e)
    {
      if e.Healthy? {
        tasks := tasks[e.name := tasks[e.name].(ready := true)];
      } else {
        tasks := tasks[e.name := tasks[e.name].(status := if e.Start? then Started else Died)];
      }
    }

    method AreReady(ghost log: seq<Event>) returns (r: bool)
      requires Reflects(tasks, log)
      ensures r <==> ReadyByLog(log, tasks.Keys, hosts, checked)
    {
      var todo := tasks.Keys;
      while todo != {}
        invariant todo <= tasks.Keys
        invariant ReadyByLog(log, tasks.Keys - todo, hosts, checked)
      {
        var name :| name in todo;
        if name !in hosts {
          if tasks[name].status != Started {
            return false;
          }
          if name in checked && !tasks[name].ready {
            return false;
          }
        }
        todo := todo - {name};
      }
      return true;
    }
  }

  function InitialTasks(names: set<string>): map<string, Task> { map n | n in names :: Task(Pending, false) }

  function Updated(tasks: map<string, Task>, e: Event): map<string, Task>
    requires e.name in tasks
  {
    var t := tasks[e.name];
    tasks[e.name := match e
                    case Start(_) => t.(status := Started)
                    case Die(_) => t.(status := Died)
                    case Healthy(_) => t.(ready := true)]
  }

  // The tasks are what the log says.
  predicate Reflects(tasks: map<string, Task>, log: seq<Event>) {
    forall n :: n in tasks ==> tasks[n] == Task(LatestStatus(log, n), Healthy(n) in log)
  }

  lemma UpdateReflects(tasks: map<string, Task>, log: seq<Event>, e: Event)
    requires Reflects(tasks, log) && e.name in tasks
    ensures Reflects(Updated(tasks, e), log + [e])
  {
    assert (log + [e])[..|log|] == log;
  }

  predicate ReadyByTasks(tasks: map<string, Task>, hosts: set<string>, checked: set<string>) {
    forall n :: n in tasks && n !in hosts ==> tasks[n].status == Started && (n in checked ==> tasks[n].ready)
  }

  // ----- the protocol, one atomic step at a time -----

  // Sending holds the mutex; Crashed is the end of the process, after an event of
  // a container without a task.
  datatype Updater = Idle | Sending(name: string) | Crashed

  // WantsMutex is inside AreReady, before the lock; Running has found all services
  // ready and only waits for failures; Returned has read a failure and reads no more.
  datatype Reader = Polling | WantsMutex | Running | Returned

  datatype State = State(
    hosts: set<string>,
    checked: set<string>,
    tasks: map<string, Task>,
    updater: Updater,
    hostSenders: multiset<string>,
    reader: Reader,
    queue: seq<Failure>,
    // history
    log: seq<Event>,
    hostFailures: multiset<string>,
    sent: seq<Failure>,
    received: seq<Failure>)

  datatype Step =
    | Handle(event: Event)
    | UpdaterSend
    | HostFails(name: string)
    | HostSend(name: string)
    | Receive
    | Poll
    | CheckReady

  function Init(names: set<string>, hosts: set<string>, checked: set<string>): State {
    State(hosts, checked, InitialTasks(names), Idle, multiset{}, Polling, [], [], multiset{}, [], [])
  }

  predicate Enabled(s: State, step: Step) {
    !s.updater.Crashed? &&
    match step
    case Handle(_) => s.updater.Idle?
    case UpdaterSend => s.updater.Sending? && |s.queue| < QUEUE_SIZE
    case HostFails(_) => true
    case HostSend(n) => n in s.hostSenders && |s.queue| < QUEUE_SIZE
    case Receive => (s.reader.Polling? || s.reader.Running?) && s.queue != []
    case Poll => s.reader.Polling?
    case CheckReady => s.reader.WantsMutex? && s.updater.Idle?
  }

  function Enqueue(s: State, f: Failure): State { s.(queue := s.queue + [f], sent := s.sent + [f]) }

  function Next(s: State, step: Step): State
    requires Enabled(s, step)
  {
    match step
    case Handle(e) =>
      if e.name !in s.tasks then s.(updater := Crashed)
      else
        s.(tasks := Updated(s.tasks, e), log := s.log + [e], updater := if e.Die? then Sending(e.name) else Idle)
    case UpdaterSend => Enqueue(s, ContainerFailed(s.updater.name)).(updater := Idle)
    case HostFails(n) => s.(hostSenders := s.hostSenders + multiset{n}, hostFailures := s.hostFailures + multiset{n})
    case HostSend(n) => Enqueue(s, HostFailed(n)).(hostSenders := s.hostSenders - multiset{n})
    case Receive => s.(queue := s.queue[1..], received := s.received + [s.queue[0]], reader := Returned)
    case Poll => s.(reader := WantsMutex)
    case CheckReady => s.(reader := if ReadyByTasks(s.tasks, s.hosts, s.checked) then Running else Polling)
  }

  // The containers, or the host services, among some failures, in order.
  function Containers(fs: seq<Failure>): seq<string> {
    if fs == [] then []
    else
      match fs[|fs| - 1]
      case ContainerFailed(n) => Containers(fs[..|fs| - 1]) + [n]
      case HostFailed(_) => Containers(fs[..|fs| - 1])
  }

  function HostNames(fs: seq<Failure>): multiset<string> {
    if fs == [] then multiset{}
    else
      match fs[|fs| - 1]
      case ContainerFailed(_) => HostNames(fs[..|fs| - 1])
      case HostFailed(n) => HostNames(fs[..|fs| - 1]) + multiset{n}
  }

  // At most two failures are unread and one was read; what was sent is what was read and what is
  // queued, in order; every die event is reported once, in order, the last one
  // possibly still on its way; every host failure is reported once or waiting.
  ghost predicate Inv(s: State) {
    |s.queue| <= QUEUE_SIZE && |s.received| == (if s.reader.Returned? then 1 else 0) &&
    s.sent == s.received + s.queue &&
    Deaths(s.log) == Containers(s.sent) + (if s.updater.Sending? then [s.updater.name] else []) &&
    s.hostFailures == HostNames(s.sent) + s.hostSenders &&
    Reflects(s.tasks, s.log)
  }

  // A run: states[0] is initial and each state follows from the one before it.
  ghost predicate Run(
    names: set<string>, hosts: set<string>, checked: set<string>, states: seq<State>, steps: seq<Step>)
  {
    |states| == |steps| + 1 && states[0] == Init(names, hosts, checked) &&
    forall i :: 0 <= i < |steps| ==> Follows(states, steps, i)
  }

  predicate Follows(states: seq<State>, steps: seq<Step>, i: nat)
    requires i < |steps| && |states| == |steps| + 1
  {
    Enabled(states[i], steps[i]) && states[i + 1] == Next(states[i], steps[i])
  }

  lemma EnqueueHistory(s: State, f: Failure)
    ensures Containers(s.sent + [f]) == Containers(s.sent) + (if f.ContainerFailed? then [f.name] else [])
    ensures HostNames(s.sent + [f]) == HostNames(s.sent) + (if f.HostFailed? then multiset{f.name} else multiset{})
  {
    assert (s.sent + [f])[..|s.sent|] == s.sent;
  }

  lemma HandleKeepsInv(s: State, e: Event)
    requires Inv(s) && Enabled(s, Handle(e))
    ensures Inv(Next(s, Handle(e)))
  {
    if e.name in s.tasks { UpdateReflects(s.tasks, s.log, e); }
    assert (s.log + [e])[..|s.log|] == s.log;
    assert Containers(s.sent) + [] == Containers(s.sent);
  }

  lemma UpdaterSendKeepsInv(s: State)
    requires Inv(s) && Enabled(s, UpdaterSend)
    ensures Inv(Next(s, UpdaterSend))
  {
    hide Reflects, Deaths, Containers, HostNames;
    var f := ContainerFailed(s.updater.name);
    EnqueueHistory(s, f);
    assert s.sent + [f] == s.received + (s.queue + [f]);
    assert Containers(s.sent + [f]) + [] == Containers(s.sent + [f]);
  }

  lemma HostSendKeepsInv(s: State, n: string)
    requires Inv(s) && Enabled(s, HostSend(n))
    ensures Inv(Next(s, HostSend(n)))
  {
    hide Reflects, Deaths, Containers, HostNames;
    var f := HostFailed(n);
    EnqueueHistory(s, f);
    assert s.sent + [f] == s.received + (s.queue + [f]);
    assert Containers(s.sent) + [] == Containers(s.sent);
  }

  lemma ReaderKeepsInv(s: State, step: Step)
    requires Inv(s) && Enabled(s, step) && (step.Receive? || step.Poll? || step.CheckReady?)
    ensures Inv(Next(s, step))
  {
    hide Reflects, ReadyByTasks, Deaths, Containers, HostNames;
    if step.Receive? { assert s.received + s.queue == (s.received + [s.queue[0]]) + s.queue[1..]; }
  }

  lemma StepKeepsInv(s: State, step: Step)
    requires Inv(s) && Enabled(s, step)
    ensures Inv(Next(s, step))
  {
    hide Reflects, ReadyByTasks;
    match step
    case Handle(e) => HandleKeepsInv(s, e);
    case UpdaterSend => UpdaterSendKeepsInv(s);
    case HostFails(_) =>
    case HostSend(n) => HostSendKeepsInv(s, n);
    case Receive => ReaderKeepsInv(s, step);
    case Poll => ReaderKeepsInv(s, step);
    case CheckReady => ReaderKeepsInv(s, step);
  }

  lemma {:induction false} RunKeepsInv(
    names: set<string>, hosts: set<string>, checked: set<string>, states: seq<State>, steps: seq<Step>, i: nat)
    requires Run(names, hosts, checked, states, steps) && i < |states|
    ensures Inv(states[i])
    ensures states[i].tasks.Keys == names && states[i].hosts == hosts && states[i].checked == checked
  {
    hide Inv, Next, Enabled, ReadyByTasks;
    if i > 0 {
      RunKeepsInv(names, hosts, checked, states, steps, i - 1);
      assert Follows(states, steps, i - 1);
      StepKeepsInv(states[i - 1], steps[i - 1]);
      StepKeepsNames(states[i - 1], steps[i - 1]);
    } else {
      InitInv(names, hosts, checked);
    }
  }

  lemma InitInv(names: set<string>, hosts: set<string>, checked: set<string>)
    ensures var s := Init(names, hosts, checked);
            Inv(s) && s.tasks.Keys == names && s.hosts == hosts && s.checked == checked
  {
  }

  lemma StepKeepsNames(s: State, step: Step)
    requires Enabled(s, step)
    ensures var t := Next(s, step); t.tasks.Keys == s.tasks.Keys && t.hosts == s.hosts && t.checked == s.checked
  {
    hide ReadyByTasks, Updated;
    if step.Handle? && step.event.name in s.tasks { UpdatedKeys(s.tasks, step.event); }
  }

  lemma UpdatedKeys(tasks: map<string, Task>, e: Event)
    requires e.name in tasks
    ensures Updated(tasks, e).Keys == tasks.Keys
  {
  }

  // In every reachable state readiness by the tasks is readiness by the log, and
  // a readiness check succeeds exactly when the log says that all are ready.
  lemma ReadinessRefinesLog(
    names: set<string>, hosts: set<string>, checked: set<string>, states: seq<State>, steps: seq<Step>, i: nat)
    requires Run(names, hosts, checked, states, steps) && i < |states|
    ensures ReadyByTasks(states[i].tasks, hosts, checked) <==> ReadyByLog(states[i].log, names, hosts, checked)
    ensures i < |steps| && steps[i].CheckReady? ==>
              (states[i + 1].reader.Running? <==> ReadyByLog(states[i].log, names, hosts, checked))
  {
    RunKeepsInv(names, hosts, checked, states, steps, i);
    if i < |steps| { assert Follows(states, steps, i); }
  }

  // The updater is stuck with the mutex exactly when two failures are unread.
  lemma UpdaterBlocksExactly(
    names: set<string>, hosts: set<string>, checked: set<string>, states: seq<State>, steps: seq<Step>, i: nat)
    requires Run(names, hosts, checked, states, steps) && i < |states|
    ensures var s := states[i];
            s.updater.Sending? && !Enabled(s, UpdaterSend) <==> s.updater.Sending? && |s.queue| == 2
  {
    RunKeepsInv(names, hosts, checked, states, steps, i);
  }

  // The reader waits for a mutex that the updater cannot release.
  predicate Deadlocked(s: State) {
    s.reader.WantsMutex? && s.updater.Sending? && |s.queue| >= QUEUE_SIZE
  }

  // Once there, neither the reader nor any sender ever moves again: later states
  // differ in host services that fail and cannot report it.
  lemma {:induction false} DeadlockIsPermanent(
    names: set<string>, hosts: set<string>, checked: set<string>, states: seq<State>, steps: seq<Step>, i: nat, j: nat)
    requires Run(names, hosts, checked, states, steps) && i <= j < |states| && Deadlocked(states[i])
    ensures Deadlocked(states[j])
    ensures var s, t := states[i], states[j];
            t == s.(hostSenders := t.hostSenders, hostFailures := t.hostFailures)
    decreases j - i
  {
    if i < j {
      DeadlockIsPermanent(names, hosts, checked, states, steps, i, j - 1);
      assert Follows(states, steps, j - 1);
      DeadlockStep(states[j - 1], steps[j - 1]);
    }
  }

  lemma DeadlockStep(s: State, step: Step)
    requires Deadlocked(s) && Enabled(s, step)
    ensures step.HostFails?
    ensures var t := Next(s, step);
            Deadlocked(t) && t == s.(hostSenders := t.hostSenders, hostFailures := t.hostFailures)
  {
  }

  // A reader waiting for the mutex can be served unless it is deadlocked.
  lemma OnlyDeadlockBlocksReader(s: State)
    requires s.reader.WantsMutex? && !s.updater.Crashed? && !Deadlocked(s)
    ensures Enabled(s, CheckReady) || (Enabled(s, UpdaterSend) && Enabled(Next(s, UpdaterSend), CheckReady))
  {
  }

  // Three die events while the reader is on its way to the mutex are enough.
  lemma DeadlockReachable()
    ensures exists states, steps :: Run({"el"}, {}, {}, states, steps) && Deadlocked(states[|states| - 1])
  {
    var d := Handle(Die("el"));
    var steps := [Poll, d, UpdaterSend, d, UpdaterSend, d];
    var s0 := Init({"el"}, {}, {});
    var s1 := Next(s0, Poll);
    var s2 := Next(s1, d);
    var s3 := Next(s2, UpdaterSend);
    var s4 := Next(s3, d);
    var s5 := Next(s4, UpdaterSend);
    var s6 := Next(s5, d);
    var states := [s0, s1, s2, s3, s4, s5, s6];
    assert Run({"el"}, {}, {}, states, steps);
    assert Deadlocked(states[|states| - 1]);
  }
}
