/** The boot supervisor of `boot_manager.cpp` as a state machine: one step per lock-held region or
    atomic store, taken in any order by the boot worker, the boot controller and service calls. */
module BootModel {
  import opened Bytes
  import opened InitScript

  datatype Phase = IDLE | EARLY_INIT | INIT | EARLY_BOOT | BOOT | COMPLETED

  /** The boot worker's program. */
  datatype Op =
    | SetPhase(phase: Phase)
    | StartClasses(classes: seq<string>)
    | Execute(trigger: string)
    | CheckBooting
    | ClearBooting

  const PROGRAM: seq<Op> := [
    SetPhase(EARLY_INIT), Execute("early-init"), CheckBooting,
    SetPhase(INIT), StartClasses(["core"]), Execute("init"), CheckBooting,
    SetPhase(EARLY_BOOT), Execute("early-boot"),
    SetPhase(BOOT), StartClasses(["main", "animation"]), Execute("boot"), CheckBooting,
    SetPhase(COMPLETED), ClearBooting]

  const CORE_PASS: nat := 4
  const MAIN_PASS: nat := 10
  const PROGRAM_LENGTH: nat := 15

  /** A worker in Execute holds the commands it still has to run, once it has collected them. */
  datatype Worker = NoThread | Alive(pc: nat, queue: Option<seq<string>>) | Exited

  /** The calls startBootSequence and stopBootSequence of the one controlling thread, region by region. */
  datatype Controller =
    | Free | StartJoin | StartStore | StartPhase | StartSpawn | StopJoin | StopReset

  /** What an observer of the whole run would have written down. */
  datatype History = History(
    issued: seq<int>,         // pids handed out, oldest first
    phases: seq<Phase>,       // phases of the current boot run
    reached: nat,             // program steps the current run completed
    asked: set<string>,       // names started by name and not stopped or loaded since
    stopped: set<string>,     // names stopped or loaded since the run began, not started by name since
    spawned: nat, exited: nat)

  datatype State = State(
    table: Table, phase: Phase, booting: bool, nextPid: int, worker: Worker, controller: Controller,
    history: History)

  datatype Event =
    | WorkerStep | CallStart | CallStop | ControllerStep
    | StartService(name: string) | StopService(name: string) | Load(table: Table)

  const FIRST_PID: int := 2000

  function Initial(): State {
    State(Table([], [], map[]), IDLE, false, FIRST_PID, NoThread, Free,
          History([], [], 0, {}, {}, 0, 0))
  }

  // ---------------------------------------------------------------------------
  // Services
  // ---------------------------------------------------------------------------

  function Started(s: InitService, pid: int): InitService {
    s.(status := Status.Running, pid := pid)
  }

  function Halted(s: InitService): InitService {
    s.(status := Stopped, pid := -1)
  }

  /** startService under its lock; a running or unknown service is left alone. */
  function StartNamed(s: State, name: string): State {
    if name !in s.table.index || s.table.index[name] >= |s.table.services| then s
    else
      var i := s.table.index[name];
      if s.table.services[i].status == Status.Running then s
      else
        s.(table := s.table.(services := s.table.services[i := Started(s.table.services[i], s.nextPid)]),
           nextPid := s.nextPid + 1,
           history := s.history.(issued := s.history.issued + [s.nextPid],
                                 asked := s.history.asked + {name},
                                 stopped := s.history.stopped - {name}))
  }

  function StopNamed(s: State, name: string): State {
    if name !in s.table.index || s.table.index[name] >= |s.table.services| then s
    else
      var i := s.table.index[name];
      s.(table := s.table.(services := s.table.services[i := Halted(s.table.services[i])]),
         history := s.history.(asked := s.history.asked - {name}, stopped := s.history.stopped + {name}))
  }

  predicate Wanted(s: InitService, classes: seq<string>) {
    exists c :: c in s.classes && c in classes
  }

  predicate StartsNow(s: InitService, classes: seq<string>) {
    Wanted(s, classes) && s.status != Status.Running && !s.isDisabled
  }

  /** One pass over the table: services of the classes start in order, one pid each. */
  function StartAll(ss: seq<InitService>, classes: seq<string>, pid: int): seq<InitService> {
    if ss == [] then []
    else if StartsNow(ss[0], classes) then [Started(ss[0], pid)] + StartAll(ss[1..], classes, pid + 1)
    else [ss[0]] + StartAll(ss[1..], classes, pid)
  }

  function CountStarts(ss: seq<InitService>, classes: seq<string>): nat {
    if ss == [] then 0 else (if StartsNow(ss[0], classes) then 1 else 0) + CountStarts(ss[1..], classes)
  }

  function Pids(from: int, n: nat): (r: seq<int>)
    ensures |r| == n
  {
    seq(n, i => from + i)
  }

  function StartPass(s: State, classes: seq<string>): State {
    var n := CountStarts(s.table.services, classes);
    s.(table := s.table.(services := StartAll(s.table.services, classes, s.nextPid)),
       nextPid := s.nextPid + n,
       history := s.history.(issued := s.history.issued + Pids(s.nextPid, n)))
  }

  /** startService leaves a known service running, with the next pid if it did not run, and touches
      nothing else; an unknown name does nothing. */
  lemma StartRuns(s: State, name: string)
    requires Consistent(s.table)
    ensures var t := StartNamed(s, name);
            && t.phase == s.phase && t.booting == s.booting && t.worker == s.worker && t.controller == s.controller
            && (name !in s.table.index ==> t == s)
            && (name in s.table.index ==>
                  var i := s.table.index[name];
                  var x := s.table.services[i];
                  && x.name == name
                  && (x.status == Status.Running ==> t == s)
                  && (x.status == Stopped ==>
                        t.nextPid == s.nextPid + 1
                        && t.table == s.table.(services := s.table.services[i := x.(status := Status.Running,
                                                                                    pid := s.nextPid)])))
  {
  }

  /** stopService leaves it stopped, whether or not it ran. */
  lemma StopStops(s: State, name: string)
    requires Consistent(s.table)
    ensures var t := StopNamed(s, name);
            && t.phase == s.phase && t.booting == s.booting && t.worker == s.worker && t.controller == s.controller
            && t.nextPid == s.nextPid
            && (name !in s.table.index ==> t == s)
            && (name in s.table.index ==>
                  var i := s.table.index[name];
                  var x := s.table.services[i];
                  t.table == s.table.(services := s.table.services[i := x.(status := Stopped, pid := -1)]))
  {
  }

  // ---------------------------------------------------------------------------
  // Worker
  // ---------------------------------------------------------------------------

  /** The commands of every action with the trigger, in order. */
  function Commands(actions: seq<InitAction>, trigger: string): seq<string> {
    if actions == [] then []
    else (if actions[0].trigger == trigger then actions[0].commands else []) + Commands(actions[1..], trigger)
  }

  /** The commands are collected action by action, from those with exactly the trigger. */
  lemma {:induction false} CommandsJoin(a: seq<InitAction>, b: seq<InitAction>, trigger: string)
    ensures Commands(a + b, trigger) == Commands(a, trigger) + Commands(b, trigger)
  {
    if a == [] {
      assert a + b == b;
    } else {
      assert (a + b)[0] == a[0] && (a + b)[1..] == a[1..] + b;
      CommandsJoin(a[1..], b, trigger);
      Assoc(if a[0].trigger == trigger then a[0].commands else [], Commands(a[1..], trigger), Commands(b, trigger));
    }
  }

  lemma CommandsOfOne(a: InitAction, trigger: string)
    ensures Commands([a], trigger) == if trigger == a.trigger then a.commands else []
  {
    assert [a][1..] == [] && a.commands + [] == a.commands;
  }

  predicate StartsWith(s: string, prefix: string) {
    prefix <= s
  }

  /** The commands that touch the service table; mkdir and setprop do not. */
  function RunCommand(s: State, cmd: string): State {
    if StartsWith(cmd, "mkdir ") || StartsWith(cmd, "setprop ") then s
    else if StartsWith(cmd, "start ") then StartNamed(s, cmd[6..])
    else if StartsWith(cmd, "class_start ") then StartPass(s, [cmd[12..]])
    else s
  }

  /** A command line reaches exactly the service or class it names, and the other kinds none. */
  lemma CommandsReach(s: State, name: string)
    ensures RunCommand(s, "start " + name) == StartNamed(s, name)
    ensures RunCommand(s, "class_start " + name) == StartPass(s, [name])
    ensures RunCommand(s, "mkdir " + name) == s == RunCommand(s, "setprop " + name)
  {
    var start, pass := "start " + name, "class_start " + name;
    assert start[6..] == name && pass[12..] == name;
    assert start[0] == 's' && start[1] == 't' && pass[0] == 'c';
    assert "mkdir "[0] == 'm' && "setprop "[1] == 'e';
  }

  function Advance(s: State, pc: nat): State {
    s.(worker := Alive(pc + 1, None), history := s.history.(reached := pc + 1))
  }

  function Leave(s: State, reached: nat): State {
    s.(worker := Exited, history := s.history.(reached := reached, exited := s.history.exited + 1))
  }

  function WorkerNext(s: State): State {
    match s.worker
    case Alive(pc, queue) =>
      if pc >= PROGRAM_LENGTH then s
      else (match PROGRAM[pc]
            case SetPhase(p) =>
              Advance(s.(phase := p, history := s.history.(phases := s.history.phases + [p])), pc)
            case StartClasses(cs) => Advance(StartPass(s, cs), pc)
            case Execute(trigger) =>
              (match queue
               case None => s.(worker := Alive(pc, Some(Commands(s.table.actions, trigger))))
               case Some(cmds) =>
                 if cmds == [] then Advance(s, pc)
                 else RunCommand(s.(worker := Alive(pc, Some(cmds[1..]))), cmds[0]))
            case CheckBooting => if s.booting then Advance(s, pc) else Leave(s, pc)
            case ClearBooting => Leave(s.(booting := false), pc + 1))
    case _ => s
  }

  // ---------------------------------------------------------------------------
  // Controller
  // ---------------------------------------------------------------------------

  function ControllerNext(s: State): State {
    match s.controller
    case Free => s
    case StartJoin => if s.worker.Alive? then s else s.(worker := NoThread, controller := StartStore)
    case StartStore => s.(booting := true, controller := StartPhase)
    case StartPhase => s.(phase := IDLE, controller := StartSpawn)
    case StartSpawn =>
      s.(worker := Alive(0, None), controller := Free,
         history := s.history.(phases := [], reached := 0, stopped := {}, spawned := s.history.spawned + 1))
    case StopJoin => if s.worker.Alive? then s else s.(worker := NoThread, controller := StopReset)
    case StopReset =>
      s.(table := s.table.(services := ResetAll(s.table.services)), phase := IDLE, controller := Free,
         history := s.history.(asked := {}, stopped := s.history.stopped + Names(s.table.services)))
  }

  function ResetAll(ss: seq<InitService>): seq<InitService> {
    seq(|ss|, i requires 0 <= i < |ss| => if ss[i].status == Status.Running then Halted(ss[i]) else ss[i])
  }

  function Names(ss: seq<InitService>): set<string> {
    set i | 0 <= i < |ss| :: ss[i].name
  }

  /** A freshly parsed table: exact index, nothing running. */
  ghost predicate FreshTable(t: Table) {
    Consistent(t) && AllNeverRun(t)
  }

  function Step(s: State, e: Event): State {
    match e
    case WorkerStep => WorkerNext(s)
    case CallStart => if s.controller != Free || s.booting then s else s.(controller := StartJoin)
    case CallStop => if s.controller != Free then s else s.(booting := false, controller := StopJoin)
    case ControllerStep => ControllerNext(s)
    case StartService(name) => StartNamed(s, name)
    case StopService(name) => StopNamed(s, name)
    case Load(t) =>
      s.(table := t, history := s.history.(asked := {}, stopped := s.history.stopped + Names(t.services)))
  }

  function RunAll(s: State, es: seq<Event>): State
    decreases |es|
  {
    if es == [] then s else RunAll(Step(s, es[0]), es[1..])
  }

  // ---------------------------------------------------------------------------
  // The invariant
  // ---------------------------------------------------------------------------

  /** Running means a pid from the counter, and running pids are pairwise different. */
  ghost predicate PidsValid(ss: seq<InitService>, nextPid: int) {
    && (forall i :: 0 <= i < |ss| ==>
          if ss[i].status == Status.Running then FIRST_PID <= ss[i].pid < nextPid else ss[i].pid == -1)
    && (forall i, j :: 0 <= i < j < |ss| && ss[i].status == Status.Running && ss[j].status == Status.Running ==>
          ss[i].pid != ss[j].pid)
  }

  /** The phases the program sets before step pc. */
  function PhasesBefore(pc: nat): seq<Phase>
    requires pc <= PROGRAM_LENGTH
  {
    if pc == 0 then []
    else PhasesBefore(pc - 1) + match PROGRAM[pc - 1] case SetPhase(p) => [p] case _ => []
  }

  /** The services of the classes all run, but for disabled ones and those stopped since. */
  ghost predicate ClassUp(s: State, classes: seq<string>) {
    forall i :: 0 <= i < |s.table.services| ==>
      var x := s.table.services[i];
      Wanted(x, classes) && !x.isDisabled && x.name !in s.history.stopped ==> x.status == Status.Running
  }

  ghost predicate ThreadsValid(s: State) {
    var h := s.history;
    && h.spawned == h.exited + (if s.worker.Alive? then 1 else 0)
    && (s.worker.Alive? ==> s.worker.pc < PROGRAM_LENGTH && h.reached == s.worker.pc)
    && h.reached <= PROGRAM_LENGTH && h.phases == PhasesBefore(h.reached)
    && (s.controller in {StartStore, StartPhase, StartSpawn, StopReset} ==> s.worker == NoThread)
    && (s.controller == StartSpawn ==> s.phase == IDLE)
    && (s.controller in {StartPhase, StartSpawn} ==> s.booting)
    && (s.phase != IDLE ==> h.phases != [] && s.phase == h.phases[|h.phases| - 1])
    && (s.worker.Alive? && s.controller in {Free, StartJoin} ==> s.booting)
  }

  ghost predicate ServicesValid(s: State) {
    Consistent(s.table) && PidsValid(s.table.services, s.nextPid)
    && DisabledAsked(s.table.services, s.history.asked)
  }

  /** A disabled service runs only if it was asked for by name. */
  ghost predicate DisabledAsked(ss: seq<InitService>, asked: set<string>) {
    forall i :: 0 <= i < |ss| && ss[i].status == Status.Running && ss[i].isDisabled ==> ss[i].name in asked
  }

  /** The pids handed out are 2000, 2001, ...: none of them twice. */
  ghost predicate IssuedValid(s: State) {
    s.nextPid == FIRST_PID + |s.history.issued| && s.history.issued == Pids(FIRST_PID, |s.history.issued|)
  }

  ghost predicate PassesValid(s: State) {
    && (s.history.reached > CORE_PASS ==> ClassUp(s, ["core"]))
    && (s.history.reached > MAIN_PASS ==> ClassUp(s, ["main", "animation"]))
  }

  ghost predicate Inv(s: State) {
    ServicesValid(s) && IssuedValid(s) && ThreadsValid(s) && PassesValid(s)
  }

  /** An action an environment can take: a loaded table is freshly parsed. */
  ghost predicate Possible(e: Event) {
    e.Load? ==> FreshTable(e.table)
  }

  lemma StartNamedServices(s: State, name: string)
    requires ServicesValid(s) && FIRST_PID <= s.nextPid
    ensures ServicesValid(StartNamed(s, name))
  {
    ReplacedConsistent(s.table, name, if name in s.table.index then s.table.index[name] else 0);
    if name in s.table.index {
      var i := s.table.index[name];
      StartedPids(s.table.services, i, s.nextPid);
      StartedAsked(s.table.services, i, s.nextPid, s.history.asked);
    }
    hide Consistent, PidsValid, DisabledAsked;
  }

  /** Changing a service in place leaves the index exact, as long as its name stays. */
  lemma ReplacedConsistent(t: Table, name: string, i: nat)
    requires Consistent(t)
    ensures name in t.index ==> t.index[name] < |t.services| && t.services[t.index[name]].name == name
    ensures i < |t.services| ==> forall pid :: Consistent(t.(services := t.services[i := Started(t.services[i], pid)]))
    ensures i < |t.services| ==> Consistent(t.(services := t.services[i := Halted(t.services[i])]))
  {
  }

  lemma StartedPids(ss: seq<InitService>, i: nat, pid: int)
    requires PidsValid(ss, pid) && FIRST_PID <= pid && i < |ss|
    ensures PidsValid(ss[i := Started(ss[i], pid)], pid + 1)
  {
  }

  lemma StartedAsked(ss: seq<InitService>, i: nat, pid: int, asked: set<string>)
    requires DisabledAsked(ss, asked) && i < |ss|
    ensures DisabledAsked(ss[i := Started(ss[i], pid)], asked + {ss[i].name})
  {
  }

  lemma HaltedPids(ss: seq<InitService>, i: nat, pid: int)
    requires PidsValid(ss, pid) && i < |ss|
    ensures PidsValid(ss[i := Halted(ss[i])], pid)
  {
  }

  /** Stopping the only service of a name takes the name off the list. */
  lemma HaltedAsked(t: Table, i: nat, asked: set<string>)
    requires Consistent(t) && DisabledAsked(t.services, asked) && i < |t.services|
    ensures DisabledAsked(t.services[i := Halted(t.services[i])], asked - {t.services[i].name})
  {
  }

  lemma StartNamedPasses(s: State, name: string, classes: seq<string>)
    requires Consistent(s.table) && ClassUp(s, classes)
    ensures ClassUp(StartNamed(s, name), classes)
  {
  }

  lemma StartNamedKeeps(s: State, name: string)
    requires Inv(s)
    ensures Inv(StartNamed(s, name))
    ensures s.history.issued <= StartNamed(s, name).history.issued
    ensures StartNamed(s, name).history.stopped <= s.history.stopped
  {
    StartNamedServices(s, name);
    if ClassUp(s, ["core"]) { StartNamedPasses(s, name, ["core"]); }
    if ClassUp(s, ["main", "animation"]) { StartNamedPasses(s, name, ["main", "animation"]); }
    StartNamedRest(s, name);
    hide ServicesValid, ClassUp, ThreadsValid, IssuedValid;
  }

  /** Threads and pids handed out are not touched, or one pid is handed out. */
  lemma StartNamedRest(s: State, name: string)
    requires ThreadsValid(s) && IssuedValid(s)
    ensures ThreadsValid(StartNamed(s, name)) && IssuedValid(StartNamed(s, name))
    ensures s.history.issued <= StartNamed(s, name).history.issued
  {
    hide PhasesBefore, Pids;
    PidsAppend(FIRST_PID, |s.history.issued|, 1);
  }

  lemma StopNamedServices(s: State, name: string)
    requires ServicesValid(s)
    ensures ServicesValid(StopNamed(s, name))
  {
    ReplacedConsistent(s.table, name, if name in s.table.index then s.table.index[name] else 0);
    if name in s.table.index {
      var i := s.table.index[name];
      HaltedPids(s.table.services, i, s.nextPid);
      HaltedAsked(s.table, i, s.history.asked);
    }
    hide Consistent, PidsValid, DisabledAsked;
  }

  lemma StopNamedKeeps(s: State, name: string)
    requires Inv(s)
    ensures Inv(StopNamed(s, name))
  {
    StopNamedServices(s, name);
    hide ServicesValid;
  }

  lemma PidsAppend(from: int, n: nat, m: nat)
    ensures Pids(from, n) + Pids(from + n, m) == Pids(from, n + m)
    ensures m == 1 ==> Pids(from + n, m) == [from + n]
  {
  }

  /** What one pass does to each service. */
  lemma {:induction false} StartAllEach(ss: seq<InitService>, classes: seq<string>, pid: int)
    ensures var r := StartAll(ss, classes, pid);
            && |r| == |ss|
            && (forall i :: 0 <= i < |ss| ==>
                  if StartsNow(ss[i], classes)
                  then r[i] == Started(ss[i], r[i].pid) && pid <= r[i].pid < pid + CountStarts(ss, classes)
                  else r[i] == ss[i])
            && (forall i, j :: 0 <= i < j < |ss| && StartsNow(ss[i], classes) && StartsNow(ss[j], classes) ==>
                  r[i].pid < r[j].pid)
  {
    if ss != [] {
      var p := if StartsNow(ss[0], classes) then pid + 1 else pid;
      StartAllEach(ss[1..], classes, p);
      var r, rest := StartAll(ss, classes, pid), StartAll(ss[1..], classes, p);
      forall i | 0 < i < |ss| ensures r[i] == rest[i - 1] && ss[i] == ss[1..][i - 1] {}
    }
  }

  /** A class pass turns on exactly the stopped, non-disabled services of its classes. */
  lemma PassMeans(s: State, classes: seq<string>, i: nat)
    requires i < |s.table.services|
    ensures var t, x := StartPass(s, classes), s.table.services[i];
            && |t.table.services| == |s.table.services| && t.table.actions == s.table.actions
            && if x.status == Stopped && !x.isDisabled && exists c :: c in x.classes && c in classes
               then t.table.services[i].status == Status.Running
                    && t.table.services[i] == x.(status := Status.Running, pid := t.table.services[i].pid)
                    && s.nextPid <= t.table.services[i].pid < t.nextPid
               else t.table.services[i] == x
  {
    StartAllEach(s.table.services, classes, s.nextPid);
  }

  /** A pass only ever turns services on, and turns on all it wants. */
  lemma PassClasses(s: State, classes: seq<string>, others: seq<string>)
    ensures var t := StartPass(s, classes);
            && (ClassUp(s, others) ==> ClassUp(t, others))
            && ClassUp(t, classes)
  {
    var ss, rs := s.table.services, StartPass(s, classes).table.services;
    StartAllEach(ss, classes, s.nextPid);
    forall i | 0 <= i < |rs|
      ensures Wanted(rs[i], classes) == Wanted(ss[i], classes) && Wanted(rs[i], others) == Wanted(ss[i], others)
    {
    }
  }

  lemma PassServices(s: State, classes: seq<string>)
    requires ServicesValid(s) && FIRST_PID <= s.nextPid
    ensures ServicesValid(StartPass(s, classes))
  {
    PassPids(s.table.services, StartPass(s, classes).table.services, classes, s.nextPid);
    PassConsistent(s, classes);
    PassDisabled(s, classes);
    hide Consistent, PidsValid, DisabledAsked, StartAll, CountStarts;
  }

  lemma PassConsistent(s: State, classes: seq<string>)
    requires Consistent(s.table)
    ensures Consistent(StartPass(s, classes).table)
  {
    StartAllEach(s.table.services, classes, s.nextPid);
    hide StartAll, CountStarts, StartsNow;
  }

  /** A pass starts no disabled service. */
  lemma PassDisabled(s: State, classes: seq<string>)
    requires ServicesValid(s)
    ensures DisabledAsked(StartPass(s, classes).table.services, s.history.asked)
  {
    hide Consistent, PidsValid;
    StartAllEach(s.table.services, classes, s.nextPid);
    hide StartAll, CountStarts;
  }

  lemma StartPassKeeps(s: State, classes: seq<string>)
    requires Inv(s)
    ensures Inv(StartPass(s, classes)) && ClassUp(StartPass(s, classes), classes)
    ensures s.history.issued <= StartPass(s, classes).history.issued
  {
    PassServices(s, classes);
    PassClasses(s, classes, ["core"]);
    PassClasses(s, classes, ["main", "animation"]);
    PassRest(s, classes);
    hide ServicesValid, ClassUp, ThreadsValid, IssuedValid, StartAll, CountStarts;
  }

  lemma PassRest(s: State, classes: seq<string>)
    requires ThreadsValid(s) && IssuedValid(s)
    ensures ThreadsValid(StartPass(s, classes)) && IssuedValid(StartPass(s, classes))
    ensures s.history.issued <= StartPass(s, classes).history.issued
  {
    hide PhasesBefore, Pids, StartAll, CountStarts;
    PidsAppend(FIRST_PID, |s.history.issued|, CountStarts(s.table.services, classes));
  }

  lemma PassPids(ss: seq<InitService>, rs: seq<InitService>, classes: seq<string>, pid: int)
    requires PidsValid(ss, pid) && FIRST_PID <= pid && rs == StartAll(ss, classes, pid)
    ensures |rs| == |ss| && PidsValid(rs, pid + CountStarts(ss, classes))
  {
    StartAllEach(ss, classes, pid);
  }

  lemma PhasesStart()
    ensures PhasesBefore(0) == []
  {
  }

  lemma PhasesStep(pc: nat)
    requires pc < PROGRAM_LENGTH
    ensures PhasesBefore(pc + 1)
         == PhasesBefore(pc) + match PROGRAM[pc] case SetPhase(p) => [p] case _ => []
    ensures !PROGRAM[pc].SetPhase? ==> PhasesBefore(pc + 1) == PhasesBefore(pc)
  {
  }

  lemma RunCommandKeeps(s: State, cmd: string)
    requires Inv(s)
    ensures Inv(RunCommand(s, cmd)) && s.history.issued <= RunCommand(s, cmd).history.issued
    ensures RunCommand(s, cmd).history.stopped <= s.history.stopped
  {
    if StartsWith(cmd, "start ") {
      StartNamedKeeps(s, cmd[6..]);
    } else if StartsWith(cmd, "class_start ") {
      StartPassKeeps(s, [cmd[12..]]);
    }
  }

  /** A worker step that runs op pc to its end. */
  lemma AdvanceKeeps(s: State, pc: nat)
    requires Inv(s) && s.worker.Alive? && s.worker.pc == pc && pc + 1 < PROGRAM_LENGTH
    requires !PROGRAM[pc].SetPhase?
    requires pc == CORE_PASS ==> ClassUp(s, ["core"])
    requires pc == MAIN_PASS ==> ClassUp(s, ["main", "animation"])
    ensures Inv(Advance(s, pc))
  {
    PhasesStep(pc);
    assert PhasesBefore(pc) + [] == PhasesBefore(pc);
  }

  lemma SetPhaseKeeps(s: State, pc: nat, p: Phase)
    requires Inv(s) && s.worker.Alive? && s.worker.pc == pc && pc < PROGRAM_LENGTH && PROGRAM[pc] == SetPhase(p)
    ensures Inv(Advance(s.(phase := p, history := s.history.(phases := s.history.phases + [p])), pc))
  {
    PhasesStep(pc);
  }

  lemma LeaveKeeps(s: State, pc: nat, reached: nat, booting: bool)
    requires Inv(s) && s.worker.Alive? && s.worker.pc == pc
    requires reached == pc || (pc + 1 == reached == PROGRAM_LENGTH)
    requires PROGRAM[pc].CheckBooting? || PROGRAM[pc].ClearBooting?
    requires s.controller !in {StartStore, StartPhase, StartSpawn, StopReset}
    ensures Inv(Leave(s.(booting := booting), reached))
  {
    PhasesStep(pc);
    assert PhasesBefore(pc) + [] == PhasesBefore(pc);
  }

  lemma RequeueKeeps(s: State, pc: nat, queue: Option<seq<string>>)
    requires Inv(s) && s.worker.Alive? && s.worker.pc == pc
    ensures Inv(s.(worker := Alive(pc, queue)))
  {
    hide Consistent, PidsValid;
  }

  lemma ExecuteKeeps(s: State, pc: nat, trigger: string)
    requires Inv(s) && s.worker.Alive? && s.worker.pc == pc
    requires pc + 1 < PROGRAM_LENGTH && PROGRAM[pc] == Execute(trigger)
    ensures Inv(WorkerNext(s)) && s.history.issued <= WorkerNext(s).history.issued
    ensures WorkerNext(s).history.stopped <= s.history.stopped
  {
    hide Inv, RunCommand;
    match s.worker.queue
    case None => RequeueKeeps(s, pc, Some(Commands(s.table.actions, trigger)));
    case Some(cmds) =>
      if cmds == [] {
        AdvanceKeeps(s, pc);
      } else {
        RequeueKeeps(s, pc, Some(cmds[1..]));
        RunCommandKeeps(s.(worker := Alive(pc, Some(cmds[1..]))), cmds[0]);
      }
  }

  /** Which steps of the program are of which kind. */
  lemma ProgramShape(pc: nat)
    requires pc < PROGRAM_LENGTH
    ensures PROGRAM[pc].StartClasses? ==>
              (pc == CORE_PASS && PROGRAM[pc].classes == ["core"])
              || (pc == MAIN_PASS && PROGRAM[pc].classes == ["main", "animation"])
    ensures PROGRAM[pc].Execute? || PROGRAM[pc].CheckBooting? ==>
              pc != CORE_PASS && pc != MAIN_PASS && pc + 1 < PROGRAM_LENGTH
    ensures PROGRAM[pc].ClearBooting? ==> pc + 1 == PROGRAM_LENGTH
  {
  }

  /** One kind of step after the other. */
  lemma PhaseStepKeeps(s: State, pc: nat)
    requires Inv(s) && s.worker.Alive? && s.worker.pc == pc && pc < PROGRAM_LENGTH && PROGRAM[pc].SetPhase?
    ensures Inv(WorkerNext(s)) && s.history.issued <= WorkerNext(s).history.issued
    ensures WorkerNext(s).history.stopped <= s.history.stopped
  {
    SetPhaseKeeps(s, pc, PROGRAM[pc].phase);
    hide Inv, PROGRAM;
  }

  lemma ClassesStepKeeps(s: State, pc: nat)
    requires Inv(s) && s.worker.Alive? && s.worker.pc == pc && pc < PROGRAM_LENGTH && PROGRAM[pc].StartClasses?
    ensures Inv(WorkerNext(s)) && s.history.issued <= WorkerNext(s).history.issued
    ensures WorkerNext(s).history.stopped <= s.history.stopped
  {
    hide Inv, ClassUp;
    ProgramShape(pc);
    StartPassKeeps(s, PROGRAM[pc].classes);
    AdvanceKeeps(StartPass(s, PROGRAM[pc].classes), pc);
  }

  lemma CheckStepKeeps(s: State, pc: nat)
    requires Inv(s) && s.worker.Alive? && s.worker.pc == pc && pc < PROGRAM_LENGTH && PROGRAM[pc].CheckBooting?
    ensures Inv(WorkerNext(s)) && s.history.issued <= WorkerNext(s).history.issued
    ensures WorkerNext(s).history.stopped <= s.history.stopped
  {
    assert s.controller !in {StartStore, StartPhase, StartSpawn, StopReset};
    hide Inv, ClassUp;
    ProgramShape(pc);
    if s.booting {
      AdvanceKeeps(s, pc);
    } else {
      LeaveKeeps(s, pc, pc, s.booting);
      assert s.(booting := s.booting) == s;
    }
  }

  lemma ClearStepKeeps(s: State, pc: nat)
    requires Inv(s) && s.worker.Alive? && s.worker.pc == pc && pc < PROGRAM_LENGTH && PROGRAM[pc].ClearBooting?
    ensures Inv(WorkerNext(s)) && s.history.issued <= WorkerNext(s).history.issued
    ensures WorkerNext(s).history.stopped <= s.history.stopped
  {
    assert s.controller !in {StartStore, StartPhase, StartSpawn, StopReset};
    hide Inv;
    ProgramShape(pc);
    LeaveKeeps(s, pc, pc + 1, false);
  }

  lemma WorkerKeeps(s: State)
    requires Inv(s)
    ensures Inv(WorkerNext(s)) && s.history.issued <= WorkerNext(s).history.issued
    ensures WorkerNext(s).history.stopped <= s.history.stopped
  {
    if s.worker.Alive? {
      var pc := s.worker.pc;
      assert pc < PROGRAM_LENGTH;
      hide Inv, WorkerNext;
      ProgramShape(pc);
      match PROGRAM[pc]
      case SetPhase(_) => PhaseStepKeeps(s, pc);
      case StartClasses(_) => ClassesStepKeeps(s, pc);
      case Execute(trigger) => ExecuteKeeps(s, pc, trigger);
      case CheckBooting => CheckStepKeeps(s, pc);
      case ClearBooting => ClearStepKeeps(s, pc);
    }
  }

  lemma SpawnKeeps(s: State)
    requires Inv(s) && s.controller == StartSpawn
    ensures Inv(ControllerNext(s))
  {
    hide Consistent, PidsValid;
  }

  lemma ResetServices(s: State)
    requires ServicesValid(s)
    ensures ServicesValid(s.(table := s.table.(services := ResetAll(s.table.services))))
  {
  }

  lemma ResetPasses(s: State, classes: seq<string>)
    requires s.controller == StopReset
    ensures ClassUp(ControllerNext(s), classes)
  {
    forall i | 0 <= i < |s.table.services| ensures s.table.services[i].name in Names(s.table.services) {}
  }

  lemma ResetKeeps(s: State)
    requires Inv(s) && s.controller == StopReset
    ensures Inv(ControllerNext(s))
  {
    ResetServices(s);
    ResetPasses(s, ["core"]);
    ResetPasses(s, ["main", "animation"]);
    hide ClassUp, Consistent, PidsValid;
  }

  lemma ControllerKeeps(s: State)
    requires Inv(s)
    ensures Inv(ControllerNext(s)) && s.history.issued <= ControllerNext(s).history.issued
  {
    if s.controller == StartSpawn {
      SpawnKeeps(s);
    } else if s.controller == StopReset {
      ResetKeeps(s);
    } else {
      hide ClassUp, Consistent, PidsValid;
    }
  }

  lemma LoadKeeps(s: State, t: Table)
    requires Inv(s) && FreshTable(t)
    ensures Inv(Step(s, Load(t)))
  {
    var u := Step(s, Load(t));
    assert ServicesValid(u) by { hide ClassUp, PhasesBefore; }
    forall i | 0 <= i < |t.services| ensures t.services[i].name in Names(t.services) {}
    assert ClassUp(u, ["core"]) && ClassUp(u, ["main", "animation"]) by { hide Consistent, PidsValid; }
    hide ServicesValid, ClassUp, Consistent, Names, PhasesBefore;
  }

  /** Every step of every thread keeps the invariant, and pids are only ever appended. */
  lemma StepKeeps(s: State, e: Event)
    requires Inv(s) && Possible(e)
    ensures Inv(Step(s, e)) && s.history.issued <= Step(s, e).history.issued
  {
    match e
    case WorkerStep => WorkerKeeps(s);
    case ControllerStep => ControllerKeeps(s);
    case StartService(name) => StartNamedKeeps(s, name);
    case StopService(name) => StopNamedKeeps(s, name);
    case Load(t) => LoadKeeps(s, t);
    case _ =>
  }

  lemma {:induction false} RunKeepsInv(s: State, es: seq<Event>)
    requires Inv(s) && forall i :: 0 <= i < |es| ==> Possible(es[i])
    ensures Inv(RunAll(s, es)) && s.history.issued <= RunAll(s, es).history.issued
    decreases |es|
  {
    if es != [] {
      StepKeeps(s, es[0]);
      RunKeepsInv(Step(s, es[0]), es[1..]);
    }
  }

  // ---------------------------------------------------------------------------
  // What every run guarantees
  // ---------------------------------------------------------------------------

  const ALL_PHASES: seq<Phase> := [EARLY_INIT, INIT, EARLY_BOOT, BOOT, COMPLETED]

  lemma {:induction false} PhasesGrow(j: nat, k: nat)
    requires j <= k <= PROGRAM_LENGTH
    ensures PhasesBefore(j) <= PhasesBefore(k)
  {
    if j < k {
      PhasesGrow(j, k - 1);
    }
  }

  lemma PhasesToBoot()
    ensures PhasesBefore(MAIN_PASS) == [EARLY_INIT, INIT, EARLY_BOOT, BOOT]
  {
    hide PhasesBefore;
    PhasesStart();
    PhasesStep(0);
    PhasesStep(1);
    PhasesStep(2);
    PhasesStep(3);
    PhasesStep(4);
    PhasesStep(5);
    PhasesStep(6);
    PhasesStep(7);
    PhasesStep(8);
    PhasesStep(9);
  }

  lemma AllPhasesInOrder()
    ensures PhasesBefore(PROGRAM_LENGTH) == ALL_PHASES
  {
    hide PhasesBefore;
    PhasesToBoot();
    PhasesStep(10);
    PhasesStep(11);
    PhasesStep(12);
    PhasesStep(13);
    PhasesStep(14);
  }

  /** In every interleaving: a service is RUNNING exactly when its pid is at least 2000; running pids
      differ and lie below the counter; no pid was ever handed out twice; at most one worker is alive;
      and the current run's phases are a prefix of the five boot phases. */
  lemma EveryRunIsSafe(es: seq<Event>)
    requires forall i :: 0 <= i < |es| ==> Possible(es[i])
    ensures var s := RunAll(Initial(), es);
            var ss := s.table.services;
            && (forall i :: 0 <= i < |ss| ==> (ss[i].status == Status.Running <==> ss[i].pid >= 2000))
            && (forall i :: 0 <= i < |ss| && ss[i].status == Status.Running ==> ss[i].pid < s.nextPid)
            && (forall i, j :: 0 <= i < j < |ss| && ss[i].pid == ss[j].pid ==> ss[i].status == Stopped)
            && (forall i, j :: 0 <= i < j < |s.history.issued| ==> s.history.issued[i] != s.history.issued[j])
            && s.history.spawned - s.history.exited <= 1
            && s.history.phases <= ALL_PHASES
            && (s.phase == IDLE || s.phase in s.history.phases)
  {
    RunKeepsInv(Initial(), es);
    var s := RunAll(Initial(), es);
    AllPhasesInOrder();
    PhasesGrow(s.history.reached, PROGRAM_LENGTH);
  }

  lemma BeforeMain()
    ensures COMPLETED !in PhasesBefore(MAIN_PASS)
  {
    hide PhasesBefore;
    PhasesToBoot();
  }

  lemma CompletedReached(s: State)
    requires ThreadsValid(s) && s.phase == COMPLETED
    ensures s.history.reached > MAIN_PASS
  {
    if s.history.reached <= MAIN_PASS {
      PhasesGrow(s.history.reached, MAIN_PASS);
      BeforeMain();
    }
  }

  predicate BootService(x: InitService) {
    ("core" in x.classes || "main" in x.classes || "animation" in x.classes) && !x.isDisabled
  }

  lemma CompletedService(s: State, i: nat)
    requires Inv(s) && s.phase == COMPLETED && i < |s.table.services|
    requires BootService(s.table.services[i]) && s.table.services[i].name !in s.history.stopped
    ensures s.table.services[i].status == Status.Running
  {
    CompletedReached(s);
    var x := s.table.services[i];
    assert "core" in ["core"] && "main" in ["main", "animation"] && "animation" in ["main", "animation"];
    assert Wanted(x, ["core"]) || Wanted(x, ["main", "animation"]);
  }

  /** In every run that shows COMPLETED, each non-disabled core, main or animation service runs unless
      it was stopped or loaded since the run began, and a disabled service runs only if it was asked for by
      name, with no stop or load since. */
  lemma CompletedMeansUp(es: seq<Event>, i: nat)
    requires forall k :: 0 <= k < |es| ==> Possible(es[k])
    requires i < |RunAll(Initial(), es).table.services|
    ensures var s := RunAll(Initial(), es);
            var x := s.table.services[i];
            && (s.phase == COMPLETED && BootService(x) && x.name !in s.history.stopped ==> x.status == Status.Running)
            && (x.status == Status.Running && x.isDisabled ==> x.name in s.history.asked)
  {
    RunKeepsInv(Initial(), es);
    var s := RunAll(Initial(), es);
    var x := s.table.services[i];
    if s.phase == COMPLETED && BootService(x) && x.name !in s.history.stopped {
      CompletedService(s, i);
    }
  }

  /** Events that neither stop a service nor replace the table. */
  predicate Undisturbing(e: Event) {
    !e.StopService? && !e.Load? && !e.CallStop?
  }

  lemma {:induction false} UndisturbedRun(s: State, es: seq<Event>)
    requires Inv(s) && s.history.stopped == {} && s.controller !in {StopJoin, StopReset}
    requires forall i :: 0 <= i < |es| ==> Undisturbing(es[i])
    ensures RunAll(s, es).history.stopped == {} && Inv(RunAll(s, es))
    decreases |es|
  {
    if es != [] {
      var e, n := es[0], Step(s, es[0]);
      StepKeeps(s, e);
      if e == WorkerStep { WorkerKeeps(s); WorkerLeavesController(s); }
      if e.StartService? { StartNamedKeeps(s, e.name); }
      UndisturbedRun(n, es[1..]);
    }
  }

  lemma WorkerLeavesController(s: State)
    ensures WorkerNext(s).controller == s.controller
  {
  }

  /** A boot that nobody stops ends with everything it should start running: from the spawn of its
      worker on, if COMPLETED is reached, every non-disabled core, main or animation service runs. */
  lemma UninterruptedBoot(s: State, es: seq<Event>, i: nat)
    requires Inv(s) && s.controller == StartSpawn
    requires forall k :: 0 <= k < |es| ==> Undisturbing(es[k])
    requires var t := RunAll(ControllerNext(s), es); t.phase == COMPLETED && i < |t.table.services|
    requires BootService(RunAll(ControllerNext(s), es).table.services[i])
    ensures RunAll(ControllerNext(s), es).table.services[i].status == Status.Running
  {
    ControllerKeeps(s);
    UndisturbedRun(ControllerNext(s), es);
    CompletedService(RunAll(ControllerNext(s), es), i);
  }

  // ---------------------------------------------------------------------------
  // Progress
  // ---------------------------------------------------------------------------

  const COMPLETED_STEP: nat := 13

  /** Worker steps an op takes: for a trigger one to collect, one a command and one to go on. */
  function Cost(op: Op, actions: seq<InitAction>): (n: nat)
    ensures n > 0
  {
    if op.Execute? then |Commands(actions, op.trigger)| + 2 else 1
  }

  /** Worker steps from op pc on until COMPLETED is shown. */
  function CostFrom(pc: nat, actions: seq<InitAction>): (n: nat)
    ensures pc <= COMPLETED_STEP ==> n > 0
    decreases COMPLETED_STEP + 1 - pc
  {
    if pc > COMPLETED_STEP then 0 else Cost(PROGRAM[pc], actions) + CostFrom(pc + 1, actions)
  }

  /** The same when op pc has already collected its commands. */
  function CostLeft(w: Worker, actions: seq<InitAction>): nat
    requires w.Alive?
  {
    if w.pc > COMPLETED_STEP then 0
    else if w.queue.Some? && PROGRAM[w.pc].Execute? then |w.queue.value| + 1 + CostFrom(w.pc + 1, actions)
    else CostFrom(w.pc, actions)
  }

  function WorkerSteps(es: seq<Event>): nat {
    if es == [] then 0 else (if es[0] == WorkerStep then 1 else 0) + WorkerSteps(es[1..])
  }

  /** A boot under way: its worker is alive before COMPLETED, and nobody has asked it to stop. */
  predicate UnderWay(s: State) {
    s.worker.Alive? && s.worker.pc <= COMPLETED_STEP && s.booting && s.controller == Free
  }

  lemma CommandsLeaveBoot(s: State, cmd: string)
    ensures var t := RunCommand(s, cmd);
            && t.worker == s.worker && t.booting == s.booting && t.controller == s.controller
            && t.table.actions == s.table.actions && t.phase == s.phase
  {
  }

  /** A worker step either shows COMPLETED or brings it one step nearer. */
  lemma WorkerAdvances(s: State)
    requires UnderWay(s)
    ensures s.worker.Alive?
    ensures var t := WorkerNext(s);
            t.table.actions == s.table.actions &&
            if s.worker.pc == COMPLETED_STEP then t.phase == COMPLETED
            else t.worker.Alive? && UnderWay(t)
                 && CostLeft(t.worker, t.table.actions) == CostLeft(s.worker, s.table.actions) - 1
  {
    hide RunCommand, Commands, CostFrom, StartPass, PROGRAM;
    var pc := s.worker.pc;
    ProgramKinds(pc);
    CostStep(pc, s.table.actions);
    if PROGRAM[pc].Execute? && s.worker.queue.Some? && s.worker.queue.value != [] {
      var cmds := s.worker.queue.value;
      CommandsLeaveBoot(s.(worker := Alive(pc, Some(cmds[1..]))), cmds[0]);
    }
    PassLeavesBoot(s, if PROGRAM[pc].StartClasses? then PROGRAM[pc].classes else []);
  }

  lemma PassLeavesBoot(s: State, classes: seq<string>)
    ensures var t := StartPass(s, classes);
            && t.worker == s.worker && t.booting == s.booting && t.controller == s.controller
            && t.table.actions == s.table.actions && t.phase == s.phase
  {
  }

  lemma CostStep(pc: nat, actions: seq<InitAction>)
    requires pc <= COMPLETED_STEP
    ensures CostFrom(pc, actions) == Cost(PROGRAM[pc], actions) + CostFrom(pc + 1, actions)
  {
  }

  lemma ProgramKinds(pc: nat)
    requires pc <= COMPLETED_STEP
    ensures |PROGRAM| == PROGRAM_LENGTH && !PROGRAM[pc].ClearBooting?
    ensures pc == COMPLETED_STEP ==> PROGRAM[pc] == SetPhase(COMPLETED)
  {
  }

  /** Events that neither stop the boot nor replace the table leave it under way, unless they are the
      worker's own. */
  predicate Unstopped(e: Event) {
    !e.CallStop? && !e.Load?
  }

  lemma OthersLeaveBoot(s: State, e: Event)
    requires UnderWay(s) && Unstopped(e) && e != WorkerStep
    ensures Step(s, e).worker.Alive? && UnderWay(Step(s, e)) && Step(s, e).worker == s.worker
    ensures Step(s, e).table.actions == s.table.actions
  {
  }

  /** With enough worker steps among events that do not stop it, a boot shows COMPLETED. */
  lemma {:induction false} BootProgresses(s: State, es: seq<Event>) returns (n: nat)
    requires UnderWay(s) && (forall i :: 0 <= i < |es| ==> Unstopped(es[i]))
    requires WorkerSteps(es) >= CostLeft(s.worker, s.table.actions)
    ensures n <= |es| && RunAll(s, es[..n]).phase == COMPLETED
    decreases |es|
  {
    StepsLeft(s, es);
    hide *;
    var t := Step(s, es[0]);
    WorkerStepIs(s);
    if es[0] == WorkerStep {
      WorkerAdvances(s);
      if t.phase == COMPLETED {
        n := 1;
        RunOneEvent(s, es[0]);
        assert es[..1] == [es[0]];
        return;
      }
    } else {
      OthersLeaveBoot(s, es[0]);
    }
    var m := BootProgresses(t, es[1..]);
    n := m + 1;
    RunMore(s, es, m);
  }

  lemma RunMore(s: State, es: seq<Event>, m: nat)
    requires es != [] && m < |es|
    ensures RunAll(s, es[..m + 1]) == RunAll(Step(s, es[0]), es[1..][..m])
  {
    hide Step, RunAll;
    assert es[..m + 1] == [es[0]] + es[1..][..m];
    RunConsEvent(s, es[0], es[1..][..m]);
  }

  /** A boot under way still has a step to take. */
  lemma StepsLeft(s: State, es: seq<Event>)
    requires UnderWay(s) && WorkerSteps(es) >= CostLeft(s.worker, s.table.actions)
    ensures s.worker.Alive? && es != []
    ensures WorkerSteps(es) == (if es[0] == WorkerStep then 1 else 0) + WorkerSteps(es[1..])
  {
    hide PROGRAM;
  }

  lemma WorkerStepIs(s: State)
    ensures Step(s, WorkerStep) == WorkerNext(s)
  {
  }

  lemma RunOneEvent(s: State, e: Event)
    ensures RunAll(s, [e]) == Step(s, e)
  {
    assert [e][1..] == [];
  }

  lemma RunConsEvent(s: State, e: Event, es: seq<Event>)
    ensures RunAll(s, [e] + es) == RunAll(Step(s, e), es)
  {
    assert ([e] + es)[1..] == es;
  }

  /** The worker steps of a whole boot: 18 and one for each command of its four triggers. */
  function BootCost(actions: seq<InitAction>): nat {
    18 + |Commands(actions, "early-init")| + |Commands(actions, "init")|
    + |Commands(actions, "early-boot")| + |Commands(actions, "boot")|
  }

  lemma BootCostIs(actions: seq<InitAction>)
    ensures CostFrom(0, actions) == BootCost(actions)
  {
    hide CostFrom, Commands;
    NothingCosts(actions);
    CostStep(0, actions);
    CostStep(1, actions);
    CostStep(2, actions);
    CostStep(3, actions);
    CostStep(4, actions);
    CostStep(5, actions);
    CostStep(6, actions);
    CostStep(7, actions);
    CostStep(8, actions);
    CostStep(9, actions);
    CostStep(10, actions);
    CostStep(11, actions);
    CostStep(12, actions);
    CostStep(13, actions);
  }

  lemma NothingCosts(actions: seq<InitAction>)
    ensures CostFrom(COMPLETED_STEP + 1, actions) == 0
  {
  }

  /** From the spawn of its worker on, a boot that nobody disturbs and whose worker takes enough steps
      reaches COMPLETED, and at that moment every non-disabled core, main or animation service runs. */
  lemma BootCompletes(s: State, es: seq<Event>) returns (n: nat)
    requires Inv(s) && s.controller == StartSpawn
    requires forall k :: 0 <= k < |es| ==> Undisturbing(es[k])
    requires WorkerSteps(es) >= BootCost(s.table.actions)
    ensures n <= |es|
    ensures var t := RunAll(ControllerNext(s), es[..n]);
            t.phase == COMPLETED
            && forall i :: 0 <= i < |t.table.services| && BootService(t.table.services[i]) ==>
                 t.table.services[i].status == Status.Running
  {
    BootCostIs(s.table.actions);
    n := BootProgresses(ControllerNext(s), es);
    hide Inv, BootService, RunAll, ControllerNext;
    var t := RunAll(ControllerNext(s), es[..n]);
    forall i | 0 <= i < |t.table.services| && BootService(t.table.services[i])
      ensures t.table.services[i].status == Status.Running
    {
      UninterruptedBoot(s, es[..n], i);
    }
  }

  /** When stopBootSequence finishes, in whatever interleaving, no worker is alive, the phase is IDLE
      and nothing runs. */
  lemma StopLeavesNothing(es: seq<Event>)
    requires forall i :: 0 <= i < |es| ==> Possible(es[i])
    requires RunAll(Initial(), es).controller == StopReset
    ensures var t := ControllerNext(RunAll(Initial(), es));
            && t.controller == Free && t.worker == NoThread && t.history.spawned == t.history.exited
            && t.phase == IDLE
            && forall i :: 0 <= i < |t.table.services| ==> t.table.services[i].status == Stopped
  {
    RunKeepsInv(Initial(), es);
  }
}
