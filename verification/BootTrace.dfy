/** What a boot does, act by act: which command runs while which phase is shown, and how a boot is started
    and stopped, in every interleaving. */
module BootTrace {
  import opened Bytes
  import opened InitScript
  import opened BootModel

  /** What an observer of the worker sees: a phase shown, a class pass over the services, a command run. */
  datatype Act = Shows(phase: Phase) | Starts(classes: seq<string>) | Runs(command: string)

  function RunsAll(commands: seq<string>): seq<Act> {
    seq(|commands|, i requires 0 <= i < |commands| => Runs(commands[i]))
  }

  /** The boot in one piece: phases, class passes and the commands of the four triggers, in this order. */
  function BootScript(actions: seq<InitAction>): seq<Act> {
    ([Shows(EARLY_INIT)] + RunsAll(Commands(actions, "early-init")))
    + ([Shows(INIT), Starts(["core"])] + RunsAll(Commands(actions, "init")))
    + ([Shows(EARLY_BOOT)] + RunsAll(Commands(actions, "early-boot")))
    + ([Shows(BOOT), Starts(["main", "animation"])] + RunsAll(Commands(actions, "boot")))
    + [Shows(COMPLETED)]
  }

  /** An action with any other trigger has no part in a boot. */
  lemma OtherTriggers(a: seq<InitAction>, x: InitAction, b: seq<InitAction>)
    requires x.trigger !in ["early-init", "init", "early-boot", "boot"]
    ensures BootScript(a + [x] + b) == BootScript(a + b)
  {
    hide Commands;
    WithoutAction(a, x, b, "early-init");
    WithoutAction(a, x, b, "init");
    WithoutAction(a, x, b, "early-boot");
    WithoutAction(a, x, b, "boot");
  }

  lemma WithoutAction(a: seq<InitAction>, x: InitAction, b: seq<InitAction>, trigger: string)
    requires x.trigger != trigger
    ensures Commands(a + [x] + b, trigger) == Commands(a + b, trigger)
  {
    CommandsJoin(a + [x], b, trigger);
    CommandsJoin(a, [x], trigger);
    CommandsJoin(a, b, trigger);
    CommandsOfOne(x, trigger);
    hide Commands;
    assert Commands(a, trigger) + [] == Commands(a, trigger);
  }

  /** The commands of an "on boot" action run, in order, after BOOT is shown and before COMPLETED. */
  lemma BootActionRuns(a: seq<InitAction>, commands: seq<string>, b: seq<InitAction>)
    returns (before: seq<Act>, after: seq<Act>)
    ensures BootScript(a + [InitAction("boot", commands)] + b) == before + RunsAll(commands) + after
    ensures Shows(BOOT) in before && Shows(COMPLETED) !in before && Shows(COMPLETED) in after && Shows(BOOT) !in after
  {
    hide Commands;
    var actions, x := a + [InitAction("boot", commands)] + b, InitAction("boot", commands);
    CommandsJoin(a + [x], b, "boot");
    CommandsJoin(a, [x], "boot");
    CommandsOfOne(x, "boot");
    RunsJoin(Commands(a, "boot") + commands, Commands(b, "boot"));
    RunsJoin(Commands(a, "boot"), commands);
    before := ([Shows(EARLY_INIT)] + RunsAll(Commands(actions, "early-init")))
              + ([Shows(INIT), Starts(["core"])] + RunsAll(Commands(actions, "init")))
              + ([Shows(EARLY_BOOT)] + RunsAll(Commands(actions, "early-boot")))
              + ([Shows(BOOT), Starts(["main", "animation"])] + RunsAll(Commands(a, "boot")));
    after := RunsAll(Commands(b, "boot")) + [Shows(COMPLETED)];
    assert Shows(BOOT) in [Shows(BOOT), Starts(["main", "animation"])];
  }

  lemma RunsJoin(a: seq<string>, b: seq<string>)
    ensures RunsAll(a + b) == RunsAll(a) + RunsAll(b)
  {
  }

  // ---------------------------------------------------------------------------
  // What the worker does
  // ---------------------------------------------------------------------------

  /** The act of the worker's next step, if it is one. */
  function ActOf(s: State): seq<Act> {
    match s.worker
    case Alive(pc, queue) =>
      if pc >= PROGRAM_LENGTH then []
      else (match PROGRAM[pc]
            case SetPhase(p) => [Shows(p)]
            case StartClasses(cs) => [Starts(cs)]
            case Execute(_) => if queue.Some? && queue.value != [] then [Runs(queue.value[0])] else []
            case _ => [])
    case _ => []
  }

  predicate SameTable(s: State, t: State) {
    s.table == t.table && s.nextPid == t.nextPid
  }

  /** An act is what its name says, and a worker step without one touches no phase and no service. */
  lemma ActsMean(s: State)
    ensures |ActOf(s)| <= 1
    ensures var t := WorkerNext(s);
            if ActOf(s) == [] then t.phase == s.phase && SameTable(t, s)
            else match ActOf(s)[0]
              case Shows(p) => t.phase == p && SameTable(t, s)
              case Starts(cs) => t.phase == s.phase && SameTable(t, StartPass(s, cs))
              case Runs(c) => t.phase == s.phase && SameTable(t, RunCommand(s, c))
  {
    if s.worker.Alive? && s.worker.pc < PROGRAM_LENGTH && PROGRAM[s.worker.pc].Execute?
       && s.worker.queue.Some? && s.worker.queue.value != [] {
      var cmds := s.worker.queue.value;
      CommandLocal(s, s.(worker := Alive(s.worker.pc, Some(cmds[1..]))), cmds[0]);
    }
    hide StartPass, RunCommand, PROGRAM, Commands;
  }

  /** A command looks at table and pid counter only. */
  lemma CommandLocal(s: State, t: State, cmd: string)
    requires s.table == t.table && s.nextPid == t.nextPid && s.phase == t.phase
    ensures SameTable(RunCommand(s, cmd), RunCommand(t, cmd))
    ensures RunCommand(t, cmd).phase == t.phase
  {
  }

  /** The acts of a run. */
  function Trace(s: State, es: seq<Event>): seq<Act>
    decreases |es|
  {
    if es == [] then [] else (if es[0] == WorkerStep then ActOf(s) else []) + Trace(Step(s, es[0]), es[1..])
  }

  lemma {:induction false} TraceJoins(s: State, a: seq<Event>, b: seq<Event>)
    ensures Trace(s, a + b) == Trace(s, a) + Trace(RunAll(s, a), b)
    decreases |a|
  {
    hide Step, ActOf;
    if a == [] {
      assert a + b == b;
    } else {
      assert (a + b)[0] == a[0] && (a + b)[1..] == a[1..] + b;
      TraceJoins(Step(s, a[0]), a[1..], b);
      Assoc(if a[0] == WorkerStep then ActOf(s) else [], Trace(Step(s, a[0]), a[1..]), Trace(RunAll(s, a), b));
    }
  }

  function OpActs(op: Op, actions: seq<InitAction>): seq<Act> {
    match op
    case SetPhase(p) => [Shows(p)]
    case StartClasses(cs) => [Starts(cs)]
    case Execute(trigger) => RunsAll(Commands(actions, trigger))
    case _ => []
  }

  /** The acts of the program from op pc until COMPLETED is shown. */
  function ActsFrom(pc: nat, actions: seq<InitAction>): seq<Act>
    decreases COMPLETED_STEP + 1 - pc
  {
    if pc > COMPLETED_STEP then [] else OpActs(PROGRAM[pc], actions) + ActsFrom(pc + 1, actions)
  }

  /** The same when op pc has already collected its commands. */
  function ActsLeft(w: Worker, actions: seq<InitAction>): seq<Act>
    requires w.Alive?
  {
    if w.pc <= COMPLETED_STEP && w.queue.Some? && PROGRAM[w.pc].Execute?
    then RunsAll(w.queue.value) + ActsFrom(w.pc + 1, actions)
    else ActsFrom(w.pc, actions)
  }

  lemma ActsStep(pc: nat, actions: seq<InitAction>)
    requires pc <= COMPLETED_STEP
    ensures ActsFrom(pc, actions) == OpActs(PROGRAM[pc], actions) + ActsFrom(pc + 1, actions)
    ensures pc == COMPLETED_STEP ==> ActsFrom(pc + 1, actions) == []
  {
  }

  lemma QueueActs(cmds: seq<string>)
    ensures cmds == [] ==> RunsAll(cmds) == []
    ensures cmds != [] ==> RunsAll(cmds) == [Runs(cmds[0])] + RunsAll(cmds[1..])
  {
  }

  /** Where a worker step leads, op by op. */
  lemma NextIs(s: State)
    requires s.worker.Alive? && s.worker.pc < PROGRAM_LENGTH
    ensures var pc, t, act := s.worker.pc, WorkerNext(s), ActOf(s);
            && t.table.actions == s.table.actions
            && match PROGRAM[pc]
               case SetPhase(p) => act == [Shows(p)] && t.worker == Alive(pc + 1, None)
               case StartClasses(cs) => act == [Starts(cs)] && t.worker == Alive(pc + 1, None)
               case Execute(trigger) =>
                 if s.worker.queue == None then
                   act == [] && t.worker == Alive(pc, Some(Commands(s.table.actions, trigger)))
                 else if s.worker.queue.value == [] then act == [] && t.worker == Alive(pc + 1, None)
                 else act == [Runs(s.worker.queue.value[0])] && t.worker == Alive(pc, Some(s.worker.queue.value[1..]))
               case CheckBooting => act == [] && t.worker == if s.booting then Alive(pc + 1, None) else Exited
               case ClearBooting => act == [] && t.worker == Exited
    ensures var t := WorkerNext(s);
            t.controller == s.controller && t.booting == (s.booting && !PROGRAM[s.worker.pc].ClearBooting?)
  {
    assert |PROGRAM| == PROGRAM_LENGTH;
    hide RunCommand, Commands, StartPass, PROGRAM;
    var pc := s.worker.pc;
    match PROGRAM[pc]
    case Execute(_) =>
      if s.worker.queue.Some? && s.worker.queue.value != [] {
        var cmds := s.worker.queue.value;
        CommandsLeaveBoot(s.(worker := Alive(pc, Some(cmds[1..]))), cmds[0]);
      }
    case StartClasses(cs) => PassLeavesBoot(s, cs);
    case _ =>
  }

  /** A worker step takes the next act off those that are left. */
  lemma WorkerActs(s: State)
    requires UnderWay(s)
    ensures s.worker.Alive?
    ensures var left, t := ActsLeft(s.worker, s.table.actions), WorkerNext(s);
            if s.worker.pc == COMPLETED_STEP then left == ActOf(s)
            else t.worker.Alive? && left == ActOf(s) + ActsLeft(t.worker, t.table.actions)
  {
    var pc, actions := s.worker.pc, s.table.actions;
    assert COMPLETED_STEP + 1 < PROGRAM_LENGTH == |PROGRAM|;
    NextInProgram(s);
    hide *;
    ProgramKinds(pc);
    ActsStep(pc, actions);
    NextIs(s);
    LeftIs(s.worker, actions);
    LeftIs(WorkerNext(s).worker, actions);
    LeftInOp(s.worker.queue, PROGRAM[pc], actions, ActsFrom(pc + 1, actions));
  }

  /** A boot under way does not end at a check. */
  lemma NextInProgram(s: State)
    requires UnderWay(s)
    ensures s.worker.Alive? && s.worker.pc <= COMPLETED_STEP && s.booting
  {
  }

  /** What is left of an op, before its next step and behind it. */
  lemma LeftInOp(queue: Option<seq<string>>, op: Op, actions: seq<InitAction>, tail: seq<Act>)
    ensures op.SetPhase? ==> OpActs(op, actions) + tail == [Shows(op.phase)] + tail
    ensures op.StartClasses? ==> OpActs(op, actions) + tail == [Starts(op.classes)] + tail
    ensures op.Execute? ==> OpActs(op, actions) + tail == [] + (RunsAll(Commands(actions, op.trigger)) + tail)
    ensures op.CheckBooting? || op.ClearBooting? ==> OpActs(op, actions) + tail == [] + tail
    ensures queue.Some? ==>
              RunsAll(queue.value) + tail
              == if queue.value == [] then [] + tail else [Runs(queue.value[0])] + (RunsAll(queue.value[1..]) + tail)
    ensures [] + tail == tail && tail + [] == tail
    ensures op.SetPhase? && tail == [] ==> [Shows(op.phase)] + tail == [Shows(op.phase)]
  {
    hide Commands;
    if queue.Some? {
      QueueLeft(queue.value, tail);
    }
    hide RunsAll;
  }

  lemma LeftIs(w: Worker, actions: seq<InitAction>)
    requires w.Alive? ==> w.pc <= COMPLETED_STEP + 1
    ensures w.Alive? && (w.pc == COMPLETED_STEP + 1 || w.queue == None || !PROGRAM[w.pc].Execute?) ==>
              ActsLeft(w, actions) == ActsFrom(w.pc, actions)
    ensures w.Alive? && w.pc <= COMPLETED_STEP && w.queue.Some? && PROGRAM[w.pc].Execute? ==>
              ActsLeft(w, actions) == RunsAll(w.queue.value) + ActsFrom(w.pc + 1, actions)
  {
    assert |PROGRAM| == PROGRAM_LENGTH;
    hide PROGRAM, ActsFrom, RunsAll;
  }

  lemma FirstEvent(s: State, es: seq<Event>, m: nat)
    requires es != [] && m < |es|
    ensures Trace(s, es[..m + 1])
         == (if es[0] == WorkerStep then ActOf(s) else []) + Trace(Step(s, es[0]), es[1..][..m])
  {
    hide Step, ActOf;
    assert es[..m + 1][0] == es[0] && es[..m + 1][1..] == es[1..][..m];
  }

  /** The first event ends the boot, or takes an act off those left, or leaves them. */
  lemma BootStep(s: State, es: seq<Event>)
    requires UnderWay(s) && (forall i :: 0 <= i < |es| ==> Unstopped(es[i]))
    requires WorkerSteps(es) >= CostLeft(s.worker, s.table.actions)
    ensures es != [] && s.worker.Alive?
    ensures var t, first, left := Step(s, es[0]), if es[0] == WorkerStep then ActOf(s) else [],
                                  ActsLeft(s.worker, s.table.actions);
            if es[0] == WorkerStep && s.worker.pc == COMPLETED_STEP then t.phase == COMPLETED && left == first + []
            else t.worker.Alive? && UnderWay(t) && left == first + ActsLeft(t.worker, t.table.actions)
                 && WorkerSteps(es[1..]) >= CostLeft(t.worker, t.table.actions)
  {
    hide *;
    StepsLeft(s, es);
    WorkerStepIs(s);
    if es[0] == WorkerStep {
      WorkerAdvances(s);
      WorkerActs(s);
      assert ActOf(s) + [] == ActOf(s);
    } else {
      OthersLeaveBoot(s, es[0]);
      assert [] + ActsLeft(s.worker, s.table.actions) == ActsLeft(s.worker, s.table.actions);
    }
  }

  /** Over any events that do not stop it, a boot under way performs exactly the acts it has left, and then
      COMPLETED is shown. */
  lemma {:induction false} BootPerforms(s: State, es: seq<Event>) returns (n: nat)
    requires UnderWay(s) && (forall i :: 0 <= i < |es| ==> Unstopped(es[i]))
    requires WorkerSteps(es) >= CostLeft(s.worker, s.table.actions)
    ensures n <= |es| && RunAll(s, es[..n]).phase == COMPLETED
    ensures s.worker.Alive? && Trace(s, es[..n]) == ActsLeft(s.worker, s.table.actions)
    decreases |es|
  {
    BootStep(s, es);
    NothingTraced(Step(s, es[0]));
    hide *;
    if es[0] == WorkerStep && s.worker.pc == COMPLETED_STEP {
      n := 1;
      RunOneEvent(s, es[0]);
      FirstEvent(s, es, 0);
      assert es[..1] == [es[0]] && es[1..][..0] == [];
    } else {
      var m := BootPerforms(Step(s, es[0]), es[1..]);
      n := m + 1;
      RunMore(s, es, m);
      FirstEvent(s, es, m);
    }
  }

  lemma NothingTraced(s: State)
    ensures Trace(s, []) == []
  {
  }

  lemma BootScriptIs(actions: seq<InitAction>)
    ensures ActsFrom(0, actions) == BootScript(actions)
  {
    EarlyActs(actions);
    LateActs(actions);
    hide ActsFrom, Commands, RunsAll;
    var p1 := [Shows(EARLY_INIT)] + RunsAll(Commands(actions, "early-init"));
    var p2 := [Shows(INIT), Starts(["core"])] + RunsAll(Commands(actions, "init"));
    var p3 := [Shows(EARLY_BOOT)] + RunsAll(Commands(actions, "early-boot"));
    var p4 := [Shows(BOOT), Starts(["main", "animation"])] + RunsAll(Commands(actions, "boot"));
    Assoc(p3, p4, [Shows(COMPLETED)]);
    Assoc(p2, p3 + p4, [Shows(COMPLETED)]);
    Assoc(p1, p2 + p3 + p4, [Shows(COMPLETED)]);
    Assoc(p2, p3, p4);
    Assoc(p1, p2, p3);
    Assoc(p1, p2 + p3, p4);
  }

  lemma EarlyActs(actions: seq<InitAction>)
    ensures ActsFrom(0, actions)
         == [Shows(EARLY_INIT)] + RunsAll(Commands(actions, "early-init")) + ActsFrom(3, actions)
    ensures ActsFrom(3, actions)
         == [Shows(INIT), Starts(["core"])] + RunsAll(Commands(actions, "init")) + ActsFrom(7, actions)
  {
    hide ActsFrom, Commands, RunsAll;
    ActsStep(0, actions);
    ActsStep(1, actions);
    ActsStep(2, actions);
    ActsStep(3, actions);
    ActsStep(4, actions);
    ActsStep(5, actions);
    ActsStep(6, actions);
  }

  lemma LateActs(actions: seq<InitAction>)
    ensures ActsFrom(7, actions)
         == [Shows(EARLY_BOOT)] + RunsAll(Commands(actions, "early-boot")) + ActsFrom(9, actions)
    ensures ActsFrom(9, actions)
         == [Shows(BOOT), Starts(["main", "animation"])] + RunsAll(Commands(actions, "boot")) + [Shows(COMPLETED)]
  {
    hide ActsFrom, Commands, RunsAll;
    ActsStep(7, actions);
    ActsStep(8, actions);
    ActsStep(9, actions);
    ActsStep(10, actions);
    ActsStep(11, actions);
    ActsStep(12, actions);
    ActsStep(13, actions);
  }

  /** From the spawn of its worker on, a boot that is not stopped performs exactly the boot script of the
      loaded actions, whatever else goes on, and at its end COMPLETED is shown. */
  lemma BootFollowsScript(s: State, es: seq<Event>) returns (n: nat)
    requires Inv(s) && s.controller == StartSpawn
    requires forall k :: 0 <= k < |es| ==> Unstopped(es[k])
    requires WorkerSteps(es) >= BootCost(s.table.actions)
    ensures n <= |es| && RunAll(ControllerNext(s), es[..n]).phase == COMPLETED
    ensures Trace(ControllerNext(s), es[..n]) == BootScript(s.table.actions)
  {
    BootCostIs(s.table.actions);
    BootScriptIs(s.table.actions);
    hide CostFrom, ActsFrom, BootScript, BootCost, RunAll, Trace;
    n := BootPerforms(ControllerNext(s), es);
  }

  // ---------------------------------------------------------------------------
  // Starting
  // ---------------------------------------------------------------------------

  function ControllerSteps(es: seq<Event>): nat {
    if es == [] then 0 else (if es[0] == ControllerStep then 1 else 0) + ControllerSteps(es[1..])
  }

  /** Controller steps until the worker is there. */
  function ToSpawn(c: Controller): nat {
    match c case StartJoin => 4 case StartStore => 3 case StartPhase => 2 case StartSpawn => 1 case _ => 0
  }

  /** startBootSequence between its call and its return. */
  predicate Starting(s: State) {
    ToSpawn(s.controller) > 0 && !s.worker.Alive?
  }

  lemma StartingStep(s: State, e: Event)
    requires Inv(s) && Possible(e) && Starting(s)
    ensures var t := Step(s, e);
            if e == ControllerStep && s.controller == StartSpawn
            then t.worker == Alive(0, None) && t.controller == Free && t.booting && t.phase == IDLE
            else Starting(t) && ToSpawn(t.controller) == ToSpawn(s.controller) - if e == ControllerStep then 1 else 0
  {
  }

  /** A call of startBootSequence leads, whatever goes on beside it, to a new worker at the start of its
      program, with the flag set and phase IDLE shown: after four controller steps. */
  lemma {:induction false} StartSpawns(s: State, es: seq<Event>) returns (n: nat)
    requires Inv(s) && Starting(s) && (forall i :: 0 <= i < |es| ==> Possible(es[i]))
    requires ControllerSteps(es) >= ToSpawn(s.controller)
    ensures n <= |es|
    ensures var t := RunAll(s, es[..n]);
            t.worker == Alive(0, None) && t.controller == Free && t.booting && t.phase == IDLE
    decreases |es|
  {
    hide Inv, Step, RunAll, Possible;
    StartingStep(s, es[0]);
    if es[0] == ControllerStep && s.controller == StartSpawn {
      n := 1;
      RunOneEvent(s, es[0]);
      assert es[..1] == [es[0]];
    } else {
      StepKeeps(s, es[0]);
      var m := StartSpawns(Step(s, es[0]), es[1..]);
      n := m + 1;
      RunMore(s, es, m);
    }
  }

  /** The call itself: it is taken up exactly when no boot is in progress. */
  lemma CallStartStarts(s: State)
    requires Inv(s) && s.controller == Free
    ensures var t := Step(s, CallStart);
            if s.booting then t == s else Starting(t) && t == s.(controller := StartJoin) && ToSpawn(t.controller) == 4
  {
  }

  // ---------------------------------------------------------------------------
  // Stopping
  // ---------------------------------------------------------------------------

  /** The acts until the worker next looks at the flag, and the worker steps until it has left. */
  function ActsToCheck(pc: nat, actions: seq<InitAction>): seq<Act>
    decreases PROGRAM_LENGTH - pc
  {
    if pc >= PROGRAM_LENGTH || PROGRAM[pc].CheckBooting? || PROGRAM[pc].ClearBooting? then []
    else OpActs(PROGRAM[pc], actions) + ActsToCheck(pc + 1, actions)
  }

  function CostToCheck(pc: nat, actions: seq<InitAction>): nat
    decreases PROGRAM_LENGTH - pc
  {
    if pc >= PROGRAM_LENGTH then 0
    else if PROGRAM[pc].CheckBooting? || PROGRAM[pc].ClearBooting? then 1
    else Cost(PROGRAM[pc], actions) + CostToCheck(pc + 1, actions)
  }

  function ActsLeftToCheck(w: Worker, actions: seq<InitAction>): seq<Act>
    requires w.Alive?
  {
    if w.pc < PROGRAM_LENGTH && w.queue.Some? && PROGRAM[w.pc].Execute?
    then RunsAll(w.queue.value) + ActsToCheck(w.pc + 1, actions)
    else ActsToCheck(w.pc, actions)
  }

  function CostLeftToCheck(w: Worker, actions: seq<InitAction>): nat
    requires w.Alive?
  {
    if w.pc < PROGRAM_LENGTH && w.queue.Some? && PROGRAM[w.pc].Execute?
    then |w.queue.value| + 1 + CostToCheck(w.pc + 1, actions)
    else CostToCheck(w.pc, actions)
  }

  /** A stop waits for the worker, whose flag is cleared. */
  predicate Stopping(s: State) {
    s.worker.Alive? && s.worker.pc < PROGRAM_LENGTH && !s.booting && s.controller == StopJoin
  }

  lemma ToCheckStep(pc: nat, actions: seq<InitAction>)
    requires pc < PROGRAM_LENGTH
    ensures PROGRAM[pc].CheckBooting? || PROGRAM[pc].ClearBooting? ==>
              ActsToCheck(pc, actions) == [] && CostToCheck(pc, actions) == 1
    ensures !PROGRAM[pc].CheckBooting? && !PROGRAM[pc].ClearBooting? ==>
              && pc + 1 < PROGRAM_LENGTH
              && ActsToCheck(pc, actions) == OpActs(PROGRAM[pc], actions) + ActsToCheck(pc + 1, actions)
              && CostToCheck(pc, actions) == Cost(PROGRAM[pc], actions) + CostToCheck(pc + 1, actions)
  {
  }

  /** A worker step of a stopping boot leaves at a check, and takes the next act elsewhere. */
  lemma StoppingStep(s: State)
    requires Stopping(s)
    ensures s.worker.Alive? && CostLeftToCheck(s.worker, s.table.actions) > 0
    ensures var left, cost, t := ActsLeftToCheck(s.worker, s.table.actions), CostLeftToCheck(s.worker, s.table.actions),
                                 WorkerNext(s);
            if PROGRAM[s.worker.pc].CheckBooting? || PROGRAM[s.worker.pc].ClearBooting?
            then left == [] == ActOf(s) && t.worker == Exited && t.controller == StopJoin && !t.booting
            else t.worker.Alive? && Stopping(t) && t.table.actions == s.table.actions
                 && left == ActOf(s) + ActsLeftToCheck(t.worker, t.table.actions)
                 && CostLeftToCheck(t.worker, t.table.actions) == cost - 1
  {
    assert |PROGRAM| == PROGRAM_LENGTH;
    StoppingMeans(s);
    hide WorkerNext, ActOf, ActsLeftToCheck, CostLeftToCheck, PROGRAM, Stopping;
    if PROGRAM[s.worker.pc].CheckBooting? || PROGRAM[s.worker.pc].ClearBooting? {
      ToCheckStep(s.worker.pc, s.table.actions);
      NextIs(s);
      ToCheckIs(s.worker, s.table.actions);
    } else {
      StoppingNext(s);
      match PROGRAM[s.worker.pc]
      case Execute(_) => if s.worker.queue == None { CollectStep(s); } else { QueueStep(s); }
      case _ => PlainStep(s);
    }
  }

  lemma StoppingNext(s: State)
    requires Stopping(s) && s.worker.Alive? && s.worker.pc < PROGRAM_LENGTH
    requires !PROGRAM[s.worker.pc].CheckBooting? && !PROGRAM[s.worker.pc].ClearBooting?
    ensures var pc, t := s.worker.pc, WorkerNext(s);
            Stopping(t) && pc + 1 < PROGRAM_LENGTH && t.table.actions == s.table.actions
  {
    assert |PROGRAM| == PROGRAM_LENGTH;
    StoppingMeans(s);
    StoppingMeans(WorkerNext(s));
    hide *;
    ToCheckStep(s.worker.pc, s.table.actions);
    NextIs(s);
  }

  /** A step takes the worker's act off those left and costs one: within a queue, at its start, elsewhere. */
  lemma QueueStep(s: State)
    requires s.worker.Alive? && s.worker.pc + 1 < PROGRAM_LENGTH
    requires PROGRAM[s.worker.pc].Execute? && s.worker.queue.Some?
    ensures var t, actions := WorkerNext(s), s.table.actions;
            && t.worker.Alive?
            && CostLeftToCheck(s.worker, actions) == CostLeftToCheck(t.worker, actions) + 1
            && ActsLeftToCheck(s.worker, actions) == ActOf(s) + ActsLeftToCheck(t.worker, actions)
  {
    var pc, actions := s.worker.pc, s.table.actions;
    assert |PROGRAM| == PROGRAM_LENGTH;
    hide *;
    NextIs(s);
    ToCheckIs(s.worker, actions);
    ToCheckIs(WorkerNext(s).worker, actions);
    var left := ActsToCheck(pc + 1, actions);
    QueueLeft(s.worker.queue.value, left);
    if s.worker.queue.value == [] {
      assert ActsLeftToCheck(WorkerNext(s).worker, actions) == left;
    } else {
      assert ActsLeftToCheck(WorkerNext(s).worker, actions) == RunsAll(s.worker.queue.value[1..]) + left;
    }
  }

  lemma QueueLeft(cmds: seq<string>, tail: seq<Act>)
    ensures RunsAll(cmds) + tail
         == if cmds == [] then [] + tail else [Runs(cmds[0])] + (RunsAll(cmds[1..]) + tail)
  {
    QueueActs(cmds);
    if cmds != [] {
      Assoc([Runs(cmds[0])], RunsAll(cmds[1..]), tail);
    }
    hide RunsAll;
  }

  lemma CollectStep(s: State)
    requires s.worker.Alive? && s.worker.pc + 1 < PROGRAM_LENGTH
    requires PROGRAM[s.worker.pc].Execute? && s.worker.queue == None
    ensures var t, actions := WorkerNext(s), s.table.actions;
            && t.worker.Alive?
            && CostLeftToCheck(s.worker, actions) == CostLeftToCheck(t.worker, actions) + 1
            && ActsLeftToCheck(s.worker, actions) == ActOf(s) + ActsLeftToCheck(t.worker, actions)
  {
    var pc, actions := s.worker.pc, s.table.actions;
    assert |PROGRAM| == PROGRAM_LENGTH;
    hide *;
    NextIs(s);
    ToCheckIs(s.worker, actions);
    ToCheckIs(WorkerNext(s).worker, actions);
    ToCheckStep(pc, actions);
    CostOfOp(PROGRAM[pc], actions);
    LeftInOp(None, PROGRAM[pc], actions, ActsToCheck(pc + 1, actions));
  }

  lemma PlainStep(s: State)
    requires s.worker.Alive? && s.worker.pc + 1 < PROGRAM_LENGTH
    requires PROGRAM[s.worker.pc].SetPhase? || PROGRAM[s.worker.pc].StartClasses?
    ensures var t, actions := WorkerNext(s), s.table.actions;
            && t.worker.Alive?
            && CostLeftToCheck(s.worker, actions) == CostLeftToCheck(t.worker, actions) + 1
            && ActsLeftToCheck(s.worker, actions) == ActOf(s) + ActsLeftToCheck(t.worker, actions)
  {
    var pc, actions := s.worker.pc, s.table.actions;
    assert |PROGRAM| == PROGRAM_LENGTH;
    hide *;
    NextIs(s);
    ToCheckIs(s.worker, actions);
    ToCheckIs(WorkerNext(s).worker, actions);
    ToCheckStep(pc, actions);
    CostOfOp(PROGRAM[pc], actions);
    LeftInOp(None, PROGRAM[pc], actions, ActsToCheck(pc + 1, actions));
  }

  lemma CostOfOp(op: Op, actions: seq<InitAction>)
    ensures Cost(op, actions) == if op.Execute? then |Commands(actions, op.trigger)| + 2 else 1
  {
  }

  lemma StoppingMeans(s: State)
    ensures Stopping(s) <==> s.worker.Alive? && s.worker.pc < PROGRAM_LENGTH && !s.booting && s.controller == StopJoin
  {
  }

  lemma ToCheckIs(w: Worker, actions: seq<InitAction>)
    requires w.Alive? ==> w.pc < PROGRAM_LENGTH
    ensures w.Alive? && (w.queue == None || !PROGRAM[w.pc].Execute?) ==>
              && ActsLeftToCheck(w, actions) == ActsToCheck(w.pc, actions)
              && CostLeftToCheck(w, actions) == CostToCheck(w.pc, actions)
    ensures w.Alive? && w.queue.Some? && PROGRAM[w.pc].Execute? ==>
              && ActsLeftToCheck(w, actions) == RunsAll(w.queue.value) + ActsToCheck(w.pc + 1, actions)
              && CostLeftToCheck(w, actions) == |w.queue.value| + 1 + CostToCheck(w.pc + 1, actions)
  {
    assert |PROGRAM| == PROGRAM_LENGTH;
    hide PROGRAM, ActsToCheck, CostToCheck, RunsAll;
  }

  lemma OthersWait(s: State, e: Event)
    requires Stopping(s) && !e.Load? && e != WorkerStep
    ensures Stopping(Step(s, e)) && Step(s, e).worker == s.worker && Step(s, e).table.actions == s.table.actions
  {
  }

  lemma StoppingLeft(s: State, es: seq<Event>)
    requires Stopping(s) && s.worker.Alive? && WorkerSteps(es) >= CostLeftToCheck(s.worker, s.table.actions)
    ensures es != [] && WorkerSteps(es) == (if es[0] == WorkerStep then 1 else 0) + WorkerSteps(es[1..])
  {
    StoppingStep(s);
    hide CostLeftToCheck, WorkerNext, ActsLeftToCheck;
  }

  /** A worker whose flag is cleared finishes the acts before its next check and leaves there, whatever
      else goes on: no phase beyond the check is shown and no command beyond it runs. The stop goes on. */
  lemma {:induction false} StoppedWorkerLeaves(s: State, es: seq<Event>) returns (n: nat)
    requires Stopping(s) && s.worker.Alive? && (forall i :: 0 <= i < |es| ==> !es[i].Load?)
    requires WorkerSteps(es) >= CostLeftToCheck(s.worker, s.table.actions)
    ensures n <= |es|
    ensures var t := RunAll(s, es[..n]); t.worker == Exited && t.controller == StopJoin && !t.booting
    ensures Trace(s, es[..n]) == ActsLeftToCheck(s.worker, s.table.actions)
    decreases |es|
  {
    StoppingLeft(s, es);
    StoppingStep(s);
    var t, first := Step(s, es[0]), if es[0] == WorkerStep then ActOf(s) else [];
    NothingTraced(t);
    WorkerStepIs(s);
    hide *;
    if es[0] == WorkerStep {
      if PROGRAM[s.worker.pc].CheckBooting? || PROGRAM[s.worker.pc].ClearBooting? {
        n := 1;
        RunOneEvent(s, es[0]);
        FirstEvent(s, es, 0);
        assert es[..1] == [es[0]] && es[1..][..0] == [] && first + [] == first;
        return;
      }
    } else {
      OthersWait(s, es[0]);
      assert [] + ActsLeftToCheck(s.worker, s.table.actions) == ActsLeftToCheck(s.worker, s.table.actions);
    }
    var m := StoppedWorkerLeaves(t, es[1..]);
    n := m + 1;
    RunMore(s, es, m);
    FirstEvent(s, es, m);
  }

  /** The call clears the flag; while a worker is there it then waits, and two controller steps after the
      worker left nothing runs and phase IDLE is shown. */
  lemma CallStopStops(s: State)
    requires Inv(s) && s.controller == Free
    ensures var t := Step(s, CallStop);
            && t == s.(booting := false, controller := StopJoin)
            && (s.worker.Alive? ==> Stopping(t))
            && (!s.worker.Alive? ==>
                  var u := ControllerNext(ControllerNext(t));
                  && u.controller == Free && u.worker == NoThread && u.phase == IDLE && !u.booting
                  && forall i :: 0 <= i < |u.table.services| ==>
                       u.table.services[i].status == Stopped && u.table.services[i].pid == -1)
  {
  }

  lemma LeftThenStops(s: State)
    requires Inv(s) && s.controller == StopJoin && !s.worker.Alive? && !s.booting
    ensures var u := ControllerNext(ControllerNext(s));
            && u.controller == Free && u.worker == NoThread && u.phase == IDLE && !u.booting
            && forall i :: 0 <= i < |u.table.services| ==>
                 u.table.services[i].status == Stopped && u.table.services[i].pid == -1
  {
  }

  /** Behind COMPLETED the worker clears the flag and leaves: the next start is taken up again. */
  lemma BootEnds(s: State)
    requires s.worker.Alive? && s.worker.pc == COMPLETED_STEP && s.controller == Free
    ensures var t := WorkerNext(WorkerNext(s));
            && t.phase == COMPLETED && t.worker == Exited && !t.booting && t.table == s.table
            && Step(t, CallStart).controller == StartJoin
  {
    assert PROGRAM[13] == SetPhase(COMPLETED) && PROGRAM[14] == ClearBooting;
  }
}
