/** When the properties `init.svc.<name>` tell the truth about the services, in every interleaving of the
    boot supervisor with anything else that writes properties. */
module ServiceProperties {
  import opened Bytes
  import opened Text
  import opened InitScript
  import opened BootModel
  import opened BootProperties
  import P = PropertyService

  /** A service of that name runs. */
  predicate Runs(ss: seq<InitService>, name: string) {
    exists i :: 0 <= i < |ss| && ss[i].name == name && ss[i].status == Status.Running
  }

  predicate SaysRunning(store: P.Store, name: string) {
    SvcKey(name) in store.props && store.props[SvcKey(name)] == "running"
  }

  /** The property says "running" exactly when the service runs. */
  ghost predicate Agrees(sys: System, name: string) {
    SaysRunning(sys.store, name) <==> Runs(sys.boot.table.services, name)
  }

  lemma SvcKeyInjective(a: string, b: string)
    ensures SvcKey(a) == SvcKey(b) ==> a == b
  {
    assert SvcKey(a)[9..] == a && SvcKey(b)[9..] == b;
  }

  lemma PutSays(store: P.Store, key: string, value: string, name: string)
    ensures SaysRunning(Put(store, key, value), name)
         == if key == SvcKey(name) then value == "running" else SaysRunning(store, name)
  {
  }

  ghost predicate UniqueNames(ss: seq<InitService>) {
    forall i, j :: 0 <= i < j < |ss| ==> ss[i].name != ss[j].name
  }

  predicate SameNames(was: seq<InitService>, now: seq<InitService>) {
    |was| == |now| && forall i :: 0 <= i < |was| ==> was[i].name == now[i].name
  }

  lemma NotedSays(store: P.Store, was: InitService, now: InitService, name: string)
    requires was.name == now.name
    ensures SaysRunning(Noted(store, was, now), name)
         == if now.name == name && was.status != now.status then now.status == Status.Running
            else SaysRunning(store, name)
  {
    hide SaysRunning, Put, SvcKey;
    SvcKeyInjective(now.name, name);
    PutSays(store, SvcKey(now.name), "running", name);
    PutSays(store, SvcKey(now.name), "stopped", name);
  }

  /** After a pass the property of a name says what its service came to be, if that changed. */
  lemma {:induction false} AnnouncedSays(store: P.Store, was: seq<InitService>, now: seq<InitService>, name: string)
    requires SameNames(was, now) && UniqueNames(was)
    ensures SaysRunning(Announced(store, was, now), name)
         == if Runs(was, name) != Runs(now, name) then Runs(now, name) else SaysRunning(store, name)
    decreases |was|
  {
    hide Noted, SaysRunning;
    if was != [] {
      NotedSays(store, was[0], now[0], name);
      AnnouncedSays(Noted(store, was[0], now[0]), was[1..], now[1..], name);
      RunsFirstOrLater(was, name);
      RunsFirstOrLater(now, name);
      if was[0].name == name {
        OnlyOnce(was, now);
      }
    }
  }

  lemma RunsFirstOrLater(ss: seq<InitService>, name: string)
    requires ss != []
    ensures Runs(ss, name) <==> (ss[0].name == name && ss[0].status == Status.Running) || Runs(ss[1..], name)
  {
    if i :| 0 <= i < |ss| && ss[i].name == name && ss[i].status == Status.Running {
      if i > 0 { assert ss[1..][i - 1] == ss[i]; }
    }
    if i :| 0 <= i < |ss[1..]| && ss[1..][i].name == name && ss[1..][i].status == Status.Running {
      assert ss[i + 1] == ss[1..][i];
    }
  }

  lemma OnlyOnce(was: seq<InitService>, now: seq<InitService>)
    requires SameNames(was, now) && UniqueNames(was) && was != []
    ensures !Runs(was[1..], was[0].name) && !Runs(now[1..], was[0].name)
  {
  }

  lemma ConsistentUnique(t: Table)
    requires Consistent(t)
    ensures UniqueNames(t.services)
  {
  }

  /** A region changes its service and announces it, or leaves the name alone. */
  ghost predicate Announces(before: System, after: System, name: string) {
    var was, now := Runs(before.boot.table.services, name), Runs(after.boot.table.services, name);
    SaysRunning(after.store, name) == if was != now then now else SaysRunning(before.store, name)
  }

  /** One service replaced: only its own name can change. */
  lemma ReplacedRuns(ss: seq<InitService>, i: nat, x: InitService, name: string)
    requires UniqueNames(ss) && i < |ss| && x.name == ss[i].name
    ensures Runs(ss[i := x], name) == if name == x.name then x.status == Status.Running else Runs(ss, name)
    ensures name == x.name ==> Runs(ss, name) == (ss[i].status == Status.Running)
  {
    var rs := ss[i := x];
    assert rs[i] == x;
    if name != x.name {
      if j :| 0 <= j < |ss| && ss[j].name == name && ss[j].status == Status.Running { assert rs[j] == ss[j]; }
      if j :| 0 <= j < |rs| && rs[j].name == name && rs[j].status == Status.Running { assert rs[j] == ss[j]; }
    }
  }

  lemma StartAnnounces(s: State, store: P.Store, started: string, name: string)
    requires Consistent(s.table)
    ensures Announces(System(s, store), System(StartNamed(s, started), AfterStart(s, store, started)), name)
  {
    ConsistentUnique(s.table);
    SvcKeyInjective(started, name);
    PutSays(store, SvcKey(started), "running", name);
    if started in s.table.index {
      var i := s.table.index[started];
      ReplacedRuns(s.table.services, i, Started(s.table.services[i], s.nextPid), name);
    }
    hide SaysRunning, Runs, Put, SvcKey, UniqueNames;
  }

  /** Stopping announces "stopped" whether or not the service ran. */
  lemma StopAnnounces(s: State, store: P.Store, stopped: string, name: string)
    requires Consistent(s.table)
    ensures var t, after := StopNamed(s, stopped), AfterStop(s, store, stopped);
            if name == stopped && name in s.table.index
            then !Runs(t.table.services, name) && !SaysRunning(after, name)
            else Runs(t.table.services, name) == Runs(s.table.services, name)
                 && SaysRunning(after, name) == SaysRunning(store, name)
  {
    ConsistentUnique(s.table);
    SvcKeyInjective(stopped, name);
    PutSays(store, SvcKey(stopped), "stopped", name);
    if stopped in s.table.index {
      var i := s.table.index[stopped];
      ReplacedRuns(s.table.services, i, Halted(s.table.services[i]), name);
    }
    hide SaysRunning, Runs, Put, SvcKey, UniqueNames;
  }

  lemma PassAnnounces(s: State, store: P.Store, classes: seq<string>, name: string)
    requires Consistent(s.table)
    ensures Announces(System(s, store), System(StartPass(s, classes), AfterPass(s, store, classes)), name)
  {
    ConsistentUnique(s.table);
    StartAllEach(s.table.services, classes, s.nextPid);
    hide StartAll, CountStarts, Announced, SaysRunning, Runs;
    AnnouncedSays(store, s.table.services, StartAll(s.table.services, classes, s.nextPid), name);
  }

  lemma ResetAnnounces(s: State, store: P.Store, name: string)
    requires Consistent(s.table)
    ensures Announces(System(s, store), System(ControllerNext(s), AfterController(s, store)), name)
  {
    ConsistentUnique(s.table);
    AnnouncedSays(store, s.table.services, ResetAll(s.table.services), name);
    hide Announced, SaysRunning, Runs;
  }

  /** What the supervisor's own `setprop` commands and everyone else write for the property of a name. */
  ghost function ForeignWrite(sys: System, h: Happening, name: string): Option<string> {
    match h
    case Foreign(p) => P.Written(sys.store, p, SvcKey(name))
    case Boot(e, socketOk) =>
      if e != WorkerStep then None
      else if AtPhase(sys.boot, INIT) then P.Written(sys.store, P.Start(socketOk), SvcKey(name))
      else if !AtSetprop(sys.boot) then None
      else
        var sub := sys.boot.worker.queue.value[0][8..];
        var sp := Find(sub, ' ');
        if sp < |sub| && sub[..sp] == SvcKey(name) then Some(sub[sp + 1..]) else None
  }

  predicate AtPhase(s: State, p: Phase) {
    s.worker.Alive? && s.worker.pc < PROGRAM_LENGTH && PROGRAM[s.worker.pc] == SetPhase(p)
  }

  predicate AtSetprop(s: State) {
    && s.worker.Alive? && s.worker.pc < PROGRAM_LENGTH && PROGRAM[s.worker.pc].Execute?
    && s.worker.queue.Some? && s.worker.queue.value != [] && StartsWith(s.worker.queue.value[0], "setprop ")
  }

  ghost predicate CanHappen(h: Happening) {
    match h
    case Boot(e, _) => Possible(e)
    case Foreign(p) => P.Defined(p)
  }

  /** Any write says what it says; no write leaves the property as it is. */
  lemma StoreSays(store: P.Store, p: P.Event, name: string)
    requires P.Defined(p)
    ensures var w := P.Written(store, p, SvcKey(name));
            SaysRunning(P.Step(store, p), name) == if w.Some? then w.value == "running" else SaysRunning(store, name)
  {
    P.StepWrites(store, p, SvcKey(name));
    hide P.Step, P.Written, SvcKey;
  }

  lemma BootKeys(name: string)
    ensures SvcKey(name) != "sys.boot_completed" && SvcKey(name) != "service.bootanim.exit"
    ensures SvcKey(name) != "dev.bootcomplete"
  {
    assert SvcKey(name)[0] == 'i' && "sys.boot_completed"[0] == 's';
    assert "service.bootanim.exit"[0] == 's' && "dev.bootcomplete"[0] == 'd';
  }

  lemma CompletedSays(store: P.Store, name: string)
    ensures SaysRunning(AfterPhase(store, COMPLETED, false), name) == SaysRunning(store, name)
    ensures SaysRunning(AfterPhase(store, COMPLETED, true), name) == SaysRunning(store, name)
  {
    BootKeys(name);
    hide SaysRunning, Put, SvcKey;
    PutSays(store, "sys.boot_completed", "1", name);
    var one := Put(store, "sys.boot_completed", "1");
    PutSays(one, "service.bootanim.exit", "1", name);
    PutSays(Put(one, "service.bootanim.exit", "1"), "dev.bootcomplete", "1", name);
  }

  lemma SetpropSays(store: P.Store, sub: string, name: string)
    ensures var sp := Find(sub, ' ');
            SaysRunning(AfterSetprop(store, sub), name)
            == if sp < |sub| && sub[..sp] == SvcKey(name) then sub[sp + 1..] == "running" else SaysRunning(store, name)
  {
    hide SaysRunning, Put, SvcKey, Find;
    var sp := Find(sub, ' ');
    if sp < |sub| {
      PutSays(store, sub[..sp], sub[sp + 1..], name);
    }
  }

  /** What a step does to the property and the service of a name: announce, or take over a write. */
  lemma CommandSays(s: State, store: P.Store, cmd: string, name: string)
    requires Consistent(s.table)
    ensures if StartsWith(cmd, "setprop ") then
              RunCommand(s, cmd) == s && AfterCommand(s, store, cmd) == AfterSetprop(store, cmd[8..])
            else Announces(System(s, store), System(RunCommand(s, cmd), AfterCommand(s, store, cmd)), name)
  {
    assert StartsWith(cmd, "setprop ") ==> cmd[0] == 's' && cmd[1] == 'e';
    assert StartsWith(cmd, "mkdir ") ==> cmd[0] == 'm';
    hide Announces, StartNamed, StartPass, AfterStart, AfterPass, AfterSetprop;
    if StartsWith(cmd, "mkdir ") || StartsWith(cmd, "setprop ") {
      NothingAnnounces(s, s, store, name);
    } else if StartsWith(cmd, "start ") {
      StartAnnounces(s, store, cmd[6..], name);
    } else if StartsWith(cmd, "class_start ") {
      PassAnnounces(s, store, [cmd[12..]], name);
    } else {
      NothingAnnounces(s, s, store, name);
    }
  }

  lemma NothingAnnounces(s: State, t: State, store: P.Store, name: string)
    requires s.table.services == t.table.services
    ensures Announces(System(s, store), System(t, store), name)
  {
  }

  /** A step takes over what was written for the property, or announces what it changes. */
  ghost predicate TakesOver(before: System, after: System, write: Option<string>, name: string) {
    if write == None then Announces(before, after, name)
    else
      SaysRunning(after.store, name) == (write.value == "running")
      && Runs(after.boot.table.services, name) == Runs(before.boot.table.services, name)
  }

  lemma PhaseTakesOver(s: State, store: P.Store, socketOk: bool, name: string, p: Phase)
    requires AtPhase(s, p)
    ensures TakesOver(System(s, store), System(WorkerNext(s), AfterWorker(s, store, socketOk)),
                      ForeignWrite(System(s, store), Boot(WorkerStep, socketOk), name), name)
  {
    assert WorkerNext(s).table == s.table && AfterWorker(s, store, socketOk) == AfterPhase(store, p, socketOk);
    assert !AtSetprop(s);
    assert p != INIT ==> !AtPhase(s, INIT);
    StoreSays(store, P.Start(socketOk), name);
    CompletedSays(store, name);
    hide SaysRunning, Runs, P.Step, P.Written, Put, SvcKey, AtPhase, AtSetprop, WorkerNext, AfterWorker;
  }

  lemma ExecuteTakesOver(s: State, store: P.Store, socketOk: bool, name: string)
    requires Consistent(s.table) && s.worker.Alive? && s.worker.pc < PROGRAM_LENGTH && PROGRAM[s.worker.pc].Execute?
    ensures TakesOver(System(s, store), System(WorkerNext(s), AfterWorker(s, store, socketOk)),
                      ForeignWrite(System(s, store), Boot(WorkerStep, socketOk), name), name)
  {
    assert !AtPhase(s, INIT);
    if s.worker.queue.Some? && s.worker.queue.value != [] {
      var cmds := s.worker.queue.value;
      var popped := s.(worker := Alive(s.worker.pc, Some(cmds[1..])));
      assert WorkerNext(s) == RunCommand(popped, cmds[0]);
      SameCommandStore(s, popped, store, cmds[0]);
      CommandSays(popped, store, cmds[0], name);
      if StartsWith(cmds[0], "setprop ") {
        SetpropSays(store, cmds[0][8..], name);
      }
    } else {
      NothingAnnounces(s, WorkerNext(s), store, name);
    }
  }

  lemma WorkerTakesOver(s: State, store: P.Store, socketOk: bool, name: string)
    requires Consistent(s.table)
    ensures TakesOver(System(s, store), System(WorkerNext(s), AfterWorker(s, store, socketOk)),
                      ForeignWrite(System(s, store), Boot(WorkerStep, socketOk), name), name)
  {
    if s.worker.Alive? && s.worker.pc < PROGRAM_LENGTH && PROGRAM[s.worker.pc].SetPhase? {
      PhaseTakesOver(s, store, socketOk, name, PROGRAM[s.worker.pc].phase);
    } else if s.worker.Alive? && s.worker.pc < PROGRAM_LENGTH && PROGRAM[s.worker.pc].Execute? {
      ExecuteTakesOver(s, store, socketOk, name);
    } else {
      OtherOps(s, store, socketOk, name);
    }
  }

  lemma OtherOps(s: State, store: P.Store, socketOk: bool, name: string)
    requires Consistent(s.table)
    requires s.worker.Alive? && s.worker.pc < PROGRAM_LENGTH ==>
               !PROGRAM[s.worker.pc].SetPhase? && !PROGRAM[s.worker.pc].Execute?
    ensures TakesOver(System(s, store), System(WorkerNext(s), AfterWorker(s, store, socketOk)),
                      ForeignWrite(System(s, store), Boot(WorkerStep, socketOk), name), name)
  {
    hide SaysRunning, Runs, StartPass, AfterPass;
    assert !AtPhase(s, INIT) && !AtSetprop(s);
    if s.worker.Alive? && s.worker.pc < PROGRAM_LENGTH && PROGRAM[s.worker.pc].StartClasses? {
      PassAnnounces(s, store, PROGRAM[s.worker.pc].classes, name);
    }
  }

  /** In every interleaving with anything else that writes properties, a step leaves the property of a
      name agreeing with its service exactly when: what was written for it by others is what is true;
      or a fresh table was loaded and the property did not say "running"; or the step changed the
      service, or stopped it by name; or nothing of that happened and they agreed before. */
  lemma AgreesExactly(sys: System, h: Happening, name: string)
    requires Inv(sys.boot) && CanHappen(h)
    ensures var after, w := SysStep(sys, h), ForeignWrite(sys, h, name);
            var was, now := Runs(sys.boot.table.services, name), Runs(after.boot.table.services, name);
            Agrees(after, name)
            <==> if w.Some? then (w.value == "running") == now
                 else if h.Boot? && h.event.Load? then !SaysRunning(sys.store, name)
                 else was != now || (h.Boot? && h.event == StopService(name) && name in sys.boot.table.index)
                      || Agrees(sys, name)
  {
    assert Consistent(sys.boot.table);
    hide Inv, SaysRunning, P.Step, P.Written, WorkerNext, AfterWorker, StartNamed, AfterStart, StopNamed, AfterStop;
    match h
    case Foreign(p) => StoreSays(sys.store, p, name);
    case Boot(e, socketOk) =>
      match e {
        case WorkerStep => WorkerTakesOver(sys.boot, sys.store, socketOk, name);
        case ControllerStep => ControllerAnnounces(sys.boot, sys.store, name);
        case StartService(started) => StartAnnounces(sys.boot, sys.store, started, name);
        case StopService(stopped) => StopAnnounces(sys.boot, sys.store, stopped, name);
        case Load(t) => FreshRuns(t, name);
        case _ =>
      }
  }

  lemma FreshRuns(t: Table, name: string)
    requires FreshTable(t)
    ensures !Runs(t.services, name)
  {
  }

  lemma ControllerAnnounces(s: State, store: P.Store, name: string)
    requires Consistent(s.table)
    ensures Announces(System(s, store), System(ControllerNext(s), AfterController(s, store)), name)
  {
    if s.controller == StopReset {
      ResetAnnounces(s, store, name);
    } else {
      NothingAnnounces(s, ControllerNext(s), store, name);
    }
  }

  /** Nobody else writes the property of the name along a run, and no table is loaded while it says
      "running". */
  ghost predicate KeptClean(sys: System, hs: seq<Happening>, name: string)
    decreases |hs|
  {
    hs == [] ||
    (ForeignWrite(sys, hs[0], name) == None && !(hs[0].Boot? && hs[0].event.Load? && SaysRunning(sys.store, name))
     && KeptClean(SysStep(sys, hs[0]), hs[1..], name))
  }

  lemma {:induction false} RunAgrees(sys: System, hs: seq<Happening>, name: string)
    requires Inv(sys.boot) && Agrees(sys, name) && KeptClean(sys, hs, name)
    requires forall i :: 0 <= i < |hs| ==> CanHappen(hs[i])
    ensures Agrees(SysRun(sys, hs), name)
    decreases |hs|
  {
    hide Inv, SysStep, Agrees, ForeignWrite, SaysRunning;
    if hs != [] {
      InvStep(sys, hs[0]);
      AgreesExactly(sys, hs[0], name);
      RunAgrees(SysStep(sys, hs[0]), hs[1..], name);
    }
  }

  lemma InvStep(sys: System, h: Happening)
    requires Inv(sys.boot) && CanHappen(h)
    ensures Inv(SysStep(sys, h).boot)
  {
    hide Inv, Step;
    if h.Boot? {
      StepKeeps(sys.boot, h.event);
    }
  }

  /** Over every run from the start in which nobody else writes `init.svc.<name>` and no table is loaded
      while it says "running", it says "running" exactly while the service runs. */
  lemma PropertyFollowsService(hs: seq<Happening>, name: string)
    requires KeptClean(System(Initial(), P.Initial()), hs, name)
    requires forall i :: 0 <= i < |hs| ==> CanHappen(hs[i])
    ensures Agrees(SysRun(System(Initial(), P.Initial()), hs), name)
  {
    RunAgrees(System(Initial(), P.Initial()), hs, name);
  }

  /** The services the seeds of the property service claim to run. */
  predicate Claimed(name: string) {
    name == "servicemanager" || name == "surfaceflinger" || name == "zygote"
  }

  /** The property service the worker starts in its INIT phase claims three services to run: after it, for
      each of them, property and service agree exactly when the service already runs. */
  lemma SeedingClaims(sys: System, name: string)
    requires Inv(sys.boot) && AtPhase(sys.boot, INIT) && P.Seeds(sys.store, true)
    requires Claimed(name)
    ensures Agrees(SysStep(sys, Boot(WorkerStep, true)), name) <==> Runs(sys.boot.table.services, name)
    ensures SaysRunning(SysStep(sys, Boot(WorkerStep, true)).store, name)
  {
    var after := SysStep(sys, Boot(WorkerStep, true));
    assert after.boot.table == sys.boot.table;
    SeededKeys(name);
    StoreSays(sys.store, P.Start(true), name);
    assert P.Written(sys.store, P.Start(true), SvcKey(name)) == Some("running");
    assert after.store == P.Step(sys.store, P.Start(true));
    hide P.Step, P.Written, SaysRunning, Runs, SysStep;
  }

  lemma SeededKeys(name: string)
    requires Claimed(name)
    ensures SvcKey(name) in P.SEEDS && P.SEEDS[SvcKey(name)] == "running"
  {
    assert SvcKey("servicemanager") == "init.svc.servicemanager";
    assert SvcKey("surfaceflinger") == "init.svc.surfaceflinger";
    assert SvcKey("zygote") == "init.svc.zygote";
  }

  /** A printed `setprop` command writes exactly its key and value and touches no service. */
  lemma SetpropCommand(s: State, store: P.Store, key: string, value: string)
    requires ' ' !in key
    ensures var cmd := "setprop " + (key + " " + value);
            RunCommand(s, cmd) == s && AfterCommand(s, store, cmd) == Put(store, key, value)
  {
    var sub := key + " " + value;
    CommandsReach(s, sub);
    assert ("setprop " + sub)[8..] == sub && ("setprop " + sub)[0] == 's';
    FindUnique(sub, ' ', |key|);
    assert sub[..|key|] == key && sub[|key| + 1..] == value;
    hide Put;
  }

  /** The announcements, word for word. */
  lemma AnnouncedWords(s: State, store: P.Store, name: string, was: InitService, now: InitService, socketOk: bool)
    requires Consistent(s.table)
    ensures name in s.table.index && s.table.services[s.table.index[name]].status == Stopped ==>
              AfterStart(s, store, name).props == store.props["init.svc." + name := "running"]
    ensures name in s.table.index ==> AfterStop(s, store, name).props == store.props["init.svc." + name := "stopped"]
    ensures was.status == Stopped && now.status == Status.Running ==>
              Noted(store, was, now).props == store.props["init.svc." + now.name := "running"]
    ensures was.status == Status.Running && now.status == Stopped ==>
              Noted(store, was, now).props == store.props["init.svc." + now.name := "stopped"]
    ensures AfterPhase(store, COMPLETED, socketOk).props
         == store.props["sys.boot_completed" := "1"]["service.bootanim.exit" := "1"]["dev.bootcomplete" := "1"]
  {
    PutProps(store, SvcKey(name), "running");
    PutProps(store, SvcKey(name), "stopped");
    PutProps(store, SvcKey(now.name), "running");
    PutProps(store, SvcKey(now.name), "stopped");
    PutProps(store, "sys.boot_completed", "1");
    var one := Put(store, "sys.boot_completed", "1");
    PutProps(one, "service.bootanim.exit", "1");
    PutProps(Put(one, "service.bootanim.exit", "1"), "dev.bootcomplete", "1");
    hide Put;
  }

  lemma PutProps(store: P.Store, key: string, value: string)
    ensures Put(store, key, value).props == store.props[key := value]
  {
  }
}
