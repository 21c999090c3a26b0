/** The boot manager object of `boot_manager.cpp`. Each method is one lock-held region or one step of a
    thread; its contract is the step of the same name in BootModel. */
module BootManager {
  import opened Bytes
  import opened Text
  import opened InitScript
  import opened Ext4Layout
  import opened Ext4Reader
  import opened InitParser
  import opened BootModel
  import opened BootProperties
  import P = PropertyService

  class BootManager {
    const parser: InitParser
    const properties: P.PropertyService
    var phase: Phase
    var isBooting: bool
    var nextPid: int
    var worker: Worker
    var controller: Controller
    ghost var history: History

    constructor (properties: P.PropertyService)
      ensures fresh(parser) && this.properties == properties && Snapshot() == Initial() && Inv(Snapshot())
    {
      parser := new InitParser();
      this.properties := properties;
      phase, isBooting, nextPid := IDLE, false, FIRST_PID;
      worker, controller := NoThread, Free;
      history := Initial().history;
    }

    ghost function Snapshot(): State
      reads this, parser
    {
      State(parser.Contents(), phase, isBooting, nextPid, worker, controller, history)
    }

    /** loadInitFromVfs: the parser clears and refills its tables under the lock. */
    method LoadInitFromVfs(reader: Ext4Reader) returns (count: nat)
      requires Inv(Snapshot()) && reader.Valid() && Loadable(reader.geometry, reader.disk)
      modifies `history, parser
      ensures FreshTable(parser.Contents()) && count == |parser.services|
      ensures Snapshot() == Step(old(Snapshot()), Load(parser.Contents())) && Inv(Snapshot())
    {
      hide Mounted, Inv, FreshTable, Loadable, Step, Names;
      count := Refill(parser, reader);
      ghost var t := parser.Contents();
      LoadKeeps(old(Snapshot()), t);
      LoadStep(old(Snapshot()), t);
      history := history.(asked := {}, stopped := history.stopped + Names(parser.services));
      assert parser.Contents() == t;
    }

    static method Refill(parser: InitParser, reader: Ext4Reader) returns (count: nat)
      requires reader.Valid() && Loadable(reader.geometry, reader.disk)
      modifies parser
      ensures FreshTable(parser.Contents()) && count == |parser.services|
    {
      hide Mounted, AddAll, ParseScripts, ParseFile, CoreServices, Consistent, AllNeverRun;
      ghost var scanned;
      count, scanned := parser.LoadFromVfs(reader);
      LoadedStopped(reader.geometry, reader.disk, scanned);
    }

    method StartService(name: string) returns (ok: bool)
      requires Inv(Snapshot())
      modifies this, parser, properties
      ensures Snapshot() == StartNamed(old(Snapshot()), name) && Inv(Snapshot())
      ensures properties.Snapshot() == AfterStart(old(Snapshot()), old(properties.Snapshot()), name)
      ensures ok <==> name in old(parser.serviceIndexMap)
    {
      StartNamedKeeps(Snapshot(), name);
      IndexAgreesWithSearch(parser.Contents(), name);
      SearchFirst(parser.services, name);
      hide Inv, Consistent, Search, P.Step, Started, SvcKey;
      var found := parser.FindService(name);
      if found == None {
        return false;
      }
      var i := found.value;
      if parser.services[i].status == Status.Running {
        return true;
      }
      parser.services := parser.services[i := Started(parser.services[i], nextPid)];
      history := history.(issued := history.issued + [nextPid], asked := history.asked + {name},
                          stopped := history.stopped - {name});
      nextPid := nextPid + 1;
      assert Snapshot() == StartNamed(old(Snapshot()), name);
      hide StartNamed;
      properties.SetProperty(SvcKey(name), "running");
      return true;
    }

    method StopService(name: string) returns (ok: bool)
      requires Inv(Snapshot())
      modifies this, parser, properties
      ensures Snapshot() == StopNamed(old(Snapshot()), name) && Inv(Snapshot())
      ensures properties.Snapshot() == AfterStop(old(Snapshot()), old(properties.Snapshot()), name)
      ensures ok <==> name in old(parser.serviceIndexMap)
    {
      StopNamedKeeps(Snapshot(), name);
      IndexAgreesWithSearch(parser.Contents(), name);
      SearchFirst(parser.services, name);
      hide Inv, Consistent, Search, P.Step, Halted, SvcKey;
      var found := parser.FindService(name);
      if found == None {
        return false;
      }
      var i := found.value;
      parser.services := parser.services[i := Halted(parser.services[i])];
      history := history.(asked := history.asked - {name}, stopped := history.stopped + {name});
      properties.SetProperty(SvcKey(name), "stopped");
      return true;
    }

    /** restartService releases the lock in between; with nothing interleaved it is a stop and a start. */
    method RestartService(name: string) returns (ok: bool)
      requires Inv(Snapshot())
      modifies this, parser, properties
      ensures Snapshot() == StartNamed(StopNamed(old(Snapshot()), name), name) && Inv(Snapshot())
      ensures properties.Snapshot()
           == AfterStart(StopNamed(old(Snapshot()), name),
                         AfterStop(old(Snapshot()), old(properties.Snapshot()), name), name)
      ensures ok <==> name in old(parser.serviceIndexMap)
    {
      var stopped := StopService(name);
      ok := StartService(name);
    }

    /** The class loop: for every service, the first of its classes that is asked for starts it. */
    method StartClassPass(classes: seq<string>)
      requires Inv(Snapshot())
      modifies `nextPid, `history, parser`services, properties
      ensures Snapshot() == StartPass(old(Snapshot()), classes) && Inv(Snapshot())
      ensures properties.Snapshot() == AfterPass(old(Snapshot()), old(properties.Snapshot()), classes)
    {
      hide Inv, StartsNow, Pids, StartAll, CountStarts, ClassUp, Announced, Noted;
      assert Inv(StartPass(Snapshot(), classes)) by { StartPassKeeps(Snapshot(), classes); }
      StartAllNone(classes, nextPid);
      ghost var ss, first, issued := parser.services, nextPid, history.issued;
      ghost var started := 0;
      PidsAppend(first, 0, 0);
      NoPids(first);
      assert ss[..0] == [] && issued + [] == issued;
      AnnouncedNone(properties.Snapshot());
      for i := 0 to |parser.services|
        invariant |parser.services| == |ss| && parser.services[i..] == ss[i..]
        invariant parser.services[..i] == StartAll(ss[..i], classes, first)
        invariant started == CountStarts(ss[..i], classes) && nextPid == first + started
        invariant history == old(history).(issued := issued + Pids(first, started))
        invariant properties.Snapshot() == Announced(old(properties.Snapshot()), ss[..i], parser.services[..i])
      {
        assert parser.services[i] == parser.services[i..][0] == ss[i..][0] && ss[..i + 1] == ss[..i] + [ss[i]];
        StartAllSnoc(ss[..i], ss[i], classes, first);
        IssueOne(issued, first, started);
        ghost var h, before := history, parser.services;
        StartOne(i, classes);
        ReplacedAt(before, parser.services, ss, i);
        AnnouncedSnoc(old(properties.Snapshot()), ss[..i], before[..i], ss[i], parser.services[i]);
        if StartsNow(ss[i], classes) {
          assert history == h.(issued := h.issued + [first + started]);
        }
        started := CountStarts(ss[..i + 1], classes);
      }
      assert ss[..|ss|] == ss && parser.services[..|ss|] == parser.services;
      PassStoreIs(old(Snapshot()), old(properties.Snapshot()), classes);
    }

    method StartOne(i: nat, classes: seq<string>)
      requires i < |parser.services|
      modifies `nextPid, `history, parser`services, properties
      ensures var s := old(parser.services)[i];
              if StartsNow(s, classes) then
                && parser.services == old(parser.services)[i := Started(s, old(nextPid))]
                && nextPid == old(nextPid) + 1
                && history == old(history).(issued := old(history).issued + [old(nextPid)])
              else parser.services == old(parser.services) && nextPid == old(nextPid) && history == old(history)
      ensures |parser.services| == |old(parser.services)|
      ensures properties.Snapshot() == Noted(old(properties.Snapshot()), old(parser.services)[i], parser.services[i])
    {
      var s := parser.services[i];
      var now := Starts(s, classes);
      if now {
        parser.services := parser.services[i := Started(s, nextPid)];
        history := history.(issued := history.issued + [nextPid]);
        nextPid := nextPid + 1;
        properties.SetProperty(SvcKey(s.name), "running");
      }
    }

    static method Starts(s: InitService, classes: seq<string>) returns (now: bool)
      ensures now == StartsNow(s, classes)
    {
      for j := 0 to |s.classes|
        invariant forall k :: 0 <= k < j ==>
                    !(s.classes[k] in classes && s.status != Status.Running && !s.isDisabled)
      {
        if s.classes[j] in classes && s.status != Status.Running && !s.isDisabled {
          return true;
        }
      }
      return false;
    }

    method CollectCommands(trigger: string) returns (commands: seq<string>)
      ensures commands == Commands(parser.actions, trigger)
    {
      commands := [];
      for i := 0 to |parser.actions|
        invariant commands + Commands(parser.actions[i..], trigger) == Commands(parser.actions, trigger)
      {
        var a := parser.actions[i];
        assert parser.actions[i..][1..] == parser.actions[i + 1..];
        if a.trigger == trigger {
          Assoc(commands, a.commands, Commands(parser.actions[i + 1..], trigger));
          commands := commands + a.commands;
        } else {
          assert [] + Commands(parser.actions[i + 1..], trigger) == Commands(parser.actions[i + 1..], trigger);
        }
      }
    }

    method ExecuteCommand(cmd: string)
      requires Inv(Snapshot())
      modifies this, parser, properties
      ensures Snapshot() == RunCommand(old(Snapshot()), cmd) && Inv(Snapshot())
      ensures properties.Snapshot() == AfterCommand(old(Snapshot()), old(properties.Snapshot()), cmd)
    {
      hide Inv, StartNamed, StartPass, AfterStart, AfterPass;
      if StartsWith(cmd, "mkdir ") {
      } else if StartsWith(cmd, "setprop ") {
        var sub := cmd[8..];
        var sp := Find(sub, ' ');
        if sp < |sub| {
          properties.SetProperty(sub[..sp], sub[sp + 1..]);
        }
      } else if StartsWith(cmd, "start ") {
        var ok := StartService(cmd[6..]);
      } else if StartsWith(cmd, "class_start ") {
        StartClassPass([cmd[12..]]);
      }
    }

    /** The boot thread up to its next lock release or atomic store. */
    method WorkerStep(socketOk: bool)
      requires Inv(Snapshot()) && worker.Alive?
      modifies this, parser, properties
      ensures Snapshot() == Step(old(Snapshot()), Event.WorkerStep) && Inv(Snapshot())
      ensures properties.Snapshot() == AfterWorker(old(Snapshot()), old(properties.Snapshot()), socketOk)
    {
      ghost var before := Snapshot();
      WorkerKeeps(before);
      var pc := worker.pc;
      assert pc < PROGRAM_LENGTH;
      hide Inv, P.Step, StartPass, RunCommand, AfterPass, AfterCommand, AfterPhase;
      match PROGRAM[pc]
      case SetPhase(p) =>
        phase := p;
        history := history.(phases := history.phases + [p]);
        EnterPhase(p, socketOk);
        Next(pc);
      case StartClasses(cs) =>
        StartClassPass(cs);
        Next(pc);
      case Execute(trigger) =>
        if worker.queue == None {
          var commands := CollectCommands(trigger);
          worker := Alive(pc, Some(commands));
        } else {
          var commands := worker.queue.value;
          if commands == [] {
            Next(pc);
          } else {
            RequeueKeeps(before, pc, Some(commands[1..]));
            SameCommandStore(before, before.(worker := Alive(pc, Some(commands[1..]))), properties.Snapshot(),
                             commands[0]);
            worker := Alive(pc, Some(commands[1..]));
            ExecuteCommand(commands[0]);
          }
        }
      case CheckBooting =>
        if isBooting {
          Next(pc);
        } else {
          Return(pc);
        }
      case ClearBooting =>
        isBooting := false;
        Return(pc + 1);
    }

    /** What the worker does to the property service when a phase begins. */
    method EnterPhase(p: Phase, socketOk: bool)
      modifies properties
      ensures properties.Snapshot() == AfterPhase(old(properties.Snapshot()), p, socketOk)
    {
      if p == INIT {
        var ok := properties.Start(socketOk);
      } else if p == COMPLETED {
        properties.SetProperty("sys.boot_completed", "1");
        properties.SetProperty("service.bootanim.exit", "1");
        properties.SetProperty("dev.bootcomplete", "1");
      }
    }

    method Next(pc: nat)
      modifies this
      ensures Snapshot() == Advance(old(Snapshot()), pc)
    {
      worker := Alive(pc + 1, None);
      history := history.(reached := pc + 1);
    }

    method Return(reached: nat)
      modifies this
      ensures Snapshot() == Leave(old(Snapshot()), reached)
    {
      worker := Exited;
      history := history.(reached := reached, exited := history.exited + 1);
    }

    /** startBootSequence up to its join; a boot in progress is left alone. */
    method CallStart()
      requires Inv(Snapshot()) && controller == Free
      modifies this
      ensures Snapshot() == Step(old(Snapshot()), Event.CallStart) && Inv(Snapshot())
    {
      StepKeeps(Snapshot(), Event.CallStart);
      if isBooting {
        return;
      }
      controller := StartJoin;
    }

    method CallStop()
      requires Inv(Snapshot()) && controller == Free
      modifies this
      ensures Snapshot() == Step(old(Snapshot()), Event.CallStop) && Inv(Snapshot())
    {
      StepKeeps(Snapshot(), Event.CallStop);
      isBooting := false;
      controller := StopJoin;
    }

    /** The rest of startBootSequence and stopBootSequence; a join waits while the worker is alive. */
    method ControllerStep()
      requires Inv(Snapshot())
      modifies this, parser, properties
      ensures Snapshot() == Step(old(Snapshot()), Event.ControllerStep) && Inv(Snapshot())
      ensures properties.Snapshot() == AfterController(old(Snapshot()), old(properties.Snapshot()))
    {
      ControllerKeeps(Snapshot());
      hide Inv, Announced;
      match controller
      case Free =>
      case StartJoin =>
        if !worker.Alive? {
          worker, controller := NoThread, StartStore;
        }
      case StartStore =>
        isBooting, controller := true, StartPhase;
      case StartPhase =>
        phase, controller := IDLE, StartSpawn;
      case StartSpawn =>
        worker, controller := Alive(0, None), Free;
        history := history.(phases := [], reached := 0, stopped := {}, spawned := history.spawned + 1);
      case StopJoin =>
        if !worker.Alive? {
          worker, controller := NoThread, StopReset;
        }
      case StopReset =>
        history := history.(asked := {}, stopped := history.stopped + Names(parser.services));
        ResetServices();
        phase, controller := IDLE, Free;
    }

    method ResetServices()
      modifies parser`services, properties
      ensures parser.services == ResetAll(old(parser.services))
      ensures properties.Snapshot()
           == Announced(old(properties.Snapshot()), old(parser.services), ResetAll(old(parser.services)))
    {
      hide Announced;
      ghost var ss, rs := parser.services, ResetAll(parser.services);
      AnnouncedNone(properties.Snapshot());
      for i := 0 to |parser.services|
        invariant |parser.services| == |ss|
        invariant forall j :: 0 <= j < |ss| ==> parser.services[j] == if j < i then rs[j] else ss[j]
        invariant properties.Snapshot() == Announced(old(properties.Snapshot()), ss[..i], rs[..i])
      {
        AnnouncedSnoc(old(properties.Snapshot()), ss[..i], rs[..i], ss[i], rs[i]);
        assert ss[..i + 1] == ss[..i] + [ss[i]] && rs[..i + 1] == rs[..i] + [rs[i]];
        ResetOne(i);
      }
      assert ss[..|ss|] == ss && rs[..|ss|] == rs;
      assert parser.services == rs;
    }

    method ResetOne(i: nat)
      requires i < |parser.services|
      modifies parser`services, properties
      ensures |parser.services| == |old(parser.services)|
      ensures forall j :: 0 <= j < |parser.services| ==>
                parser.services[j] == if j == i then ResetAll(old(parser.services))[i] else old(parser.services)[j]
      ensures properties.Snapshot()
           == Noted(old(properties.Snapshot()), old(parser.services)[i], ResetAll(old(parser.services))[i])
    {
      var s := parser.services[i];
      if s.status == Status.Running {
        parser.services := parser.services[i := Halted(s)];
        properties.SetProperty(SvcKey(s.name), "stopped");
      }
    }
  }

  lemma AnnouncedNone(store: P.Store)
    ensures Announced(store, [], []) == store
  {
  }

  lemma PassStoreIs(s: State, store: P.Store, classes: seq<string>)
    ensures |StartAll(s.table.services, classes, s.nextPid)| == |s.table.services|
    ensures AfterPass(s, store, classes)
         == Announced(store, s.table.services, StartAll(s.table.services, classes, s.nextPid))
  {
    StartAllEach(s.table.services, classes, s.nextPid);
  }

  lemma StartAllNone(classes: seq<string>, pid: int)
    ensures StartAll([], classes, pid) == [] && CountStarts([], classes) == 0
  {
  }

  /** Replacing element i keeps what stands before it and behind it. */
  lemma ReplacedAt<T>(a: seq<T>, b: seq<T>, ss: seq<T>, i: nat)
    requires i < |a| == |b| == |ss| && a[i..] == ss[i..] && b == a[i := b[i]]
    ensures b[i + 1..] == ss[i + 1..] && b[..i + 1] == a[..i] + [b[i]]
  {
    assert b[i + 1..] == a[i..][1..] && ss[i + 1..] == ss[i..][1..];
  }

  lemma IssueOne(issued: seq<int>, first: int, started: nat)
    ensures issued + Pids(first, started) + [first + started] == issued + Pids(first, started + 1)
  {
    hide Pids;
    PidsAppend(first, started, 1);
    Assoc(issued, Pids(first, started), [first + started]);
  }

  lemma LoadStep(s: State, t: Table)
    ensures Step(s, Load(t))
         == s.(table := t, history := s.history.(asked := {}, stopped := s.history.stopped + Names(t.services)))
  {
  }

  lemma NoPids(from: int)
    ensures Pids(from, 0) == []
  {
  }

  lemma {:induction false} StartAllSnoc(ss: seq<InitService>, x: InitService, classes: seq<string>, pid: int)
    ensures CountStarts(ss + [x], classes) == CountStarts(ss, classes) + if StartsNow(x, classes) then 1 else 0
    ensures StartAll(ss + [x], classes, pid)
         == StartAll(ss, classes, pid)
            + [if StartsNow(x, classes) then Started(x, pid + CountStarts(ss, classes)) else x]
  {
    if ss == [] {
      assert ss + [x] == [x] && [x][1..] == [];
    } else {
      assert (ss + [x])[0] == ss[0] && (ss + [x])[1..] == ss[1..] + [x];
      StartAllSnoc(ss[1..], x, classes, if StartsNow(ss[0], classes) then pid + 1 else pid);
    }
  }
}
