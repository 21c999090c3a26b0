/** The boot supervisor together with the property store it writes to: every status change is announced
    as `init.svc.<name>` inside the same lock-held region. */
module BootProperties {
  import opened Bytes
  import opened Text
  import opened InitScript
  import opened BootModel
  import P = PropertyService

  function SvcKey(name: string): string {
    "init.svc." + name
  }

  ghost function Put(store: P.Store, key: string, value: string): P.Store {
    P.Step(store, P.SetProperty(key, value))
  }

  // ---------------------------------------------------------------------------
  // What each region does to the store
  // ---------------------------------------------------------------------------

  /** A service that came up or went down is announced. */
  ghost function Noted(store: P.Store, was: InitService, now: InitService): P.Store {
    if was.status != Status.Running && now.status == Status.Running then Put(store, SvcKey(now.name), "running")
    else if was.status == Status.Running && now.status != Status.Running then Put(store, SvcKey(now.name), "stopped")
    else store
  }

  /** A pass over the table announces its changes in table order. */
  ghost function Announced(store: P.Store, was: seq<InitService>, now: seq<InitService>): P.Store
    requires |was| == |now|
    decreases |was|
  {
    if was == [] then store else Announced(Noted(store, was[0], now[0]), was[1..], now[1..])
  }

  ghost function AfterStart(s: State, store: P.Store, name: string): P.Store {
    if name in s.table.index && s.table.index[name] < |s.table.services|
       && s.table.services[s.table.index[name]].status != Status.Running
    then Put(store, SvcKey(name), "running")
    else store
  }

  ghost function AfterStop(s: State, store: P.Store, name: string): P.Store {
    if name in s.table.index && s.table.index[name] < |s.table.services| then Put(store, SvcKey(name), "stopped")
    else store
  }

  ghost function AfterPass(s: State, store: P.Store, classes: seq<string>): P.Store {
    StartAllEach(s.table.services, classes, s.nextPid);
    Announced(store, s.table.services, StartAll(s.table.services, classes, s.nextPid))
  }

  /** "setprop k v" splits at the first blank; without one it does nothing. */
  ghost function AfterSetprop(store: P.Store, sub: string): P.Store {
    var sp := Find(sub, ' ');
    if sp < |sub| then Put(store, sub[..sp], sub[sp + 1..]) else store
  }

  ghost function AfterCommand(s: State, store: P.Store, cmd: string): P.Store {
    if StartsWith(cmd, "mkdir ") then store
    else if StartsWith(cmd, "setprop ") then AfterSetprop(store, cmd[8..])
    else if StartsWith(cmd, "start ") then AfterStart(s, store, cmd[6..])
    else if StartsWith(cmd, "class_start ") then AfterPass(s, store, [cmd[12..]])
    else store
  }

  /** In the INIT phase the worker starts the property service; at the end it announces the boot. */
  ghost function AfterPhase(store: P.Store, p: Phase, socketOk: bool): P.Store {
    match p
    case INIT => P.Step(store, P.Start(socketOk))
    case COMPLETED =>
      Put(Put(Put(store, "sys.boot_completed", "1"), "service.bootanim.exit", "1"), "dev.bootcomplete", "1")
    case _ => store
  }

  ghost function AfterWorker(s: State, store: P.Store, socketOk: bool): P.Store {
    match s.worker
    case Alive(pc, queue) =>
      if pc >= PROGRAM_LENGTH then store
      else (match PROGRAM[pc]
            case SetPhase(p) => AfterPhase(store, p, socketOk)
            case StartClasses(cs) => AfterPass(s, store, cs)
            case Execute(_) =>
              if queue.Some? && queue.value != [] then AfterCommand(s, store, queue.value[0]) else store
            case _ => store)
    case _ => store
  }

  ghost function AfterController(s: State, store: P.Store): P.Store {
    if s.controller == StopReset then Announced(store, s.table.services, ResetAll(s.table.services)) else store
  }

  datatype System = System(boot: State, store: P.Store)

  /** A step of the boot supervisor, or anything else that happens to the property service. */
  datatype Happening = Boot(event: Event, socketOk: bool) | Foreign(p: P.Event)

  ghost function SysStep(sys: System, h: Happening): System {
    match h
    case Boot(e, socketOk) =>
      System(Step(sys.boot, e),
             match e
             case WorkerStep => AfterWorker(sys.boot, sys.store, socketOk)
             case ControllerStep => AfterController(sys.boot, sys.store)
             case StartService(name) => AfterStart(sys.boot, sys.store, name)
             case StopService(name) => AfterStop(sys.boot, sys.store, name)
             case _ => sys.store)
    case Foreign(p) => sys.(store := P.Step(sys.store, p))
  }

  ghost function SysRun(sys: System, hs: seq<Happening>): System
    decreases |hs|
  {
    if hs == [] then sys else SysRun(SysStep(sys, hs[0]), hs[1..])
  }

  lemma {:induction false} AnnouncedSnoc(store: P.Store, was: seq<InitService>, now: seq<InitService>,
                                         x: InitService, y: InitService)
    requires |was| == |now|
    ensures Announced(store, was + [x], now + [y]) == Noted(Announced(store, was, now), x, y)
    decreases |was|
  {
    hide Noted;
    if was == [] {
      assert was + [x] == [x] && now + [y] == [y] && [x][1..] == [] && [y][1..] == [];
    } else {
      assert (was + [x])[1..] == was[1..] + [x] && (now + [y])[1..] == now[1..] + [y];
      AnnouncedSnoc(Noted(store, was[0], now[0]), was[1..], now[1..], x, y);
    }
  }

  lemma SameCommandStore(s: State, t: State, store: P.Store, cmd: string)
    requires s.table == t.table && s.nextPid == t.nextPid
    ensures AfterCommand(s, store, cmd) == AfterCommand(t, store, cmd)
  {
  }
}
