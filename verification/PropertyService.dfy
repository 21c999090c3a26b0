/** The property service of property_service.cpp with its text file, and the reader that hook_engine.cpp
    puts behind `__system_property_get`. Calls are taken one at a time. */
module PropertyService {
  import opened Bytes
  import opened Text
  import opened PropertyFile
  import opened PropertyWire

  const PROP_VALUE_MAX: nat := 91

  // ---------------------------------------------------------------------------
  // What each call does to the store
  // ---------------------------------------------------------------------------

  /** `file` is what the service has written; `pathSet` says it knows where to write. */
  datatype Store = Store(props: map<string, string>, pathSet: bool, file: Option<string>, running: bool)

  ghost function Flushed(s: Store): Store {
    if s.pathSet then s.(file := Some(Print(s.props))) else s
  }

  ghost function WithProperty(s: Store, k: string, v: string): Store {
    Flushed(s.(props := s.props[k := v]))
  }

  const SEEDS: map<string, string> := map[
    "ro.debuggable" := "1", "ro.secure" := "0", "ro.boot.mode" := "normal", "sys.boot_completed" := "1",
    "service.bootanim.exit" := "1", "init.svc.servicemanager" := "running",
    "init.svc.surfaceflinger" := "running", "init.svc.zygote" := "running", "ro.build.type" := "userdebug",
    "persist.sys.timezone" := "UTC", "vold.decrypt" := "trigger_restart_framework"]

  const DEFAULTS: map<string, string> := map[
    "ro.debuggable" := "1", "ro.secure" := "0", "ro.boot.mode" := "normal", "sys.boot_completed" := "1",
    "service.bootanim.exit" := "1", "init.svc.servicemanager" := "running",
    "init.svc.surfaceflinger" := "running", "init.svc.zygote" := "running"]

  function Seeded(props: map<string, string>): map<string, string> {
    if "ro.debuggable" in props then props else props + SEEDS
  }

  /** One build.prop line: trimmed, not a comment, split at the first '='. */
  function WithLine(props: map<string, string>, line: string): map<string, string> {
    var trimmed := Trim(line);
    var eq := Find(trimmed, '=');
    if trimmed == "" || trimmed[0] == '#' || eq == |trimmed| || Trim(trimmed[..eq]) == "" then props
    else props[Trim(trimmed[..eq]) := Trim(trimmed[eq + 1..])]
  }

  function WithLines(props: map<string, string>, lines: seq<string>): map<string, string>
    decreases |lines|
  {
    if lines == [] then props else WithLines(WithLine(props, lines[0]), lines[1..])
  }

  /** A "key=value" line, indented or not, with any blanks at its end, defines key. */
  lemma BuildPropLine(props: map<string, string>, pad: string, k: string, v: string, end: string)
    requires k != "" && Trimmed(k) && Free(k, '=') && k[0] != '#' && Trimmed(v) && AllBlank(pad) && AllBlank(end)
    ensures WithLine(props, pad + (k + ['='] + v) + end) == props[k := v]
  {
    hide Trim, Find;
    TrimPadded(pad, k + ['='] + v, end);
    TrimmedIsTrim(k);
    TrimmedIsTrim(v);
    CutsAt(k, '=', v);
    LineCut(props, pad + (k + ['='] + v) + end, k + ['='] + v);
  }

  /** What a line does once the blanks around it are gone. */
  lemma LineCut(props: map<string, string>, line: string, s: string)
    requires Trim(line) == s && s != "" && s[0] != '#'
    ensures var eq := Find(s, '=');
            eq < |s| && Trim(s[..eq]) != "" ==> WithLine(props, line) == props[Trim(s[..eq]) := Trim(s[eq + 1..])]
  {
    hide Trim, Find;
  }

  /** Comments, lines without '=' and lines with nothing in front of it define nothing. */
  lemma OtherLines(props: map<string, string>, pad: string, rest: string)
    requires AllBlank(pad)
    ensures WithLine(props, pad + (['#'] + rest)) == props == WithLine(props, pad + (['='] + rest))
    ensures '=' !in rest ==> WithLine(props, rest) == props
  {
    TrimStart(pad, ['#'] + rest);
    TrimStart(pad, ['='] + rest);
    TrimmedIsTrim("");
    hide Trim;
    var eq := Trim(pad + (['='] + rest));
    FindUnique(eq, '=', 0);
    assert eq[..0] == "";
    if '=' !in rest {
      TrimWithin(rest, '=');
      FindUnique(Trim(rest), '=', |Trim(rest)|);
    }
  }

  datatype Event =
    | Start(socketOk: bool) | Stop
    | SetProperty(key: string, value: string)
    | LoadFromBuildProp(text: string)
    | Client(message: seq<octet>)

  /** What the source defines the effect of: a message that is not read past its buffer. */
  predicate Defined(e: Event) {
    e.Client? ==> !LengthsWrap(Received(e.message))
  }

  predicate AllDefined(es: seq<Event>) {
    forall i :: 0 <= i < |es| ==> Defined(es[i])
  }

  ghost function Step(s: Store, e: Event): Store {
    match e
    case Start(socketOk) =>
      if s.running then s
      else if !socketOk then s.(pathSet := true)
      else Flushed(s.(pathSet := true, props := Seeded(s.props))).(running := true)
    case Stop => s.(running := false)
    case SetProperty(k, v) => WithProperty(s, k, v)
    case LoadFromBuildProp(text) => Flushed(s.(props := DEFAULTS + WithLines(s.props, Split(text, '\n'))))
    case Client(m) =>
      (match Decode(Received(m))
       case Set(k, v) => WithProperty(s, k, v)
       case _ => s)
  }

  ghost function RunAll(s: Store, es: seq<Event>): Store
    decreases |es|
  {
    if es == [] then s else RunAll(Step(s, es[0]), es[1..])
  }

  function Initial(): Store {
    Store(map[], false, None, false)
  }

  // ---------------------------------------------------------------------------
  // File and map agree
  // ---------------------------------------------------------------------------

  /** Whatever the service has written is the print of the map it holds now. */
  ghost predicate Coherent(s: Store) {
    s.file.Some? ==> s.pathSet && s.file.value == Print(s.props)
  }

  lemma StepCoherent(s: Store, e: Event)
    requires Coherent(s) && Defined(e)
    ensures Coherent(Step(s, e))
  {
  }

  lemma {:induction false} RunCoherent(s: Store, es: seq<Event>)
    requires Coherent(s) && AllDefined(es)
    ensures Coherent(RunAll(s, es))
    decreases |es|
  {
    if es != [] {
      StepCoherent(s, es[0]);
      RunCoherent(Step(s, es[0]), es[1..]);
    }
  }

  /** The properties all fit the file format. */
  predicate AllSurvive(props: map<string, string>) {
    forall k :: k in props ==> Survives(k, props[k])
  }

  function Truncated(v: string): string {
    if |v| <= PROP_VALUE_MAX then v else v[..PROP_VALUE_MAX]
  }

  /** After any sequence of starts, stops, sets, build.prop loads and client messages, a reader of the
      file finds exactly the properties of the map, provided they fit the format; and if one does not,
      the reader's map differs. */
  lemma ReaderSeesStore(es: seq<Event>)
    requires AllDefined(es) && RunAll(Initial(), es).file.Some?
    ensures var s := RunAll(Initial(), es); Load(s.file.value) == s.props <==> AllSurvive(s.props)
  {
    RunCoherent(Initial(), es);
    RoundTrips(RunAll(Initial(), es).props);
  }

  /** The value the last of the lines that defines k gives it. */
  function LineValue(lines: seq<string>, k: string): Option<string>
    decreases |lines|
  {
    if lines == [] then None
    else if LineValue(lines[1..], k).Some? then LineValue(lines[1..], k)
    else if k in WithLine(map[], lines[0]) then Some(WithLine(map[], lines[0])[k])
    else None
  }

  /** The seeding of a start takes place. */
  predicate Seeds(s: Store, socketOk: bool) {
    !s.running && socketOk && "ro.debuggable" !in s.props
  }

  /** The value an event writes for k, None when it leaves k alone. */
  function Written(s: Store, e: Event, k: string): Option<string> {
    match e
    case Start(socketOk) => if Seeds(s, socketOk) && k in SEEDS then Some(SEEDS[k]) else None
    case Stop => None
    case SetProperty(x, v) => if x == k then Some(v) else None
    case LoadFromBuildProp(text) =>
      if LineValue(Split(text, '\n'), k).Some? then LineValue(Split(text, '\n'), k)
      else if k in DEFAULTS && k !in s.props then Some(DEFAULTS[k])
      else None
    case Client(m) => (match Decode(Received(m)) case Set(x, v) => if x == k then Some(v) else None case _ => None)
  }

  lemma WithLineOnly(props: map<string, string>, line: string, k: string)
    ensures var one := WithLine(map[], line);
            if k in one then k in WithLine(props, line) && WithLine(props, line)[k] == one[k]
            else (k in WithLine(props, line) <==> k in props) && (k in props ==> WithLine(props, line)[k] == props[k])
  {
    hide Trim;
  }

  lemma {:induction false} LinesWrite(props: map<string, string>, lines: seq<string>, k: string)
    ensures var w, r := LineValue(lines, k), WithLines(props, lines);
            if w.Some? then k in r && r[k] == w.value
            else (k in r <==> k in props) && (k in props ==> r[k] == props[k])
    decreases |lines|
  {
    hide WithLine;
    if lines != [] {
      WithLineOnly(props, lines[0], k);
      LinesWrite(WithLine(props, lines[0]), lines[1..], k);
    }
  }

  /** An event gives k the value it writes, and keeps k as it is when it writes none. */
  lemma StepWrites(s: Store, e: Event, k: string)
    requires Defined(e)
    ensures var w, t := Written(s, e, k), Step(s, e);
            if w.Some? then k in t.props && t.props[k] == w.value
            else (k in t.props <==> k in s.props) && (k in s.props ==> t.props[k] == s.props[k])
  {
    hide Decode, Received, WithLines, LineValue, Split, Print;
    if e.LoadFromBuildProp? {
      LinesWrite(s.props, Split(e.text, '\n'), k);
    }
  }

  /** No event of the run writes k. */
  ghost predicate LeftAlone(s: Store, es: seq<Event>, k: string)
    decreases |es|
  {
    es == [] || (Written(s, es[0], k) == None && LeftAlone(Step(s, es[0]), es[1..], k))
  }

  lemma {:induction false} RunLeavesAlone(s: Store, es: seq<Event>, k: string)
    requires AllDefined(es) && LeftAlone(s, es, k)
    ensures var t := RunAll(s, es); (k in t.props <==> k in s.props) && (k in s.props ==> t.props[k] == s.props[k])
    decreases |es|
  {
    hide Written, Step;
    if es != [] {
      StepWrites(s, es[0], k);
      RunLeavesAlone(Step(s, es[0]), es[1..], k);
    }
  }

  lemma {:induction false} RunAppend(s: Store, a: seq<Event>, b: seq<Event>)
    ensures RunAll(s, a + b) == RunAll(RunAll(s, a), b)
    decreases |a|
  {
    hide Step;
    if a == [] {
      assert a + b == b;
    } else {
      assert (a + b)[0] == a[0] && (a + b)[1..] == a[1..] + b;
      RunAppend(Step(s, a[0]), a[1..], b);
    }
  }

  lemma DefinedParts(before: seq<Event>, e: Event, after: seq<Event>)
    requires AllDefined(before + ([e] + after))
    ensures Defined(e) && AllDefined(after)
  {
    hide Defined;
    var all := before + ([e] + after);
    assert all[|before|] == e;
    forall i | 0 <= i < |after| ensures Defined(after[i]) {
      assert after[i] == all[|before| + 1 + i];
    }
  }

  /** Over any run, the hooked getter returns the value last written for k, cut to 91 characters: after
      any events, one that writes v for k, and any events that leave k alone. The other properties need
      not fit the file format as long as they are clean and end within one line buffer. */
  lemma LastSetWins(before: seq<Event>, e: Event, after: seq<Event>, k: string, v: string)
    requires AllDefined(before + ([e] + after)) && Written(RunAll(Initial(), before), e, k) == Some(v)
    requires LeftAlone(Step(RunAll(Initial(), before), e), after, k)
    requires var t := RunAll(Initial(), before + ([e] + after));
             t.file.Some? && AllClean(t.props) && Survives(k, v)
    ensures Getter(RunAll(Initial(), before + ([e] + after)).file.value, k) == Some(if |v| <= 91 then v else v[..91])
  {
    var s := RunAll(Initial(), before);
    var t := RunAll(Initial(), before + ([e] + after));
    RunAppend(Initial(), before, [e] + after);
    assert ([e] + after)[0] == e && ([e] + after)[1..] == after;
    assert t == RunAll(Step(s, e), after);
    DefinedParts(before, e, after);
    hide Written, Step, RunAll, LeftAlone, Defined, AllDefined;
    StepWrites(s, e, k);
    RunLeavesAlone(Step(s, e), after, k);
    RunCoherent(Initial(), before + ([e] + after));
    GetterReads(t.props, k);
  }

  /** In particular right after a property is set through the service, directly or by a client message of
      any format, once the service knows where to write. */
  lemma GetAfterSet(es: seq<Event>, e: Event, k: string, v: string)
    requires e == SetProperty(k, v) || (e.Client? && Decode(Received(e.message)) == Set(k, v))
    requires var s := Step(RunAll(Initial(), es), e); s.pathSet && AllSurvive(s.props)
    ensures var s := Step(RunAll(Initial(), es), e);
            s.file.Some? && Getter(s.file.value, k) == Some(if |v| <= 91 then v else v[..91])
  {
    var s := Step(RunAll(Initial(), es), e);
    hide RunAll, Print, Getter;
    SurvivingIsClean(s.props);
    GetterReads(s.props, k);
  }

  /** Of a printed map the getter reads every property that survives the format. */
  lemma GetterReads(m: map<string, string>, k: string)
    requires AllClean(m) && k in m && Survives(k, m[k])
    ensures Getter(Print(m), k) == Some(if |m[k]| <= 91 then m[k] else m[k][..91])
  {
    PrintedLoads(m);
  }

  /** A property that was set stays set through a start exactly when the start does not seed it with
      another value: seeding overwrites it if "ro.debuggable" is still missing. */
  lemma StartKeepsExactly(s: Store, socketOk: bool, k: string)
    requires k in s.props
    ensures k in Step(s, Start(socketOk)).props
    ensures Step(s, Start(socketOk)).props[k] == s.props[k]
       <==> !(Seeds(s, socketOk) && k in SEEDS && SEEDS[k] != s.props[k])
  {
    StepWrites(s, Start(socketOk), k);
    hide Step;
  }

  /** Set before the first start, "sys.boot_completed" reads back as "1" whatever was set. */
  lemma SeedingOverwrites(v: string)
    ensures var t := RunAll(Initial(), [SetProperty("sys.boot_completed", v), Start(true)]);
            && t.file == Some(Print(SEEDS)) && t.props == SEEDS
            && Getter(t.file.value, "sys.boot_completed") == Some("1")
  {
    hide Print, Survives, Getter;
    FirstStart("sys.boot_completed", v);
    SeedsSurvive();
    GetterReads(SEEDS, "sys.boot_completed");
    assert SEEDS["sys.boot_completed"] == "1" == Truncated("1");
  }

  lemma FirstStart(k: string, v: string)
    requires k in SEEDS && k != "ro.debuggable"
    ensures var t := RunAll(Initial(), [SetProperty(k, v), Start(true)]);
            t.file == Some(Print(SEEDS)) && t.props == SEEDS
  {
    hide Print;
    var es := [SetProperty(k, v), Start(true)];
    var s := Step(Initial(), es[0]);
    assert es[1..] == [Start(true)] && [Start(true)][1..] == [];
    assert "ro.debuggable" !in s.props;
    assert s.props + SEEDS == SEEDS;
  }

  lemma SurvivingIsClean(m: map<string, string>)
    requires AllSurvive(m)
    ensures AllClean(m)
  {
  }

  lemma SeedsSurvive()
    ensures AllSurvive(SEEDS) && AllClean(SEEDS)
  {
    hide Survives;
    SystemSeeds();
    BootSeeds();
    ServiceSeeds();
    OtherSeeds();
    SurvivingIsClean(SEEDS);
  }

  lemma SystemSeeds()
    ensures Survives("ro.debuggable", "1") && Survives("ro.secure", "0") && Survives("ro.build.type", "userdebug")
  {
  }

  lemma BootSeeds()
    ensures Survives("ro.boot.mode", "normal") && Survives("sys.boot_completed", "1")
    ensures Survives("service.bootanim.exit", "1")
  {
  }

  lemma ServiceSeeds()
    ensures Survives("init.svc.servicemanager", "running") && Survives("init.svc.surfaceflinger", "running")
    ensures Survives("init.svc.zygote", "running")
  {
  }

  lemma OtherSeeds()
    ensures Survives("persist.sys.timezone", "UTC") && Survives("vold.decrypt", "trigger_restart_framework")
  {
  }

  /** What a property lookup finds in a file. */
  function Getter(file: string, name: string): Option<string> {
    if name in Load(file) then Some(Truncated(Load(file)[name])) else None
  }

  // ---------------------------------------------------------------------------
  // The service object
  // ---------------------------------------------------------------------------

  class PropertyService {
    var properties: map<string, string>
    var pathSet: bool
    var file: Option<string>
    var isRunning: bool

    constructor ()
      ensures Snapshot() == Initial()
    {
      properties, pathSet, file, isRunning := map[], false, None, false;
    }

    function Snapshot(): Store
      reads this
    {
      Store(properties, pathSet, file, isRunning)
    }

    /** Sorts the keys and writes the file, if there is a path to write to. */
    method FlushPropertiesToFile()
      modifies `file
      ensures Snapshot() == Flushed(old(Snapshot()))
    {
      if !pathSet {
        return;
      }
      var sorted := SortKeys(properties.Keys);
      ListsUnique(sorted, SortedKeys(properties.Keys), properties.Keys);
      var content := "";
      assert sorted[0..] == sorted;
      for i := 0 to |sorted|
        invariant content + PrintKeys(properties, sorted[i..]) == Print(properties)
      {
        var k := sorted[i];
        assert sorted[i..][1..] == sorted[i + 1..];
        Assoc(content, Line(k, properties[k]), PrintKeys(properties, sorted[i + 1..]));
        content := content + Line(k, properties[k]);
      }
      assert content + "" == content;
      file := Some(content);
    }

    static method SortKeys(keys: set<string>) returns (sorted: seq<string>)
      ensures Lists(sorted, keys)
    {
      sorted := [];
      var remaining := keys;
      while remaining != {}
        invariant remaining <= keys && Lists(sorted, keys - remaining)
        decreases remaining
      {
        var k :| k in remaining;
        InsertSorts(sorted, keys - remaining, k);
        remaining := remaining - {k};
        assert keys - remaining == keys - (remaining + {k}) + {k};
        sorted := Insert(sorted, k);
      }
      assert keys - {} == keys;
    }

    method SetProperty(key: string, value: string)
      modifies `properties, `file
      ensures Snapshot() == Step(old(Snapshot()), Event.SetProperty(key, value))
    {
      properties := properties[key := value];
      FlushPropertiesToFile();
    }

    /** While the file is the print of the map, the service and the hooked getter agree on every property
        that fits the file format, and on every one that is not there. */
    method GetProperty(key: string, defaultValue: string) returns (value: string)
      ensures key in properties ==> value == properties[key]
      ensures key !in properties ==> value == defaultValue
      ensures Coherent(Snapshot()) && file.Some? && AllClean(properties) && key in properties && Survives(key, value)
              ==> Getter(file.value, key) == Some(if |value| <= 91 then value else value[..91])
      ensures Coherent(Snapshot()) && file.Some? && AllClean(properties) && key !in properties
              ==> Getter(file.value, key) == None
    {
      value := if key in properties then properties[key] else defaultValue;
      if AllClean(properties) {
        hide Print, Load, AllClean;
        PrintedLoads(properties);
      }
    }

    method Start(socketOk: bool) returns (ok: bool)
      modifies this
      ensures Snapshot() == Step(old(Snapshot()), Event.Start(socketOk))
      ensures ok <==> old(isRunning) || socketOk
    {
      if isRunning {
        return true;
      }
      pathSet := true;
      if !socketOk {
        return false;
      }
      if "ro.debuggable" !in properties {
        properties := properties + SEEDS;
      }
      FlushPropertiesToFile();
      isRunning := true;
      return true;
    }

    method Stop()
      modifies `isRunning
      ensures Snapshot() == Step(old(Snapshot()), Event.Stop)
    {
      isRunning := false;
    }

    method LoadFromBuildProp(text: string)
      modifies `properties, `file
      ensures Snapshot() == Step(old(Snapshot()), Event.LoadFromBuildProp(text))
    {
      properties := ReadLines(properties, text);
      // every default that is not there yet
      properties := DEFAULTS + properties;
      FlushPropertiesToFile();
    }

    static method ReadLines(props: map<string, string>, text: string) returns (read: map<string, string>)
      ensures read == WithLines(props, Split(text, '\n'))
    {
      hide WithLine, WithLines, Split;
      read := props;
      var rest := text;
      while rest != ""
        invariant WithLines(read, Split(rest, '\n')) == WithLines(props, Split(text, '\n'))
        decreases |rest|
      {
        var k := Find(rest, '\n');
        SplitStep(rest, '\n');
        SplitEmpty<char>('\n');
        var line := rest[..k];
        rest := if k < |rest| then rest[k + 1..] else "";
        LinesCons(read, line, Split(rest, '\n'));
        read := WithLine(read, line);
      }
      SplitEmpty<char>('\n');
      LinesNone(read);
    }

    /** One client message; the reply is the value asked for, or the bare acknowledgement. */
    method HandleClient(message: seq<octet>) returns (reply: Option<string>)
      requires !LengthsWrap(Received(message))
      modifies `properties, `file
      ensures Snapshot() == Step(old(Snapshot()), Client(message))
      ensures reply == match Decode(Received(message))
                       case Get(k) => Some((if k in old(properties) then old(properties)[k] else "") + "\n")
                       case _ => None
    {
      reply := None;
      OutOfBoundsExactly(Received(message));
      match Decode(Received(message))
      case Set(k, v) => SetProperty(k, v);
      case Get(k) =>
        var value := GetProperty(k, "");
        reply := Some(value + "\n");
      case _ =>
    }
  }

  lemma LinesNone(props: map<string, string>)
    ensures WithLines(props, []) == props
  {
  }

  lemma LinesCons(props: map<string, string>, line: string, lines: seq<string>)
    ensures WithLines(props, [line] + lines) == WithLines(WithLine(props, line), lines)
  {
    assert ([line] + lines)[1..] == lines;
  }

  // ---------------------------------------------------------------------------
  // The reader, on a line buffer of C characters
  // ---------------------------------------------------------------------------

  /** strlen from an offset; the buffer holds a terminator behind it. */
  method StrLen(line: array<char>, from: nat, ghost end: nat) returns (n: nat)
    requires from <= end < line.Length && line[end] == NUL
    ensures n == |CString(line[from..])| && from + n <= end
  {
    n := 0;
    while line[from + n] != NUL
      invariant from + n <= end
      invariant forall j :: from <= j < from + n ==> line[j] != NUL
      decreases end - n
    {
      n := n + 1;
    }
    FindUnique(line[from..], NUL, n);
  }

  /** strchr from an offset: the position relative to it, or the string's length. */
  method StrChr(line: array<char>, from: nat, c: char, ghost end: nat) returns (k: nat, found: bool)
    requires from <= end < line.Length && line[end] == NUL && c != NUL
    ensures k == Find(CString(line[from..]), c) && (found <==> k < |CString(line[from..])|)
    ensures from + k <= end && (found ==> line[from + k] == c)
  {
    var n := StrLen(line, from, end);
    ghost var s := CString(line[from..]);
    k := 0;
    while k < n && line[from + k] != c
      invariant k <= n
      invariant forall j :: 0 <= j < k ==> s[j] != c
    {
      assert s[k] == line[from + k];
      k := k + 1;
    }
    FindUnique(s, c, k);
    found := k < n;
  }

  /** strrchr from an offset. */
  method StrRChr(line: array<char>, from: nat, c: char, ghost end: nat) returns (k: nat, found: bool)
    requires from <= end < line.Length && line[end] == NUL && c != NUL
    ensures k == FindLast(CString(line[from..]), c) && (found <==> k < |CString(line[from..])|)
    ensures from + k <= end
  {
    var n := StrLen(line, from, end);
    var s := CString(line[from..]);
    var i := n;
    found := false;
    k := n;
    while i > 0 && !found
      invariant i <= n && (found ==> k == i < n && s[k] == c) && (!found ==> k == n)
      invariant forall j :: (if found then i + 1 else i) <= j < n ==> s[j] != c
    {
      i := i - 1;
      if line[from + i] == c {
        k, found := i, true;
      }
    }
    LastUnique(s, c, k);
  }

  lemma LastUnique(s: string, c: char, k: nat)
    requires k <= |s| && (forall j :: k < j < |s| ==> s[j] != c)
    requires if k < |s| then s[k] == c else Free(s, c)
    ensures FindLast(s, c) == k
  {
    var f := FindLast(s, c);
    assert f < |s| ==> s[f] == c;
  }

  /** One line in its buffer: the brackets are overwritten with terminators and the two C strings
      between them taken. */
  method ParseLine(line: array<char>, n: nat) returns (entry: Option<(string, string)>)
    requires 0 < n < line.Length && line[n] == NUL
    modifies line
    ensures entry == ParseEntry(old(line[..n]))
  {
    if line[0] != '[' {
      return None;
    }
    LineBody(line[..], n);
    assert line[..][1..] == line[1..];
    hide CString, ParseBody, ParseValue;
    ghost var body := CString(line[1..]);
    var e, found := StrChr(line, 1, ']', n);
    if !found {
      NoKey(body);
      return None;
    }
    BodyAt(body, e);
    CStringBehind(line[1..], e + 1);
    assert line[1..][e + 1..] == line[e + 2..];
    var key := TakeKey(line, e, n);
    var value := ParseValueAt(line, e + 2, n);
    entry := if value == None then None else Some((key, value.value));
  }

  /** Terminates the key at its bracket and takes it. */
  method TakeKey(line: array<char>, e: nat, n: nat) returns (key: string)
    requires 1 + e <= n < line.Length && line[n] == NUL && line[1 + e] == ']' && e <= |CString(line[1..])|
    modifies line
    ensures key == CString(old(line[1..]))[..e]
    ensures line[e + 2..] == old(line[e + 2..]) && e + 2 <= n && line[n] == NUL
  {
    assert CString(line[1..])[..e] == line[1..][..e] == line[1..1 + e];
    key := line[1..1 + e];
    line[1 + e] := NUL;
  }

  method ParseValueAt(line: array<char>, at: nat, n: nat) returns (value: Option<string>)
    requires at <= n < line.Length && line[n] == NUL
    modifies line
    ensures value == ParseValue(CString(old(line[at..])))
    ensures line[..at] == old(line[..at])
  {
    hide ParseValue, CString, Find, FindLast;
    ghost var was, after := line[..], CString(line[at..]);
    assert was[at..] == line[at..];
    var s, found := StrChr(line, at, '[', n);
    if !found {
      NoValue(after);
      return None;
    }
    var valueAt := at + s + 1;
    TailBehind(was, at, s + 1);
    assert was[valueAt..] == line[valueAt..];
    var l, found2 := StrRChr(line, valueAt, ']', n);
    ValueAt(after, s, l);
    if !found2 {
      return None;
    }
    var v := TakeValue(line, valueAt, l);
    PrefixKept(was, line[..], at, valueAt);
    value := Some(v);
  }

  lemma TailBehind(s: string, at: nat, k: nat)
    requires at <= |s| && k <= |CString(s[at..])|
    ensures at + k <= |s| && CString(s[at + k..]) == CString(s[at..])[k..]
  {
    CStringBehind(s[at..], k);
    assert s[at..][k..] == s[at + k..];
  }

  lemma PrefixKept(was: string, now: string, i: nat, j: nat)
    requires i <= j <= |was| == |now| && now[..j] == was[..j]
    ensures now[..i] == was[..i]
  {
    assert now[..i] == now[..j][..i] && was[..i] == was[..j][..i];
  }

  /** Terminates the value at its bracket and takes it. */
  method TakeValue(line: array<char>, at: nat, l: nat) returns (value: string)
    requires at + l < line.Length && l <= |CString(line[at..])|
    modifies line
    ensures value == CString(old(line[at..]))[..l]
    ensures line[..at] == old(line[..at])
  {
    assert line[..][at..] == line[at..];
    CStringPrefix(line[..], at, l);
    value := line[at..at + l];
    line[at + l] := NUL;
  }

  lemma CStringPrefix(s: string, at: nat, k: nat)
    requires at <= |s| && k <= |CString(s[at..])|
    ensures at + k <= |s| && CString(s[at..])[..k] == s[at..at + k]
  {
  }

  lemma LineBody(s: string, n: nat)
    requires 0 < n < |s| && s[n] == NUL && s[0] == '['
    ensures ParseEntry(s[..n]) == ParseBody(CString(s[1..]))
  {
    assert s[..n][1..] == s[1..n];
    SameCString(s, 1, n);
  }

  lemma NoKey(body: string)
    requires Find(body, ']') == |body|
    ensures ParseBody(body) == None
  {
  }

  lemma BodyAt(body: string, e: nat)
    requires e == Find(body, ']') < |body|
    ensures ParseBody(body)
         == match ParseValue(body[e + 1..]) case None => None case Some(v) => Some((body[..e], v))
  {
    hide Find, ParseValue;
  }

  lemma NoValue(after: string)
    requires Find(after, '[') == |after|
    ensures ParseValue(after) == None
  {
  }

  lemma ValueAt(after: string, s: nat, l: nat)
    requires s == Find(after, '[') < |after| && l == FindLast(after[s + 1..], ']')
    ensures ParseValue(after) == if l == |after[s + 1..]| then None else Some(after[s + 1..][..l])
  {
    hide Find, FindLast;
  }

  lemma SameCString(s: string, from: nat, n: nat)
    requires from <= n < |s| && s[n] == NUL
    ensures CString(s[from..]) == CString(s[from..n])
  {
    var long, short := s[from..], s[from..n];
    var k := Find(short, NUL);
    assert short == long[..n - from] && long[n - from] == NUL;
    forall j | 0 <= j < k ensures long[j] != NUL {
      assert long[j] == short[j];
    }
    FindUnique(long, NUL, k);
    assert long[..k] == short[..k];
  }

  /** The tail of a C string is a C string. */
  lemma CStringBehind(s: string, k: nat)
    requires k <= |CString(s)|
    ensures CString(s[k..]) == CString(s)[k..]
  {
    var n := |CString(s)|;
    FindUnique(s[k..], NUL, n - k);
    assert s[k..][..n - k] == s[..n][k..];
  }

  /** Reads the file line by line through a 1024-character buffer. */
  method LoadPropertyCache(file: string) returns (props: map<string, string>)
    ensures props == Load(file)
  {
    props := map[];
    var line := new char[LINE_BUFFER](_ => NUL);
    var rest := file;
    while rest != ""
      invariant LoadInto(rest, props) == Load(file)
      decreases |rest|
    {
      var n := ChunkLength(rest);
      forall j | 0 <= j < n {
        line[j] := rest[j];
      }
      line[n] := NUL;
      assert line[..n] == rest[..n];
      var entry := ParseLine(line, n);
      props := Record(props, entry);
      rest := rest[n..];
    }
  }

  /** `__system_property_get` into a caller's buffer; `platform` is what the platform's own getter returns
      for a property the file does not hold. */
  method SystemPropertyGet(file: string, name: string, value: array<char>, platform: int) returns (length: int)
    requires value.Length >= 92
    modifies value
    ensures match Getter(file, name)
            case Some(v) => length == |v| && value[..|v|] == v && value[|v|] == NUL
            case None => length == platform
    ensures name in Load(file) ==>
              var v := Load(file)[name];
              && length == (if |v| <= 91 then |v| else 91)
              && value[..length] == v[..length] && value[length] == NUL
    ensures name !in Load(file) ==> length == platform
  {
    value[0] := NUL;
    var props := LoadPropertyCache(file);
    if name in props {
      var v := props[name];
      var len := if |v| < PROP_VALUE_MAX then |v| else PROP_VALUE_MAX;
      forall j | 0 <= j < len {
        value[j] := v[j];
      }
      value[len] := NUL;
      assert value[..len] == v[..len] == Truncated(v);
      return len;
    }
    return platform;
  }
}
