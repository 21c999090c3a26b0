/** The parser object of `init_parser.cpp`: the vectors and the index map it fills in place, and the
    loading of all scripts from a mounted file system. */
module InitParser {
  import opened Bytes
  import opened Text
  import opened SparseImage
  import opened Ext4Layout
  import opened Ext4Paths
  import opened Ext4Reader
  import opened InitScript

  const EMPTY_TABLE: Table := Table([], [], map[])

  function InitRc(): seq<byte> {
    Ascii("/init.rc")
  }

  function InitDirectory(): seq<byte> {
    Ascii("/system/etc/init")
  }

  /** Where the loader looks. */
  lemma LoaderPaths()
    ensures ToText(InitRc()) == "/init.rc" && ToText(InitDirectory()) == "/system/etc/init"
  {
    AsciiText("/init.rc");
    AsciiText("/system/etc/init");
  }

  predicate IsScript(e: FsFileEntry) {
    !e.isDirectory && |e.name| > 3 && e.name[|e.name| - 3..] == Ascii(".rc")
  }

  /** Parses the file at a path if it can be read, and leaves the table alone otherwise. */
  ghost function ParseFile(g: Geometry, d: Disk, t: Table, path: seq<byte>): Table
    requires Mounted(g, d)
  {
    match ReadPath(g, d, path)
    case Ok(b) => Parse(t, ToText(b))
    case _ => t
  }

  ghost function ParseScripts(g: Geometry, d: Disk, t: Table, entries: seq<FsFileEntry>): Table
    requires Mounted(g, d)
    decreases |entries|
  {
    if entries == [] then t
    else ParseScripts(g, d, if IsScript(entries[0]) then ParseFile(g, d, t, entries[0].path) else t, entries[1..])
  }

  function CoreService(name: string, path: string, cls: string, user: string): InitService {
    FreshService(name, path, []).(classes := [cls], user := user)
  }

  /** The services registered when no script defines them. */
  function CoreServices(): seq<InitService> {
    [CoreService("servicemanager", "/system/bin/servicemanager", "core", "system"),
     CoreService("surfaceflinger", "/system/bin/surfaceflinger", "core", "system"),
     CoreService("logd", "/system/bin/logd", "core", "logd"),
     CoreService("vold", "/system/bin/vold", "core", "root"),
     CoreService("sh", "/system/bin/sh", "main", "root")]
  }

  function AddAll(t: Table, ss: seq<InitService>): Table
    decreases |ss|
  {
    if ss == [] then t else AddAll(AddService(t, ss[0]), ss[1..])
  }

  lemma {:induction false} AddAllKeeps(t: Table, ss: seq<InitService>)
    requires Consistent(t)
    ensures Consistent(AddAll(t, ss)) && Extends(t, AddAll(t, ss))
    ensures forall i :: 0 <= i < |ss| ==> ss[i].name in AddAll(t, ss).index
    ensures forall n :: n in t.index ==> n in AddAll(t, ss).index && AddAll(t, ss).index[n] == t.index[n]
    decreases |ss|
  {
    if ss != [] {
      AddAllKeeps(AddService(t, ss[0]), ss[1..]);
    }
  }

  lemma {:induction false} ParseScriptsKeep(g: Geometry, d: Disk, t: Table, entries: seq<FsFileEntry>)
    requires Mounted(g, d) && Consistent(t)
    ensures Consistent(ParseScripts(g, d, t, entries)) && Extends(t, ParseScripts(g, d, t, entries))
    decreases |entries|
  {
    if entries != [] {
      var next := if IsScript(entries[0]) then ParseFile(g, d, t, entries[0].path) else t;
      var r := ReadPath(g, d, entries[0].path);
      if r.Ok? {
        ParseKeeps(t, ToText(r.value));
      }
      ParseScriptsKeep(g, d, next, entries[1..]);
    }
  }

  /** After loading, whatever the scripts said: the index is exact and every core service is there,
      defined by the scripts or by the fallback, scripts winning. */
  lemma LoadedTable(g: Geometry, d: Disk, entries: seq<FsFileEntry>)
    requires Mounted(g, d)
    ensures var scripted := ParseScripts(g, d, ParseFile(g, d, EMPTY_TABLE, InitRc()), entries);
            var loaded := AddAll(scripted, CoreServices());
            && Consistent(loaded) && Extends(scripted, loaded)
            && (forall i :: 0 <= i < |CoreServices()| ==> CoreServices()[i].name in loaded.index)
            && (forall n :: n in scripted.index ==> n in loaded.index && loaded.index[n] == scripted.index[n])
  {
    var r := ReadPath(g, d, InitRc());
    if r.Ok? {
      ParseKeeps(EMPTY_TABLE, ToText(r.value));
    }
    var root := ParseFile(g, d, EMPTY_TABLE, InitRc());
    ParseScriptsKeep(g, d, root, entries);
    AddAllKeeps(ParseScripts(g, d, root, entries), CoreServices());
  }

  lemma {:induction false} ScriptsNeverRun(g: Geometry, d: Disk, t: Table, entries: seq<FsFileEntry>)
    requires Mounted(g, d) && AllNeverRun(t)
    ensures AllNeverRun(ParseScripts(g, d, t, entries))
    decreases |entries|
  {
    hide ParseFile;
    if entries != [] {
      ParseFileNeverRuns(g, d, t, entries[0].path);
      ScriptsNeverRun(g, d, if IsScript(entries[0]) then ParseFile(g, d, t, entries[0].path) else t, entries[1..]);
    }
  }

  lemma {:induction false} AddAllNeverRun(t: Table, ss: seq<InitService>)
    requires AllNeverRun(t) && forall i :: 0 <= i < |ss| ==> NeverRun(ss[i])
    ensures AllNeverRun(AddAll(t, ss))
    decreases |ss|
  {
    if ss != [] {
      AddAllNeverRun(AddService(t, ss[0]), ss[1..]);
    }
  }

  lemma ParseFileNeverRuns(g: Geometry, d: Disk, t: Table, path: seq<byte>)
    requires Mounted(g, d) && AllNeverRun(t)
    ensures AllNeverRun(ParseFile(g, d, t, path))
  {
    hide ReadPath, Parse;
    var r := ReadPath(g, d, path);
    if r.Ok? {
      ParseNeverRuns(t, ToText(r.value));
    }
  }

  lemma CoreNeverRuns()
    ensures forall i :: 0 <= i < |CoreServices()| ==> NeverRun(CoreServices()[i])
  {
  }

  /** No service of a freshly loaded table is running. */
  lemma LoadedStopped(g: Geometry, d: Disk, entries: seq<FsFileEntry>)
    requires Mounted(g, d)
    ensures AllNeverRun(AddAll(ParseScripts(g, d, ParseFile(g, d, EMPTY_TABLE, InitRc()), entries), CoreServices()))
  {
    hide ParseFile, ParseScripts, CoreServices, AddAll, InitRc;
    assert AllNeverRun(EMPTY_TABLE);
    ParseFileNeverRuns(g, d, EMPTY_TABLE, InitRc());
    var root := ParseFile(g, d, EMPTY_TABLE, InitRc());
    ScriptsNeverRun(g, d, root, entries);
    CoreNeverRuns();
    AddAllNeverRun(ParseScripts(g, d, root, entries), CoreServices());
  }

  /** A script that was written: its bytes, as characters, are the print of printable items. */
  ghost predicate Script(g: Geometry, d: Disk, path: seq<byte>, items: seq<Item>)
    requires Mounted(g, d)
  {
    && (forall i :: 0 <= i < |items| ==> Printable(items[i]))
    && exists b :: ReadPath(g, d, path) == Ok(b) && ToText(b) == Print(items)
  }

  lemma ScriptParses(g: Geometry, d: Disk, t: Table, path: seq<byte>, items: seq<Item>)
    requires Mounted(g, d) && Consistent(t) && Script(g, d, path, items)
    ensures var u := ParseFile(g, d, t, path);
            && Consistent(u) && u.actions == t.actions + ActionsOf(items)
            && u.services == t.services + FirstDefinitions(t.index.Keys, items)
  {
    hide ReadPath, Print, Parse, Consistent, Printable;
    PrintDefines(t, items);
  }

  lemma ExtendsOn(t: Table, u: Table, v: Table)
    requires Extends(t, u) && Extends(u, v)
    ensures Extends(t, v)
  {
  }

  /** What /init.rc defines is in the loaded table, before everything else: its actions in order, and its
      services as they are, the first definition of each name. */
  lemma RootScriptLoads(g: Geometry, d: Disk, entries: seq<FsFileEntry>, items: seq<Item>)
    requires Mounted(g, d) && Script(g, d, Ascii("/init.rc"), items)
    ensures var u := AddAll(ParseScripts(g, d, ParseFile(g, d, EMPTY_TABLE, InitRc()), entries), CoreServices());
            Consistent(u) && ActionsOf(items) <= u.actions && FirstDefinitions({}, items) <= u.services
  {
    hide *;
    RootScript(g, d, items);
    var root := ParseFile(g, d, EMPTY_TABLE, InitRc());
    ParseScriptsKeep(g, d, root, entries);
    AddAllKeeps(ParseScripts(g, d, root, entries), CoreServices());
    ExtendsOn(root, ParseScripts(g, d, root, entries), AddAll(ParseScripts(g, d, root, entries), CoreServices()));
    ExtendsMeans(root, AddAll(ParseScripts(g, d, root, entries), CoreServices()));
  }

  lemma ExtendsMeans(t: Table, u: Table)
    requires Extends(t, u)
    ensures t.actions <= u.actions && t.services <= u.services
  {
  }

  lemma RootScript(g: Geometry, d: Disk, items: seq<Item>)
    requires Mounted(g, d) && Script(g, d, Ascii("/init.rc"), items)
    ensures var root := ParseFile(g, d, EMPTY_TABLE, InitRc());
            Consistent(root) && root.actions == ActionsOf(items) && root.services == FirstDefinitions({}, items)
  {
    hide Mounted, Script, ParseFile;
    ScriptParses(g, d, EMPTY_TABLE, InitRc(), items);
    assert [] + ActionsOf(items) == ActionsOf(items);
    assert EMPTY_TABLE.index.Keys == {} && [] + FirstDefinitions({}, items) == FirstDefinitions({}, items);
  }

  lemma {:induction false} ParseScriptsSplit(g: Geometry, d: Disk, t: Table, a: seq<FsFileEntry>, b: seq<FsFileEntry>)
    requires Mounted(g, d)
    ensures ParseScripts(g, d, t, a + b) == ParseScripts(g, d, ParseScripts(g, d, t, a), b)
    decreases |a|
  {
    hide ParseFile, IsScript;
    if a == [] {
      assert a + b == b;
    } else {
      assert (a + b)[0] == a[0] && (a + b)[1..] == a[1..] + b;
      ParseScriptsSplit(g, d, if IsScript(a[0]) then ParseFile(g, d, t, a[0].path) else t, a[1..], b);
    }
  }

  /** What stands in a scanned file with a name in ".rc" is defined right behind what the files before it
      define, but for services they define already. */
  lemma ScannedScriptLoads(g: Geometry, d: Disk, t: Table, before: seq<FsFileEntry>, e: FsFileEntry,
                           after: seq<FsFileEntry>, stem: seq<byte>, items: seq<Item>)
    requires Mounted(g, d) && Consistent(t) && Script(g, d, e.path, items)
    requires !e.isDirectory && stem != [] && e.name == stem + [46, 114, 99]
    ensures var known := ParseScripts(g, d, t, before);
            var u := AddAll(ParseScripts(g, d, t, before + [e] + after), CoreServices());
            && Consistent(u) && known.actions + ActionsOf(items) <= u.actions
            && known.services + FirstDefinitions(known.index.Keys, items) <= u.services
  {
    hide *;
    ScriptName(e, stem);
    var known, whole := ParseScripts(g, d, t, before), ParseScripts(g, d, t, before + [e] + after);
    var next := ParseFile(g, d, known, e.path);
    ParseScriptsKeep(g, d, t, before);
    ScriptParses(g, d, known, e.path, items);
    ParseScriptsSplit(g, d, t, before + [e], after);
    ParseScriptsSplit(g, d, t, before, [e]);
    OneScript(g, d, known, e);
    ParseScriptsKeep(g, d, next, after);
    AddAllKeeps(whole, CoreServices());
    ExtendsOn(next, whole, AddAll(whole, CoreServices()));
    ExtendsMeans(next, AddAll(whole, CoreServices()));
  }

  lemma ScriptName(e: FsFileEntry, stem: seq<byte>)
    requires !e.isDirectory && stem != [] && e.name == stem + [46, 114, 99]
    ensures IsScript(e)
  {
    assert Ascii(".rc") == [46, 114, 99] && e.name[|e.name| - 3..] == [46, 114, 99];
  }

  lemma OneScript(g: Geometry, d: Disk, t: Table, e: FsFileEntry)
    requires Mounted(g, d)
    ensures ParseScripts(g, d, t, [e]) == if IsScript(e) then ParseFile(g, d, t, e.path) else t
  {
    assert [e][1..] == [];
  }

  /** Directories, and files with any other name, are passed over: the ending alone is no name. */
  lemma OtherFilesIgnored(g: Geometry, d: Disk, t: Table, before: seq<FsFileEntry>, e: FsFileEntry,
                          after: seq<FsFileEntry>)
    requires Mounted(g, d)
    requires e.isDirectory || |e.name| <= 3 || e.name[|e.name| - 3..] != [46, 114, 99]
    ensures ParseScripts(g, d, t, before + [e] + after) == ParseScripts(g, d, t, before + after)
  {
    assert Ascii(".rc") == [46, 114, 99];
    assert !IsScript(e);
    hide *;
    OneScript(g, d, ParseScripts(g, d, t, before), e);
    ParseScriptsSplit(g, d, t, before + [e], after);
    ParseScriptsSplit(g, d, t, before, [e]);
    ParseScriptsSplit(g, d, t, before, after);
  }

  lemma CoreIs()
    ensures CoreServices() == [
      InitService("servicemanager", "/system/bin/servicemanager", [], ["core"], "system", [], false, false, [],
                  Stopped, -1),
      InitService("surfaceflinger", "/system/bin/surfaceflinger", [], ["core"], "system", [], false, false, [],
                  Stopped, -1),
      InitService("logd", "/system/bin/logd", [], ["core"], "logd", [], false, false, [], Stopped, -1),
      InitService("vold", "/system/bin/vold", [], ["core"], "root", [], false, false, [], Stopped, -1),
      InitService("sh", "/system/bin/sh", [], ["main"], "root", [], false, false, [], Stopped, -1)]
  {
  }

  lemma CoreDiffer()
    ensures forall i, j :: 0 <= i < j < |CoreServices()| ==> CoreServices()[i].name != CoreServices()[j].name
  {
    CoreIs();
    hide CoreServices;
    assert "servicemanager"[1] == 'e' && "surfaceflinger"[1] == 'u' && "logd"[0] == 'l' && "vold"[0] == 'v';
  }

  /** Without any script the loaded table is the five fallback services. */
  lemma FallbackTable(g: Geometry, d: Disk)
    requires Mounted(g, d) && ReadPath(g, d, Ascii("/init.rc")) == Fail
    ensures var u := AddAll(ParseScripts(g, d, ParseFile(g, d, EMPTY_TABLE, InitRc()), []), CoreServices());
            && Consistent(u) && u.actions == []
            && u.services == [
                 InitService("servicemanager", "/system/bin/servicemanager", [], ["core"], "system", [], false, false,
                             [], Stopped, -1),
                 InitService("surfaceflinger", "/system/bin/surfaceflinger", [], ["core"], "system", [], false, false,
                             [], Stopped, -1),
                 InitService("logd", "/system/bin/logd", [], ["core"], "logd", [], false, false, [], Stopped, -1),
                 InitService("vold", "/system/bin/vold", [], ["core"], "root", [], false, false, [], Stopped, -1),
                 InitService("sh", "/system/bin/sh", [], ["main"], "root", [], false, false, [], Stopped, -1)]
  {
    hide ReadPath;
    CoreIs();
    CoreDiffer();
    AddAllKeeps(EMPTY_TABLE, CoreServices());
    AddDifferent(EMPTY_TABLE, CoreServices());
    hide CoreServices, AddAll;
    assert [] + CoreServices() == CoreServices();
  }

  /** Services of new and different names are appended as they are. */
  lemma {:induction false} AddDifferent(t: Table, ss: seq<InitService>)
    requires forall i :: 0 <= i < |ss| ==> ss[i].name !in t.index
    requires forall i, j :: 0 <= i < j < |ss| ==> ss[i].name != ss[j].name
    ensures AddAll(t, ss).services == t.services + ss && AddAll(t, ss).actions == t.actions
    decreases |ss|
  {
    if ss == [] {
      assert t.services + [] == t.services;
    } else {
      AddDifferent(AddService(t, ss[0]), ss[1..]);
      Assoc(t.services, [ss[0]], ss[1..]);
      assert [ss[0]] + ss[1..] == ss;
    }
  }

  class InitParser {
    var actions: seq<InitAction>
    var services: seq<InitService>
    var serviceIndexMap: map<string, nat>

    constructor ()
      ensures Contents() == EMPTY_TABLE
    {
      actions, services, serviceIndexMap := [], [], map[];
    }

    function Contents(): Table
      reads this
    {
      Table(actions, services, serviceIndexMap)
    }

    method Clear()
      modifies this
      ensures Contents() == EMPTY_TABLE
    {
      actions, services, serviceIndexMap := [], [], map[];
    }

    /** The position of a service: what a linear search over the vector would find. */
    method FindService(name: string) returns (i: Option<nat>)
      requires Consistent(Contents())
      ensures i == Search(services, name)
    {
      IndexAgreesWithSearch(Contents(), name);
      if name in serviceIndexMap && serviceIndexMap[name] < |services| {
        return Some(serviceIndexMap[name]);
      }
      return None;
    }

    method FinishCurrentSection(section: Section)
      modifies this
      ensures Contents() == Finish(old(Contents()), section)
    {
      match section
      case NoSection =>
      case InAction(a) =>
        if a.trigger != "" {
          actions := actions + [a];
        }
      case InService(s) =>
        if s.name != "" && s.name !in serviceIndexMap {
          serviceIndexMap := serviceIndexMap[s.name := |services|];
          services := services + [s];
        }
    }

    method ParseScriptContent(content: string)
      modifies this
      ensures Contents() == Parse(old(Contents()), content)
      ensures old(Consistent(Contents())) ==> Consistent(Contents()) && Extends(old(Contents()), Contents())
    {
      if Consistent(Contents()) {
        ParseKeeps(Contents(), content);
      }
      var rest := content;
      var currentSection := NoSection;
      ghost var target := Run(ParseState(Contents(), NoSection), Split(content, '\n'));
      while rest != ""
        invariant Run(ParseState(Contents(), currentSection), Split(rest, '\n')) == target
        decreases |rest|
      {
        var k := Find(rest, '\n');
        var rawLine := rest[..k];
        SplitStep(rest, '\n');
        rest := if k < |rest| then rest[k + 1..] else "";
        SplitEmpty<char>('\n');
        RunAppend(ParseState(Contents(), currentSection), [rawLine], Split(rest, '\n'));
        RunOne(ParseState(Contents(), currentSection), rawLine);
        currentSection := ParseLine(rawLine, currentSection);
      }
      SplitEmpty<char>('\n');
      FinishCurrentSection(currentSection);
    }

    method ParseLine(rawLine: string, currentSection: Section) returns (section: Section)
      modifies this
      ensures ParseState(Contents(), section) == StepLine(ParseState(old(Contents()), currentSection), rawLine)
    {
      section := currentSection;
      var trimmed := Trim(rawLine);
      if trimmed == "" || trimmed[0] == '#' {
        return;
      }
      var tokens := SplitTokens(trimmed);
      if tokens == [] {
        return;
      }
      if tokens[0] == "on" && |tokens| >= 2 {
        FinishCurrentSection(currentSection);
        return InAction(InitAction(tokens[1], []));
      }
      if tokens[0] == "service" && |tokens| >= 3 {
        FinishCurrentSection(currentSection);
        return InService(FreshService(tokens[1], tokens[2], tokens[3..]));
      }
      match currentSection
      case NoSection =>
      case InAction(a) => section := InAction(a.(commands := a.commands + [trimmed]));
      case InService(s) => section := InService(Directive(s, tokens));
    }

    static method SplitTokens(line: string) returns (tokens: seq<string>)
      ensures tokens == Tokens(line)
    {
      tokens := [];
      var rest := line;
      while rest != ""
        invariant tokens + Tokens(rest) == Tokens(line)
        decreases |rest|
      {
        if StreamSpace(rest[0]) {
          rest := rest[1..];
        } else {
          var k := WordLength(rest);
          Assoc(tokens, [rest[..k]], Tokens(rest[k..]));
          tokens := tokens + [rest[..k]];
          rest := rest[k..];
        }
      }
    }

    method EnsureCoreService(service: InitService)
      modifies this
      ensures Contents() == AddService(old(Contents()), service)
    {
      if service.name !in serviceIndexMap {
        serviceIndexMap := serviceIndexMap[service.name := |services|];
        services := services + [service];
      }
    }

    method ReadScript(reader: Ext4Reader, path: seq<byte>)
      requires reader.Valid() && ReadPath(reader.geometry, reader.disk, path) != Stuck
      modifies this
      ensures Contents() == ParseFile(reader.geometry, reader.disk, old(Contents()), path)
    {
      var content := new Vector<byte>();
      var ok := reader.ReadFile(path, content);
      if ok {
        ParseScriptContent(ToText(content.items));
      }
    }

    /** The script files of a directory listing, one after the other. */
    method ReadScripts(reader: Ext4Reader, items: seq<FsFileEntry>)
      requires reader.Valid()
      requires forall x :: x in items && IsScript(x) ==> ReadPath(reader.geometry, reader.disk, x.path) != Stuck
      modifies this
      ensures Contents() == ParseScripts(reader.geometry, reader.disk, old(Contents()), items)
    {
      hide ValidView, DiskOf, Addressable, Parse;
      for i := 0 to |items|
        invariant ParseScripts(reader.geometry, reader.disk, Contents(), items[i..])
               == ParseScripts(reader.geometry, reader.disk, old(Contents()), items)
      {
        assert items[i..][1..] == items[i + 1..];
        if IsScript(items[i]) {
          ReadScript(reader, items[i].path);
        }
      }
    }

    method EnsureCoreServices()
      modifies this
      ensures Contents() == AddAll(old(Contents()), CoreServices())
    {
      var core := CoreServices();
      for i := 0 to |core|
        invariant AddAll(Contents(), core[i..]) == AddAll(old(Contents()), core)
      {
        assert core[i..][1..] == core[i + 1..];
        EnsureCoreService(core[i]);
      }
    }

    /** `/init.rc`, then every `.rc` file of `/system/etc/init` in listing order, then the fallbacks. */
    method LoadFromVfs(reader: Ext4Reader) returns (count: nat, ghost scanned: seq<FsFileEntry>)
      requires reader.Valid() && Loadable(reader.geometry, reader.disk)
      modifies this
      ensures Scanned(Listing(reader.geometry, reader.disk, InitDirectory()), scanned)
      ensures var g, d := reader.geometry, reader.disk;
              Contents() == AddAll(ParseScripts(g, d, ParseFile(g, d, EMPTY_TABLE, InitRc()), scanned), CoreServices())
      ensures Consistent(Contents()) && count == |services|
      ensures forall i :: 0 <= i < |CoreServices()| ==> CoreServices()[i].name in serviceIndexMap
    {
      hide ValidView, DiskOf, Addressable, ParseFile, ParseScripts, CoreServices, AddAll, Listing, ReadPath, Consistent;
      Clear();
      ReadScript(reader, InitRc());
      var entries := new Vector<FsFileEntry>();
      var ok := reader.ListDirectory(InitDirectory(), entries);
      var items := entries.items;
      scanned := items;
      if ok {
        SameMembers(items, Listing(reader.geometry, reader.disk, InitDirectory()).value);
      }
      ReadScripts(reader, items);
      LoadedTable(reader.geometry, reader.disk, items);
      EnsureCoreServices();
      count := |services|;
    }
  }

  /** Every file the loader opens can be read to its end. */
  ghost predicate Loadable(g: Geometry, d: Disk)
    requires Mounted(g, d)
  {
    var l := Listing(g, d, InitDirectory());
    && ReadPath(g, d, InitRc()) != Stuck
    && l != Stuck
    && (l.Ok? ==> forall x :: x in l.value && IsScript(x) ==> ReadPath(g, d, x.path) != Stuck)
  }

  /** What a scan goes through: the listing in sorted order, or nothing when there is none. */
  ghost predicate Scanned(l: Outcome<seq<FsFileEntry>>, items: seq<FsFileEntry>) {
    if l.Ok? then multiset(items) == multiset(l.value) && SortedEntries(items) else items == []
  }

  lemma SameMembers<T>(a: seq<T>, b: seq<T>)
    requires multiset(a) == multiset(b)
    ensures forall x :: x in a ==> x in b
  {
    forall x | x in a ensures x in b {
      assert x in multiset(a);
    }
  }
}
