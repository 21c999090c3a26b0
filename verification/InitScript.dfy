/** The init script language of `init_parser.cpp`: what a script text does to the table of actions and
    services, and the printer it inverts. */
module InitScript {
  import opened Bytes
  import opened Text

  datatype InitAction = InitAction(trigger: string, commands: seq<string>)

  datatype Status = Stopped | Running

  datatype InitService = InitService(
    name: string, binaryPath: string, args: seq<string>, classes: seq<string>, user: string,
    groups: seq<string>, isCritical: bool, isDisabled: bool, envVars: seq<(string, string)>,
    status: Status, pid: int)

  datatype Table = Table(actions: seq<InitAction>, services: seq<InitService>, index: map<string, nat>)

  /** The section a line loop is in, with what it has gathered so far. */
  datatype Section = NoSection | InAction(action: InitAction) | InService(service: InitService)

  // ---------------------------------------------------------------------------
  // Tokens
  // ---------------------------------------------------------------------------

  /** The blanks at which stream extraction splits. */
  predicate StreamSpace(c: char) {
    Blank(c) || c == '\U{0b}' || c == '\U{0c}'
  }

  function WordLength(s: string): (k: nat)
    ensures k <= |s| && (forall j :: 0 <= j < k ==> !StreamSpace(s[j])) && (k < |s| ==> StreamSpace(s[k]))
  {
    if s == [] || StreamSpace(s[0]) then 0 else 1 + WordLength(s[1..])
  }

  function Tokens(s: string): seq<string>
    decreases |s|
  {
    if s == [] then []
    else if StreamSpace(s[0]) then Tokens(s[1..])
    else [s[..WordLength(s)]] + Tokens(s[WordLength(s)..])
  }

  // ---------------------------------------------------------------------------
  // What a line does
  // ---------------------------------------------------------------------------

  function FreshService(name: string, path: string, args: seq<string>): InitService {
    InitService(name, path, args, ["main"], "root", [], false, false, [], Stopped, -1)
  }

  function AddService(t: Table, s: InitService): Table {
    if s.name in t.index then t
    else t.(services := t.services + [s], index := t.index[s.name := |t.services|])
  }

  function Finish(t: Table, section: Section): Table {
    match section
    case NoSection => t
    case InAction(a) => if a.trigger == "" then t else t.(actions := t.actions + [a])
    case InService(s) => if s.name == "" then t else AddService(t, s)
  }

  function Directive(s: InitService, tokens: seq<string>): InitService
    requires tokens != []
  {
    if tokens[0] == "class" && |tokens| >= 2 then s.(classes := tokens[1..])
    else if tokens[0] == "user" && |tokens| >= 2 then s.(user := tokens[1])
    else if tokens[0] == "group" && |tokens| >= 2 then s.(groups := s.groups + tokens[1..])
    else if tokens[0] == "critical" then s.(isCritical := true)
    else if tokens[0] == "disabled" then s.(isDisabled := true)
    else if tokens[0] == "setenv" && |tokens| >= 3 then s.(envVars := s.envVars + [(tokens[1], tokens[2])])
    else s
  }

  predicate IsHeader(tokens: seq<string>) {
    tokens != [] && ((tokens[0] == "on" && |tokens| >= 2) || (tokens[0] == "service" && |tokens| >= 3))
  }

  /** Blank lines and comments do nothing. */
  predicate Significant(line: string) {
    var trimmed := Trim(line);
    trimmed != "" && trimmed[0] != '#' && Tokens(trimmed) != []
  }

  datatype ParseState = ParseState(table: Table, section: Section)

  function OpenSection(tokens: seq<string>): Section
    requires IsHeader(tokens)
  {
    if tokens[0] == "on" then InAction(InitAction(tokens[1], []))
    else InService(FreshService(tokens[1], tokens[2], tokens[3..]))
  }

  function StepTokens(st: ParseState, trimmed: string, tokens: seq<string>): ParseState
    requires tokens != []
  {
    if IsHeader(tokens) then ParseState(Finish(st.table, st.section), OpenSection(tokens))
    else match st.section
      case NoSection => st
      case InAction(a) => st.(section := InAction(a.(commands := a.commands + [trimmed])))
      case InService(s) => st.(section := InService(Directive(s, tokens)))
  }

  function StepLine(st: ParseState, line: string): ParseState {
    if !Significant(line) then st else StepTokens(st, Trim(line), Tokens(Trim(line)))
  }

  /** A comment, indented or not, and a line of blanks change nothing, wherever they stand. */
  lemma CommentsDoNothing(st: ParseState, pad: string, rest: string)
    requires AllBlank(pad)
    ensures StepLine(st, pad + (['#'] + rest)) == st == StepLine(st, pad)
  {
    TrimStart(pad, ['#'] + rest);
    TrimPadded(pad, "", "");
    assert pad + "" + "" == pad;
    hide Trim, Tokens;
  }

  /** What a directive does when it comes again: classes and user are replaced, groups and variables add up. */
  lemma DirectivesAgain(s: InitService, a: seq<string>, b: seq<string>, x: string, y: string)
    requires a != [] && b != []
    ensures Directive(Directive(s, ["class"] + a), ["class"] + b) == s.(classes := b)
    ensures Directive(Directive(s, ["user", x]), ["user", y]) == s.(user := y)
    ensures Directive(Directive(s, ["group"] + a), ["group"] + b) == s.(groups := s.groups + a + b)
    ensures Directive(Directive(s, ["setenv", x, y]), ["setenv", y, x]) == s.(envVars := s.envVars + [(x, y), (y, x)])
    ensures Directive(s, ["critical"]) == s.(isCritical := true)
    ensures Directive(s, ["disabled"]) == s.(isDisabled := true)
  {
    assert (["class"] + a)[1..] == a && (["class"] + b)[1..] == b;
    assert (["group"] + a)[1..] == a && (["group"] + b)[1..] == b;
    assert s.envVars + [(x, y)] + [(y, x)] == s.envVars + [(x, y), (y, x)];
  }

  /** Exactly six directives do something to a service, and some only with enough words. */
  lemma OtherDirectives(s: InitService, tokens: seq<string>)
    requires tokens != []
    requires tokens[0] !in ["class", "user", "group", "setenv", "critical", "disabled"]
             || (|tokens| == 1 && tokens[0] in ["class", "user", "group"]) || (|tokens| <= 2 && tokens[0] == "setenv")
    ensures Directive(s, tokens) == s
  {
    assert tokens[0] in ["class", "user", "group", "setenv"] ==> tokens[0] != "critical" && tokens[0] != "disabled";
  }

  function Run(st: ParseState, lines: seq<string>): ParseState
    decreases |lines|
  {
    if lines == [] then st else Run(StepLine(st, lines[0]), lines[1..])
  }

  function Closed(st: ParseState): Table {
    Finish(st.table, st.section)
  }

  /** The table after parsing one script into it. */
  function Parse(t: Table, content: string): Table {
    Closed(Run(ParseState(t, NoSection), Split(content, '\n')))
  }

  lemma {:induction false} RunAppend(st: ParseState, a: seq<string>, b: seq<string>)
    ensures Run(st, a + b) == Run(Run(st, a), b)
    decreases |a|
  {
    if a == [] {
      assert a + b == b;
    } else {
      assert (a + b)[0] == a[0] && (a + b)[1..] == a[1..] + b;
      RunAppend(StepLine(st, a[0]), a[1..], b);
    }
  }

  // ---------------------------------------------------------------------------
  // The index
  // ---------------------------------------------------------------------------

  /** The index map is exactly the inverse of the service vector, so names are unique. */
  ghost predicate Consistent(t: Table) {
    && (forall i :: 0 <= i < |t.services| ==> t.services[i].name in t.index && t.index[t.services[i].name] == i)
    && (forall n :: n in t.index ==> t.index[n] < |t.services| && t.services[t.index[n]].name == n)
  }

  lemma NamesUnique(t: Table, i: nat, j: nat)
    requires Consistent(t) && i < |t.services| && j < |t.services| && t.services[i].name == t.services[j].name
    ensures i == j
  {
  }

  /** Tables only ever grow: earlier actions and services keep their places and contents. */
  predicate Extends(t: Table, u: Table) {
    t.actions <= u.actions && t.services <= u.services
  }

  lemma FinishKeeps(t: Table, s: Section)
    requires Consistent(t)
    ensures Consistent(Finish(t, s)) && Extends(t, Finish(t, s))
  {
  }

  lemma {:induction false} RunKeeps(st: ParseState, lines: seq<string>)
    requires Consistent(st.table)
    ensures Consistent(Run(st, lines).table) && Extends(st.table, Run(st, lines).table)
    decreases |lines|
  {
    if lines != [] {
      FinishKeeps(st.table, st.section);
      RunKeeps(StepLine(st, lines[0]), lines[1..]);
    }
  }

  /** Parsing any text keeps the index exact and never touches what is already defined. */
  lemma ParseKeeps(t: Table, content: string)
    requires Consistent(t)
    ensures Consistent(Parse(t, content)) && Extends(t, Parse(t, content))
  {
    var st := Run(ParseState(t, NoSection), Split(content, '\n'));
    RunKeeps(ParseState(t, NoSection), Split(content, '\n'));
    FinishKeeps(st.table, st.section);
  }

  /** Parsed services have never run. */
  predicate NeverRun(s: InitService) {
    s.status == Stopped && s.pid == -1
  }

  predicate AllNeverRun(t: Table) {
    forall i :: 0 <= i < |t.services| ==> NeverRun(t.services[i])
  }

  lemma {:induction false} RunNeverRuns(st: ParseState, lines: seq<string>)
    requires AllNeverRun(st.table) && (st.section.InService? ==> NeverRun(st.section.service))
    ensures var r := Run(st, lines); AllNeverRun(r.table) && (r.section.InService? ==> NeverRun(r.section.service))
    decreases |lines|
  {
    if lines != [] {
      RunNeverRuns(StepLine(st, lines[0]), lines[1..]);
    }
  }

  lemma ParseNeverRuns(t: Table, content: string)
    requires AllNeverRun(t)
    ensures AllNeverRun(Parse(t, content))
  {
    RunNeverRuns(ParseState(t, NoSection), Split(content, '\n'));
  }

  /** Linear search by name. */
  function Search(services: seq<InitService>, name: string): Option<nat> {
    if services == [] then None
    else if services[0].name == name then Some(0)
    else match Search(services[1..], name)
      case None => None
      case Some(i) => Some(i + 1)
  }

  lemma {:induction false} SearchFirst(services: seq<InitService>, name: string)
    ensures Search(services, name).Some? ==>
              var i := Search(services, name).value; i < |services| && services[i].name == name
    ensures Search(services, name) == None ==> forall i :: 0 <= i < |services| ==> services[i].name != name
  {
    if services != [] {
      SearchFirst(services[1..], name);
    }
  }

  /** Looking up the index map finds what a linear search finds. */
  lemma IndexAgreesWithSearch(t: Table, name: string)
    requires Consistent(t)
    ensures Search(t.services, name) == if name in t.index then Some(t.index[name]) else None
  {
    SearchFirst(t.services, name);
  }

  // ---------------------------------------------------------------------------
  // One script after another
  // ---------------------------------------------------------------------------

  /** The first line that counts, if any, opens a section. */
  predicate StartsWithHeader(lines: seq<string>) {
    lines == [] ||
    (if Significant(lines[0]) then IsHeader(Tokens(Trim(lines[0]))) else StartsWithHeader(lines[1..]))
  }

  lemma {:induction false} HeaderForgets(st: ParseState, lines: seq<string>)
    requires StartsWithHeader(lines)
    ensures Closed(Run(st, lines)) == Closed(Run(ParseState(Closed(st), NoSection), lines))
  {
    if lines != [] && !Significant(lines[0]) {
      HeaderForgets(st, lines[1..]);
    }
  }

  /** Where a parse stands at the end of a text, before its last section is closed. */
  function StateAfter(t: Table, content: string): ParseState {
    Run(ParseState(t, NoSection), Split(content, '\n'))
  }

  lemma RunTwo(t: Table, a: string, b: string)
    requires a == "" || a[|a| - 1] == '\n'
    ensures Run(ParseState(t, NoSection), Split(a + b, '\n'))
         == Run(Run(ParseState(t, NoSection), Split(a, '\n')), Split(b, '\n'))
  {
    if a == "" {
      assert a + b == b;
      SplitEmpty('\n');
    } else {
      var front := a[..|a| - 1];
      assert a == front + ['\n'] && a + b == front + ['\n'] + b;
      SplitAppend(front, '\n', b);
      RunAppend(ParseState(t, NoSection), Split(a, '\n'), Split(b, '\n'));
    }
  }

  /** Parsing A and then B is parsing A and B as one text when B's first significant line is a header. */
  lemma ParseConcatenation(t: Table, a: string, b: string)
    requires a == "" || a[|a| - 1] == '\n'
    requires StartsWithHeader(Split(b, '\n'))
    ensures Parse(t, a + b) == Parse(Parse(t, a), b)
  {
    RunTwo(t, a, b);
    HeaderForgets(Run(ParseState(t, NoSection), Split(a, '\n')), Split(b, '\n'));
  }

  /** What an open section makes of the lines before the first header, and the lines from there on. */
  function Gathered(section: Section, lines: seq<string>): Section
    decreases |lines|
  {
    if lines == [] then section
    else if !Significant(lines[0]) then Gathered(section, lines[1..])
    else if IsHeader(Tokens(Trim(lines[0]))) then section
    else Gathered(Gather(section, Trim(lines[0])), lines[1..])
  }

  function Gather(section: Section, trimmed: string): Section {
    match section
    case NoSection => NoSection
    case InAction(a) => InAction(a.(commands := a.commands + [trimmed]))
    case InService(s) => InService(if Tokens(trimmed) == [] then s else Directive(s, Tokens(trimmed)))
  }

  function FromHeader(lines: seq<string>): seq<string> {
    if lines == [] || (Significant(lines[0]) && IsHeader(Tokens(Trim(lines[0])))) then lines
    else FromHeader(lines[1..])
  }

  /** A parse from inside a section closes the section with what it gathers and goes on at the header. */
  lemma {:induction false} GathersThenCloses(t: Table, section: Section, lines: seq<string>)
    ensures Closed(Run(ParseState(t, section), lines))
         == Closed(Run(ParseState(Finish(t, Gathered(section, lines)), NoSection), FromHeader(lines)))
    decreases |lines|
  {
    hide Finish, IsHeader, Tokens, Trim, Directive, OpenSection;
    FinishNothing(Finish(t, section));
    if lines != [] {
      var st := ParseState(t, section);
      if !Significant(lines[0]) {
        GathersThenCloses(t, section, lines[1..]);
      } else if IsHeader(Tokens(Trim(lines[0]))) {
        assert StepLine(ParseState(Finish(t, section), NoSection), lines[0]) == StepLine(st, lines[0]);
      } else {
        GathersThenCloses(t, Gather(section, Trim(lines[0])), lines[1..]);
        assert StepLine(st, lines[0]) == ParseState(t, Gather(section, Trim(lines[0])));
      }
    }
  }

  lemma FinishNothing(t: Table)
    ensures Finish(t, NoSection) == t
  {
  }

  /** Outside any section nothing is gathered. */
  lemma {:induction false} NothingGathers(lines: seq<string>)
    ensures Gathered(NoSection, lines) == NoSection
    decreases |lines|
  {
    if lines != [] {
      NothingGathers(lines[1..]);
    }
  }

  /** An action gathers a command of every line, so it stays as it is exactly in front of a header. */
  lemma {:induction false} ActionGathers(a: InitAction, lines: seq<string>)
    ensures Gathered(InAction(a), lines).InAction?
    ensures Gathered(InAction(a), lines).action.trigger == a.trigger
    ensures |a.commands| <= |Gathered(InAction(a), lines).action.commands|
    ensures |Gathered(InAction(a), lines).action.commands| == |a.commands| <==> StartsWithHeader(lines)
    ensures Gathered(InAction(a), lines) == InAction(a) <==> StartsWithHeader(lines)
    decreases |lines|
  {
    hide IsHeader, Tokens, Trim;
    if lines != [] {
      if !Significant(lines[0]) {
        ActionGathers(a, lines[1..]);
      } else if !IsHeader(Tokens(Trim(lines[0]))) {
        ActionGathers(a.(commands := a.commands + [Trim(lines[0])]), lines[1..]);
      }
    }
  }

  lemma {:induction false} ServiceGathers(s: InitService, lines: seq<string>)
    ensures Gathered(InService(s), lines).InService?
    ensures Gathered(InService(s), lines).service.name == s.name
    decreases |lines|
  {
    hide IsHeader, Tokens, Trim;
    if lines != [] {
      if !Significant(lines[0]) {
        ServiceGathers(s, lines[1..]);
      } else if !IsHeader(Tokens(Trim(lines[0]))) {
        ServiceGathers(Gather(InService(s), Trim(lines[0])).service, lines[1..]);
      }
    }
  }

  lemma {:induction false} GrowsFrom(st: ParseState, lines: seq<string>)
    ensures Extends(st.table, Closed(Run(st, lines)))
    decreases |lines|
  {
    if lines != [] {
      var next := StepLine(st, lines[0]);
      assert Extends(st.table, next.table);
      GrowsFrom(next, lines[1..]);
      hide StepLine, Run, Closed;
    }
  }

  lemma {:induction false} TokensNotEmpty(s: string)
    ensures forall i :: 0 <= i < |Tokens(s)| ==> Tokens(s)[i] != ""
    decreases |s|
  {
    if s != "" {
      if StreamSpace(s[0]) {
        TokensNotEmpty(s[1..]);
      } else {
        TokensNotEmpty(s[WordLength(s)..]);
      }
    }
  }

  /** An open section always has a name. */
  predicate Named(section: Section) {
    match section
    case NoSection => true
    case InAction(a) => a.trigger != ""
    case InService(s) => s.name != ""
  }

  lemma StepNamed(st: ParseState, line: string)
    requires Named(st.section)
    ensures Named(StepLine(st, line).section)
  {
    TokensNotEmpty(Trim(line));
    hide Tokens, Trim;
  }

  lemma {:induction false} RunNamed(st: ParseState, lines: seq<string>)
    requires Named(st.section)
    ensures Named(Run(st, lines).section)
    decreases |lines|
  {
    if lines != [] {
      StepNamed(st, lines[0]);
      RunNamed(StepLine(st, lines[0]), lines[1..]);
    }
  }

  /** The lines before B's first header do nothing to the section A ends in: there is none; or it is an
      action and there are no such lines; or it is a service that is dropped as a second definition, or
      that these lines leave as it is. */
  predicate Unaffected(t: Table, section: Section, lines: seq<string>) {
    match section
    case NoSection => true
    case InAction(_) => StartsWithHeader(lines)
    case InService(s) => s.name in t.index || Gathered(section, lines) == section
  }

  lemma UnaffectedCloses(t: Table, section: Section, lines: seq<string>)
    requires Named(section)
    ensures Unaffected(t, section, lines) ==> Finish(t, Gathered(section, lines)) == Finish(t, section)
  {
    match section
    case NoSection => NothingGathers(lines);
    case InAction(a) => ActionGathers(a, lines);
    case InService(s) => ServiceGathers(s, lines);
  }

  /** Two tables grown from different closings of the same section stay different. */
  lemma AffectedDiffers(t: Table, section: Section, lines: seq<string>, x: Table, y: Table)
    requires Named(section) && !Unaffected(t, section, lines)
    requires Extends(Finish(t, Gathered(section, lines)), x) && Extends(Finish(t, section), y)
    ensures x != y
  {
    hide Gathered, StartsWithHeader;
    match section
    case InAction(a) =>
      ActionGathers(a, lines);
      assert x.actions[|t.actions|] == Gathered(section, lines).action && y.actions[|t.actions|] == a;
    case InService(s) =>
      ServiceGathers(s, lines);
      assert x.services[|t.services|] == Gathered(section, lines).service && y.services[|t.services|] == s;
  }

  /** Parsing A and then B is parsing A and B as one text exactly when the lines before B's first header
      do nothing to the section A ends in. */
  lemma ConcatenationExact(t: Table, a: string, b: string)
    requires a == "" || a[|a| - 1] == '\n'
    ensures Parse(t, a + b) == Parse(Parse(t, a), b)
       <==> Unaffected(StateAfter(t, a).table, StateAfter(t, a).section, Split(b, '\n'))
  {
    var st, lines := StateAfter(t, a), Split(b, '\n');
    RunTwo(t, a, b);
    RunNamed(ParseState(t, NoSection), Split(a, '\n'));
    hide Run, Split, Gathered, FromHeader, Finish, Unaffected, Named, Extends;
    GathersThenCloses(st.table, st.section, lines);
    GathersThenCloses(Closed(st), NoSection, lines);
    NothingGathers(lines);
    FinishNothing(Closed(st));
    UnaffectedCloses(st.table, st.section, lines);
    if !Unaffected(st.table, st.section, lines) {
      GrowsFrom(ParseState(Finish(st.table, Gathered(st.section, lines)), NoSection), FromHeader(lines));
      GrowsFrom(ParseState(Finish(st.table, st.section), NoSection), FromHeader(lines));
      AffectedDiffers(st.table, st.section, lines, Parse(t, a + b), Parse(Parse(t, a), b));
    }
  }

  /** A service at the end of A takes up a directive at the start of B, whatever its name and path. */
  lemma ServiceTakesDirective(t: Table, name: string, path: string)
    requires Word(name) && Word(path) && name !in t.index
    ensures var a, b := Join(["service", name, path]) + "\n", Join(["disabled"]) + "\n";
            Parse(t, a + b) != Parse(Parse(t, a), b)
  {
    hide Parse, Gathered, StateAfter, Join, Trim, Tokens, Unaffected, Split;
    var head, tail, s := Join(["service", name, path]), Join(["disabled"]), FreshService(name, path, []);
    JoinShape(["service", name, path]);
    JoinShape(["disabled"]);
    OneLineSplit(tail);
    AfterHeader(t, name, path);
    PrintedDirective();
    GatherOne(s, tail);
    ConcatenationExact(t, head + "\n", tail + "\n");
    DisabledAffects(t, s, tail);
  }

  lemma AfterHeader(t: Table, name: string, path: string)
    requires Word(name) && Word(path)
    ensures StateAfter(t, Join(["service", name, path]) + "\n")
         == ParseState(t, InService(FreshService(name, path, [])))
  {
    hide StateAfter, StepLine, Join, StepTokens;
    var words := ["service", name, path];
    JoinShape(words);
    AfterOneLine(t, Join(words));
    StepWords(ParseState(t, NoSection), "", words);
    assert "" + Join(words) == Join(words);
    ServiceOpens(t, Join(words), name, path);
  }

  lemma AfterOneLine(t: Table, line: string)
    requires '\n' !in line
    ensures StateAfter(t, line + "\n") == StepLine(ParseState(t, NoSection), line)
  {
    hide StepLine, Split;
    OneLineSplit(line);
    RunOne(ParseState(t, NoSection), line);
  }

  lemma ServiceOpens(t: Table, trimmed: string, name: string, path: string)
    ensures StepTokens(ParseState(t, NoSection), trimmed, ["service", name, path])
         == ParseState(t, InService(FreshService(name, path, [])))
  {
    assert ["service", name, path][3..] == [];
  }

  lemma PrintedDirective()
    ensures Trim(Join(["disabled"])) == Join(["disabled"]) && Tokens(Join(["disabled"])) == ["disabled"]
  {
    var line := Join(["disabled"]);
    JoinShape(["disabled"]);
    JoinTokens(["disabled"]);
    TrimPadded("", line, "");
    hide Trim, Tokens, Join;
    assert "" + line + "" == line;
  }

  lemma DisabledAffects(t: Table, s: InitService, line: string)
    requires s.name !in t.index && Gathered(InService(s), [line]) != InService(s)
    ensures !Unaffected(t, InService(s), [line])
  {
  }

  lemma OneLineSplit(line: string)
    requires '\n' !in line
    ensures Split(line + "\n", '\n') == [line]
  {
    SplitUnsplit([line], '\n');
    assert Unsplit([line], '\n') == line + "\n" + Unsplit([], '\n');
  }

  lemma GatherOne(s: InitService, line: string)
    requires Trim(line) == line && line != "" && line[0] != '#' && Tokens(line) == ["disabled"] && !s.isDisabled
    ensures Gathered(InService(s), [line]) != InService(s)
  {
    assert Directive(s, ["disabled"]) == s.(isDisabled := true);
    hide Directive, Tokens, Trim;
    assert [line][1..] == [];
    assert !IsHeader(Tokens(line)) && Significant(line);
    GatheredNone(InService(s.(isDisabled := true)));
  }

  lemma GatheredNone(section: Section)
    ensures Gathered(section, []) == section
  {
  }

  // ---------------------------------------------------------------------------
  // Printing
  // ---------------------------------------------------------------------------

  datatype Item = ActionItem(action: InitAction) | ServiceItem(service: InitService)

  predicate Word(w: string) {
    w != "" && forall i :: 0 <= i < |w| ==> !StreamSpace(w[i])
  }

  predicate Words(ws: seq<string>) {
    forall i :: 0 <= i < |ws| ==> Word(ws[i])
  }

  /** A command line that survives: one trimmed line that is neither a comment nor a header. */
  predicate PrintableCommand(c: string) {
    && c != "" && Trimmed(c) && c[0] != '#' && '\n' !in c && Tokens(c) != [] && !IsHeader(Tokens(c))
  }

  predicate Printable(item: Item) {
    match item
    case ActionItem(a) =>
      Word(a.trigger) && forall i :: 0 <= i < |a.commands| ==> PrintableCommand(a.commands[i])
    case ServiceItem(s) =>
      && Word(s.name) && Word(s.binaryPath) && Words(s.args) && Words(s.classes) && s.classes != []
      && Word(s.user) && Words(s.groups) && s.status == Stopped && s.pid == -1
      && forall i :: 0 <= i < |s.envVars| ==> Word(s.envVars[i].0) && Word(s.envVars[i].1)
  }

  function Join(ws: seq<string>): string {
    if ws == [] then "" else if |ws| == 1 then ws[0] else ws[0] + " " + Join(ws[1..])
  }

  const INDENT: string := "    "

  function CommandLines(cs: seq<string>): seq<string> {
    seq(|cs|, i requires 0 <= i < |cs| => INDENT + cs[i])
  }

  function EnvLines(vars: seq<(string, string)>): seq<string> {
    seq(|vars|, i requires 0 <= i < |vars| => INDENT + Join(["setenv", vars[i].0, vars[i].1]))
  }

  /** The optional lines of a service. */
  function GroupLines(s: InitService): seq<string> {
    if s.groups == [] then [] else [INDENT + Join(["group"] + s.groups)]
  }

  function FlagLines(s: InitService): seq<string> {
    (if s.isCritical then [INDENT + Join(["critical"])] else [])
    + (if s.isDisabled then [INDENT + Join(["disabled"])] else [])
  }

  function ItemLines(item: Item): seq<string> {
    match item
    case ActionItem(a) => ["" + Join(["on", a.trigger])] + CommandLines(a.commands)
    case ServiceItem(s) =>
      ["" + Join(["service", s.name, s.binaryPath] + s.args)]
      + [INDENT + Join(["class"] + s.classes)]
      + [INDENT + Join(["user", s.user])]
      + GroupLines(s) + FlagLines(s) + EnvLines(s.envVars)
  }

  function AllLines(items: seq<Item>): seq<string> {
    if items == [] then [] else ItemLines(items[0]) + AllLines(items[1..])
  }

  function Print(items: seq<Item>): string {
    Unsplit(AllLines(items), '\n')
  }

  /** What the items define: actions in order, services in order, the first definition of a name winning. */
  function Define(t: Table, items: seq<Item>): Table
    decreases |items|
  {
    if items == [] then t
    else match items[0]
      case ActionItem(a) => Define(t.(actions := t.actions + [a]), items[1..])
      case ServiceItem(s) => Define(AddService(t, s), items[1..])
  }

  /** The actions among the items. */
  function ActionsOf(items: seq<Item>): seq<InitAction> {
    if items == [] then []
    else (if items[0].ActionItem? then [items[0].action] else []) + ActionsOf(items[1..])
  }

  /** The services among the items whose names are not known and that no earlier item has. */
  function FirstDefinitions(known: set<string>, items: seq<Item>): seq<InitService>
    decreases |items|
  {
    if items == [] then []
    else if items[0].ActionItem? || items[0].service.name in known then FirstDefinitions(known, items[1..])
    else [items[0].service] + FirstDefinitions(known + {items[0].service.name}, items[1..])
  }

  /** Items append their actions and first definitions, each as it is, and nothing else. */
  lemma {:induction false} DefineAppends(t: Table, items: seq<Item>)
    requires Consistent(t)
    ensures var u := Define(t, items);
            && Consistent(u) && u.actions == t.actions + ActionsOf(items)
            && u.services == t.services + FirstDefinitions(t.index.Keys, items)
    decreases |items|
  {
    if items == [] {
      assert t.actions + [] == t.actions && t.services + [] == t.services;
    } else {
      var rest := items[1..];
      match items[0]
      case ActionItem(a) =>
        var next := t.(actions := t.actions + [a]);
        DefineAppends(next, rest);
        Assoc(t.actions, [a], ActionsOf(rest));
      case ServiceItem(s) =>
        var next := AddService(t, s);
        assert Consistent(next);
        DefineAppends(next, rest);
        if s.name !in t.index {
          assert next.index.Keys == t.index.Keys + {s.name};
          Assoc(t.services, [s], FirstDefinitions(next.index.Keys, rest));
        }
        assert [] + ActionsOf(rest) == ActionsOf(rest);
    }
  }

  lemma {:induction false} JoinShape(ws: seq<string>)
    requires Words(ws) && ws != []
    ensures Join(ws) != "" && Trimmed(Join(ws)) && '\n' !in Join(ws) && Join(ws)[0] == ws[0][0]
    decreases |ws|
  {
    if |ws| > 1 {
      JoinShape(ws[1..]);
      assert Join(ws) == ws[0] + " " + Join(ws[1..]);
    }
  }

  /** The words of a joined line are read back. */
  lemma {:induction false} JoinTokens(ws: seq<string>)
    requires Words(ws) && ws != []
    ensures Tokens(Join(ws)) == ws
    decreases |ws|
  {
    var w := ws[0];
    if |ws| == 1 {
      TokensWord(w, "");
      assert w + "" == w && Tokens("") == [] && [w] + [] == ws;
    } else {
      JoinTokens(ws[1..]);
      var rest := Join(ws[1..]);
      assert Join(ws) == w + (" " + rest) by { Assoc(w, " ", rest); }
      TokensWord(w, " " + rest);
      TokensBlank(rest);
      hide Tokens, Join;
      assert ws == [w] + ws[1..];
    }
  }

  lemma TokensBlank(s: string)
    ensures Tokens(" " + s) == Tokens(s)
  {
    assert (" " + s)[1..] == s;
  }

  lemma TokensWord(w: string, tail: string)
    requires Word(w) && (tail != "" ==> StreamSpace(tail[0]))
    ensures Tokens(w + tail) == [w] + Tokens(tail)
  {
    var s := w + tail;
    WordEnds(s, |w|);
    assert s[..|w|] == w && s[|w|..] == tail;
  }

  lemma {:induction false} WordEnds(s: string, k: nat)
    requires k <= |s| && (forall j :: 0 <= j < k ==> !StreamSpace(s[j])) && (k < |s| ==> StreamSpace(s[k]))
    ensures WordLength(s) == k
  {
    if k > 0 {
      WordEnds(s[1..], k - 1);
    }
  }

  /** A printed line of words, indented or not, is stepped over as exactly those words. */
  lemma StepWords(st: ParseState, pad: string, ws: seq<string>)
    requires Words(ws) && ws != [] && ws[0][0] != '#' && AllBlank(pad)
    ensures StepLine(st, pad + Join(ws)) == StepTokens(st, Join(ws), ws)
  {
    JoinShape(ws);
    JoinTokens(ws);
    TrimPadded(pad, Join(ws), "");
    assert pad + Join(ws) + "" == pad + Join(ws);
    hide Join, Tokens, Trim;
  }

  lemma StepCommand(st: ParseState, c: string)
    requires PrintableCommand(c) && st.section.InAction?
    ensures StepLine(st, INDENT + c)
         == st.(section := InAction(st.section.action.(commands := st.section.action.commands + [c])))
  {
    TrimPadded(INDENT, c, "");
    assert INDENT + c + "" == INDENT + c;
  }

  lemma {:induction false} RunCommands(t: Table, a: InitAction, cs: seq<string>)
    requires forall i :: 0 <= i < |cs| ==> PrintableCommand(cs[i])
    ensures Run(ParseState(t, InAction(a)), CommandLines(cs))
         == ParseState(t, InAction(a.(commands := a.commands + cs)))
    decreases |cs|
  {
    hide Run, StepLine, PrintableCommand;
    if cs == [] {
      assert a.commands + cs == a.commands && CommandLines(cs) == [];
      RunNothing(ParseState(t, InAction(a)));
    } else {
      assert CommandLines(cs) == [INDENT + cs[0]] + CommandLines(cs[1..]);
      RunCons(ParseState(t, InAction(a)), INDENT + cs[0], CommandLines(cs[1..]));
      StepCommand(ParseState(t, InAction(a)), cs[0]);
      RunCommands(t, a.(commands := a.commands + [cs[0]]), cs[1..]);
      Assoc(a.commands, [cs[0]], cs[1..]);
      assert [cs[0]] + cs[1..] == cs;
    }
  }

  lemma {:induction false} RunEnv(t: Table, s: InitService, vars: seq<(string, string)>)
    requires forall i :: 0 <= i < |vars| ==> Word(vars[i].0) && Word(vars[i].1)
    ensures Run(ParseState(t, InService(s)), EnvLines(vars))
         == ParseState(t, InService(s.(envVars := s.envVars + vars)))
    decreases |vars|
  {
    hide Run, StepLine, Join;
    if vars == [] {
      assert s.envVars + vars == s.envVars && EnvLines(vars) == [];
      RunNothing(ParseState(t, InService(s)));
    } else {
      var line := INDENT + Join(["setenv", vars[0].0, vars[0].1]);
      assert EnvLines(vars) == [line] + EnvLines(vars[1..]);
      RunCons(ParseState(t, InService(s)), line, EnvLines(vars[1..]));
      StepWords(ParseState(t, InService(s)), INDENT, ["setenv", vars[0].0, vars[0].1]);
      RunEnv(t, s.(envVars := s.envVars + [vars[0]]), vars[1..]);
      Assoc(s.envVars, [vars[0]], vars[1..]);
      assert [vars[0]] + vars[1..] == vars;
    }
  }

  lemma RunOne(st: ParseState, line: string)
    ensures Run(st, [line]) == StepLine(st, line)
  {
    assert [line][1..] == [];
  }

  lemma RunNothing(st: ParseState)
    ensures Run(st, []) == st
  {
  }

  lemma RunCons(st: ParseState, line: string, lines: seq<string>)
    ensures Run(st, [line] + lines) == Run(StepLine(st, line), lines)
  {
    assert ([line] + lines)[1..] == lines;
  }

  lemma RunGroups(t: Table, s: InitService, groups: seq<string>)
    requires Words(groups) && s.groups == []
    ensures Run(ParseState(t, InService(s)), if groups == [] then [] else [INDENT + Join(["group"] + groups)])
         == ParseState(t, InService(s.(groups := groups)))
  {
    if groups != [] {
      var ws := ["group"] + groups;
      RunOne(ParseState(t, InService(s)), INDENT + Join(ws));
      StepWords(ParseState(t, InService(s)), INDENT, ws);
      assert ws[1..] == groups && [] + groups == groups;
    }
  }

  lemma RunFlag(st: ParseState, word: string, on: bool)
    requires Word(word) && word[0] != '#'
    ensures Run(st, if on then [INDENT + Join([word])] else [])
         == if on then StepTokens(st, Join([word]), [word]) else st
  {
    hide StepLine, Join;
    if on {
      RunOne(st, INDENT + Join([word]));
      StepWords(st, INDENT, [word]);
    }
  }

  lemma RunFlags(t: Table, s: InitService, p: InitService)
    requires !s.isCritical && !s.isDisabled
    ensures Run(ParseState(t, InService(s)), FlagLines(p))
         == ParseState(t, InService(s.(isCritical := p.isCritical, isDisabled := p.isDisabled)))
  {
    hide Run, Join;
    var st := ParseState(t, InService(s));
    var mid := ParseState(t, InService(s.(isCritical := p.isCritical)));
    RunFlag(st, "critical", p.isCritical);
    RunFlag(mid, "disabled", p.isDisabled);
    RunAppend(st, if p.isCritical then [INDENT + Join(["critical"])] else [],
              if p.isDisabled then [INDENT + Join(["disabled"])] else []);
  }

  /** The lines of an item close whatever was open and leave the item itself as the open section. */
  lemma RunItem(st: ParseState, item: Item)
    requires Printable(item)
    ensures Run(st, ItemLines(item))
         == ParseState(Closed(st), match item case ActionItem(a) => InAction(a) case ServiceItem(s) => InService(s))
  {
    match item
    case ActionItem(a) =>
      var ws := ["on", a.trigger];
      RunAppend(st, ["" + Join(ws)], CommandLines(a.commands));
      RunOne(st, "" + Join(ws));
      StepWords(st, "", ws);
      RunCommands(Closed(st), InitAction(a.trigger, []), a.commands);
      assert [] + a.commands == a.commands;
    case ServiceItem(s) =>
      RunService(st, s);
  }

  lemma RunService(st: ParseState, s: InitService)
    requires Printable(ServiceItem(s))
    ensures Run(st, ItemLines(ServiceItem(s))) == ParseState(Closed(st), InService(s))
  {
    hide Run, StepLine, Join;
    var t := Closed(st);
    var head, cls, user := ["service", s.name, s.binaryPath] + s.args, ["class"] + s.classes, ["user", s.user];
    assert head[3..] == s.args && cls[1..] == s.classes;
    var s0 := FreshService(s.name, s.binaryPath, s.args);
    var st0, st1, st2 := ParseState(t, InService(s0)), ParseState(t, InService(s0.(classes := s.classes))),
                         ParseState(t, InService(s0.(classes := s.classes, user := s.user)));
    assert Run(st, ["" + Join(head)]) == st0 by {
      RunOne(st, "" + Join(head));
      StepWords(st, "", head);
    }
    assert Run(st0, [INDENT + Join(cls)]) == st1 by {
      RunOne(st0, INDENT + Join(cls));
      StepWords(st0, INDENT, cls);
    }
    assert Run(st1, [INDENT + Join(user)]) == st2 by {
      RunOne(st1, INDENT + Join(user));
      StepWords(st1, INDENT, user);
    }
    RunTail(t, s, s0.(classes := s.classes, user := s.user));
    var l0, l1, l2 := ["" + Join(head)], [INDENT + Join(cls)], [INDENT + Join(user)];
    var tail := GroupLines(s) + FlagLines(s) + EnvLines(s.envVars);
    RunAppend(st, l0, l1);
    RunAppend(st, l0 + l1, l2);
    RunAppend(st, l0 + l1 + l2, tail);
    assert l0 + l1 + l2 + tail == ItemLines(ServiceItem(s));
  }

  lemma RunTail(t: Table, s: InitService, from: InitService)
    requires Printable(ServiceItem(s))
    requires from.groups == [] && !from.isCritical && !from.isDisabled && from.envVars == []
    requires from.(groups := s.groups, isCritical := s.isCritical, isDisabled := s.isDisabled, envVars := s.envVars)
          == s
    ensures Run(ParseState(t, InService(from)), GroupLines(s) + FlagLines(s) + EnvLines(s.envVars))
         == ParseState(t, InService(s))
  {
    var st := ParseState(t, InService(from));
    RunAppend(st, GroupLines(s) + FlagLines(s), EnvLines(s.envVars));
    RunAppend(st, GroupLines(s), FlagLines(s));
    RunGroups(t, from, s.groups);
    RunFlags(t, from.(groups := s.groups), s);
    RunEnv(t, from.(groups := s.groups, isCritical := s.isCritical, isDisabled := s.isDisabled), s.envVars);
    assert [] + s.envVars == s.envVars;
  }

  lemma {:induction false} RunItems(st: ParseState, items: seq<Item>)
    requires forall i :: 0 <= i < |items| ==> Printable(items[i])
    ensures Closed(Run(st, AllLines(items))) == Define(Closed(st), items)
    decreases |items|
  {
    if items != [] {
      RunAppend(st, ItemLines(items[0]), AllLines(items[1..]));
      RunItem(st, items[0]);
      RunItems(Run(st, ItemLines(items[0])), items[1..]);
    }
  }

  predicate OneLiners(lines: seq<string>) {
    forall i :: 0 <= i < |lines| ==> '\n' !in lines[i]
  }

  lemma {:induction false} LinesHaveNoNewline(items: seq<Item>)
    requires forall i :: 0 <= i < |items| ==> Printable(items[i])
    ensures OneLiners(AllLines(items))
  {
    if items != [] {
      ItemHasNoNewline(items[0]);
      LinesHaveNoNewline(items[1..]);
    }
  }

  lemma OneLine(pad: string, ws: seq<string>)
    requires Words(ws) && ws != [] && AllBlank(pad) && '\n' !in pad
    ensures OneLiners([pad + Join(ws)])
  {
    JoinShape(ws);
  }

  lemma ItemHasNoNewline(item: Item)
    requires Printable(item)
    ensures OneLiners(ItemLines(item))
  {
    hide Join, OneLiners, FlagLines, GroupLines, EnvLines, CommandLines;
    match item
    case ActionItem(a) =>
      OneLine("", ["on", a.trigger]);
      CommandsHaveNoNewline(a.commands);
      OneLinersJoin(["" + Join(["on", a.trigger])], CommandLines(a.commands));
    case ServiceItem(s) =>
      var l0, l1 := ["" + Join(["service", s.name, s.binaryPath] + s.args)], [INDENT + Join(["class"] + s.classes)];
      var l2 := [INDENT + Join(["user", s.user])];
      OneLine("", ["service", s.name, s.binaryPath] + s.args);
      OneLine(INDENT, ["class"] + s.classes);
      OneLine(INDENT, ["user", s.user]);
      GroupsHaveNoNewline(s);
      FlagsHaveNoNewline(s);
      EnvHasNoNewline(s.envVars);
      OneLinersJoin(l0, l1);
      OneLinersJoin(l0 + l1, l2);
      OneLinersJoin(l0 + l1 + l2, GroupLines(s));
      OneLinersJoin(l0 + l1 + l2 + GroupLines(s), FlagLines(s));
      OneLinersJoin(l0 + l1 + l2 + GroupLines(s) + FlagLines(s), EnvLines(s.envVars));
  }

  lemma OneLinersJoin(a: seq<string>, b: seq<string>)
    requires OneLiners(a) && OneLiners(b)
    ensures OneLiners(a + b)
  {
  }

  lemma CommandsHaveNoNewline(cs: seq<string>)
    requires forall i :: 0 <= i < |cs| ==> PrintableCommand(cs[i])
    ensures OneLiners(CommandLines(cs))
  {
  }

  lemma GroupsHaveNoNewline(s: InitService)
    requires Words(s.groups)
    ensures OneLiners(GroupLines(s))
  {
    hide Join;
    if s.groups != [] {
      OneLine(INDENT, ["group"] + s.groups);
    }
  }

  lemma FlagsHaveNoNewline(s: InitService)
    ensures OneLiners(FlagLines(s))
  {
    hide Join;
    OneLine(INDENT, ["critical"]);
    OneLine(INDENT, ["disabled"]);
  }

  lemma EnvHasNoNewline(vars: seq<(string, string)>)
    requires forall i :: 0 <= i < |vars| ==> Word(vars[i].0) && Word(vars[i].1)
    ensures OneLiners(EnvLines(vars))
  {
    hide Join;
    forall i | 0 <= i < |vars| ensures '\n' !in EnvLines(vars)[i] {
      OneLine(INDENT, ["setenv", vars[i].0, vars[i].1]);
      assert EnvLines(vars)[i] == [INDENT + Join(["setenv", vars[i].0, vars[i].1])][0];
    }
  }

  /** Printing any list of actions and services and parsing the text, into any table, defines exactly
      those items, the first definition of each service name winning. */
  lemma PrintParse(t: Table, items: seq<Item>)
    requires forall i :: 0 <= i < |items| ==> Printable(items[i])
    ensures Parse(t, Print(items)) == Define(t, items)
  {
    LinesHaveNoNewline(items);
    SplitUnsplit(AllLines(items), '\n');
    RunItems(ParseState(t, NoSection), items);
  }

  /** In terms of what is defined: parsing a printed text appends the actions in order and, in order, each
      service that is not defined yet and not a second definition of a name; nothing else changes. */
  lemma PrintDefines(t: Table, items: seq<Item>)
    requires Consistent(t) && forall i :: 0 <= i < |items| ==> Printable(items[i])
    ensures var u := Parse(t, Print(items));
            && Consistent(u) && u.actions == t.actions + ActionsOf(items)
            && u.services == t.services + FirstDefinitions(t.index.Keys, items)
  {
    PrintParse(t, items);
    DefineAppends(t, items);
  }

  lemma HeaderText(name: string, path: string)
    ensures Join(["service", name, path]) + "\n" == "service " + name + " " + path + "\n"
  {
    assert ["service", name, path][1..] == [name, path] && [name, path][1..] == [path];
    assert Join([name, path]) == name + " " + Join([path]) && Join([path]) == path;
    assert Join(["service", name, path]) == "service" + " " + (name + " " + path);
    assert "service" + " " == "service ";
  }

  /** A header alone defines a service of class "main" and user "root", neither critical nor disabled. */
  lemma BareService(t: Table, name: string, path: string)
    requires Consistent(t) && Word(name) && Word(path) && name !in t.index
    ensures var u := Parse(t, "service " + name + " " + path + "\n");
            && Consistent(u) && u.actions == t.actions
            && u.services
               == t.services + [InitService(name, path, [], ["main"], "root", [], false, false, [], Stopped, -1)]
  {
    var line := Join(["service", name, path]);
    HeaderText(name, path);
    AfterHeader(t, name, path);
    assert Consistent(AddService(t, FreshService(name, path, [])));
    hide Join, Run, Split;
  }

  /** A word stands alone, and exactly six characters part two words. */
  lemma WordsPart(v: string, c: char, w: string)
    requires Word(v) && Word(w)
    ensures Tokens(v + [c] + w) == if c in " \t\r\n\U{0b}\U{0c}" then [v, w] else [v + [c] + w]
  {
    TokensWord(w, "");
    assert w + "" == w && Tokens("") == [] && [w] + [] == [w];
    if c in " \t\r\n\U{0b}\U{0c}" {
      TokensWord(v, [c] + w);
      assert v + [c] + w == v + ([c] + w) && ([c] + w)[1..] == w;
      assert Tokens([c] + w) == Tokens(w);
    } else {
      var x := v + [c] + w;
      TokensWord(x, "");
      assert x + "" == x && [x] + [] == [x];
    }
  }
}
