/** The property text file: printed by `flushPropertiesToFile` in property_service.cpp, read back line
    by line into C strings by `loadPropertyCacheFromDisk` in hook_engine.cpp. */
module PropertyFile {
  import opened Bytes
  import opened Text

  const NUL: char := '\0'
  const LINE_BUFFER: nat := 1024
  const LONGEST_ENTRY: nat := 1017

  // ---------------------------------------------------------------------------
  // Printing
  // ---------------------------------------------------------------------------

  function Codes(s: string): seq<int> {
    seq(|s|, i requires 0 <= i < |s| => s[i] as int)
  }

  predicate StringLess(a: string, b: string) {
    LexLess(Codes(a), Codes(b))
  }

  lemma CodesInjective(a: string, b: string)
    requires Codes(a) == Codes(b)
    ensures a == b
  {
    assert |Codes(a)| == |Codes(b)|;
    forall i | 0 <= i < |a| ensures a[i] == b[i] {
      assert Codes(a)[i] == Codes(b)[i];
    }
  }

  lemma StringOrder(a: string, b: string, c: string)
    ensures StringLess(a, b) || a == b || StringLess(b, a)
    ensures !(StringLess(a, b) && StringLess(b, a)) && !StringLess(a, a)
    ensures StringLess(a, b) && StringLess(b, c) ==> StringLess(a, c)
  {
    LexTotal(Codes(a), Codes(b));
    LexIrreflexive(Codes(a));
    if Codes(a) == Codes(b) { CodesInjective(a, b); }
    if StringLess(a, b) && StringLess(b, c) { LexTransitive(Codes(a), Codes(b), Codes(c)); }
  }

  /** `xs` lists the set in strictly ascending order. */
  ghost predicate Lists(xs: seq<string>, keys: set<string>) {
    && (forall i, j :: 0 <= i < j < |xs| ==> StringLess(xs[i], xs[j]))
    && (forall k :: k in keys <==> k in xs)
  }

  lemma {:induction false} ListsUnique(xs: seq<string>, ys: seq<string>, keys: set<string>)
    requires Lists(xs, keys) && Lists(ys, keys)
    ensures xs == ys
    decreases |xs|
  {
    ListsNothing(xs, keys);
    ListsNothing(ys, keys);
    if keys != {} {
      assert xs[0] in keys && xs[0] in ys;
      assert ys[0] in keys && ys[0] in xs;
      SameFirst(xs, ys);
      ListsTail(xs, keys);
      ListsTail(ys, keys);
      ListsUnique(xs[1..], ys[1..], keys - {xs[0]});
      assert xs == [xs[0]] + xs[1..] && ys == [ys[0]] + ys[1..];
    }
  }

  lemma ListsNothing(xs: seq<string>, keys: set<string>)
    requires Lists(xs, keys)
    ensures xs == [] <==> keys == {}
  {
    if xs != [] {
      assert xs[0] in keys;
    }
  }

  lemma SameFirst(xs: seq<string>, ys: seq<string>)
    requires xs != [] && ys != [] && xs[0] in ys && ys[0] in xs
    requires forall i, j :: 0 <= i < j < |xs| ==> StringLess(xs[i], xs[j])
    requires forall i, j :: 0 <= i < j < |ys| ==> StringLess(ys[i], ys[j])
    ensures xs[0] == ys[0]
  {
    var i :| 0 <= i < |xs| && xs[i] == ys[0];
    var j :| 0 <= j < |ys| && ys[j] == xs[0];
    StringOrder(xs[0], ys[0], xs[0]);
  }

  lemma ListsTail(xs: seq<string>, keys: set<string>)
    requires Lists(xs, keys) && xs != []
    ensures Lists(xs[1..], keys - {xs[0]})
  {
    forall k ensures k in keys - {xs[0]} <==> k in xs[1..] {
      if k in xs[1..] {
        var i :| 0 <= i < |xs| - 1 && xs[1..][i] == k;
        assert StringLess(xs[0], xs[i + 1]);
        StringOrder(xs[0], xs[0], xs[0]);
        assert k in xs;
      }
    }
  }

  /** A key inserted at its place. */
  function Insert(xs: seq<string>, k: string): seq<string> {
    if xs == [] || StringLess(k, xs[0]) then [k] + xs else [xs[0]] + Insert(xs[1..], k)
  }

  lemma {:induction false} InsertMembers(xs: seq<string>, k: string)
    ensures |Insert(xs, k)| == |xs| + 1
    ensures forall x :: x in Insert(xs, k) <==> x == k || x in xs
  {
    if xs != [] && !StringLess(k, xs[0]) {
      InsertMembers(xs[1..], k);
      forall x ensures x in xs <==> x == xs[0] || x in xs[1..] {}
    }
  }

  lemma {:induction false} InsertSorts(xs: seq<string>, keys: set<string>, k: string)
    requires Lists(xs, keys) && k !in keys
    ensures Lists(Insert(xs, k), keys + {k})
    decreases |xs|
  {
    InsertMembers(xs, k);
    if xs != [] {
      assert xs[0] in keys;
      StringOrder(k, xs[0], k);
      if StringLess(k, xs[0]) {
        forall j | 0 <= j < |xs| ensures StringLess(k, xs[j]) {
          StringOrder(k, xs[0], xs[j]);
        }
      } else {
        ListsTail(xs, keys);
        InsertSorts(xs[1..], keys - {xs[0]}, k);
        InsertMembers(xs[1..], k);
        var ys := Insert(xs[1..], k);
        forall j | 0 <= j < |ys| ensures StringLess(xs[0], ys[j]) {
          assert ys[j] in ys;
          if ys[j] != k {
            var i :| 0 <= i < |xs[1..]| && xs[1..][i] == ys[j];
            assert StringLess(xs[0], xs[i + 1]);
          }
        }
      }
    }
  }

  lemma {:induction false} ListExists(keys: set<string>) returns (xs: seq<string>)
    ensures Lists(xs, keys)
  {
    if keys == {} {
      xs := [];
    } else {
      var k :| k in keys;
      var rest := ListExists(keys - {k});
      InsertSorts(rest, keys - {k}, k);
      xs := Insert(rest, k);
      assert keys - {k} + {k} == keys;
    }
  }

  /** "[k]" + mid + "[" + value. */
  function Bracketed(k: string, mid: string, value: string): (r: string)
    ensures |r| == |k| + |mid| + |value| + 3
  {
    ['['] + (k + [']'] + (mid + ['['] + value))
  }

  /** "[k]: [v]" and a newline. */
  function Line(k: string, v: string): string {
    Bracketed(k, ": ", v + "]\n")
  }

  function PrintKeys(m: map<string, string>, ks: seq<string>): string
    requires forall i :: 0 <= i < |ks| ==> ks[i] in m
  {
    if ks == [] then "" else Line(ks[0], m[ks[0]]) + PrintKeys(m, ks[1..])
  }

  ghost function SortedKeys(keys: set<string>): (xs: seq<string>)
    ensures Lists(xs, keys)
  {
    assert exists xs :: Lists(xs, keys) by { var ys := ListExists(keys); }
    var xs :| Lists(xs, keys);
    xs
  }

  /** The file text of a property map: one line a property, keys ascending. */
  ghost function Print(m: map<string, string>): string {
    PrintKeys(m, SortedKeys(m.Keys))
  }

  // ---------------------------------------------------------------------------
  // Reading back
  // ---------------------------------------------------------------------------

  /** What fgets takes: through the first newline, at most 1023 characters. */
  function ChunkLength(s: string): (n: nat)
    requires s != ""
    ensures 0 < n <= |s| && n < LINE_BUFFER
  {
    Min(Min(Find(s, '\n') + 1, |s|), LINE_BUFFER - 1)
  }

  /** A buffer read as a C string. */
  function CString(s: string): string {
    s[..Find(s, NUL)]
  }

  /** Position of the last `c`, or the length when there is none. */
  function FindLast(s: string, c: char): (k: nat)
    ensures k <= |s| && (k < |s| ==> s[k] == c)
    ensures k < |s| ==> forall j :: k < j < |s| ==> s[j] != c
    ensures k == |s| ==> forall j :: 0 <= j < |s| ==> s[j] != c
  {
    if s == "" then 0
    else if s[|s| - 1] == c then |s| - 1
    else
      var k := FindLast(s[..|s| - 1], c);
      if k == |s| - 1 then |s| else k
  }

  /** The value behind the key's bracket: between the next '[' and the last ']'. */
  function ParseValue(after: string): Option<string> {
    var startVal := Find(after, '[');
    if startVal == |after| then None
    else
      var value := after[startVal + 1..];
      var endVal := FindLast(value, ']');
      if endVal == |value| then None else Some(value[..endVal])
  }

  /** Key and value behind the first '['. */
  function ParseBody(body: string): Option<(string, string)> {
    var endKey := Find(body, ']');
    if endKey == |body| then None
    else match ParseValue(body[endKey + 1..])
      case None => None
      case Some(v) => Some((body[..endKey], v))
  }

  /** The entry in one fgets buffer. */
  function ParseEntry(chunk: string): Option<(string, string)> {
    if chunk == "" || chunk[0] != '[' then None else ParseBody(CString(chunk[1..]))
  }

  function Record(props: map<string, string>, entry: Option<(string, string)>): map<string, string> {
    if entry.Some? then props[entry.value.0 := entry.value.1] else props
  }

  function LoadInto(file: string, props: map<string, string>): map<string, string>
    decreases |file|
  {
    if file == "" then props
    else LoadInto(file[ChunkLength(file)..], Record(props, ParseEntry(file[..ChunkLength(file)])))
  }

  function Load(file: string): map<string, string> {
    LoadInto(file, map[])
  }

  // ---------------------------------------------------------------------------
  // What survives
  // ---------------------------------------------------------------------------

  predicate Free(s: string, c: char) {
    forall i :: 0 <= i < |s| ==> s[i] != c
  }

  /** Characters a line can carry. */
  predicate Clean(k: string, v: string) {
    Free(k, ']') && Free(k, '\n') && Free(k, NUL) && Free(v, '\n') && Free(v, NUL)
  }

  /** The properties the file format carries over. */
  predicate Survives(k: string, v: string) {
    Clean(k, v) && |k| + |v| <= LONGEST_ENTRY
  }

  /** No newline but possibly the last character. */
  predicate OneLine(s: string) {
    forall i :: 0 <= i < |s| - 1 ==> s[i] != '\n'
  }

  lemma ParsedValue(after: string)
    requires OneLine(after) && Free(after, NUL) && ParseValue(after).Some?
    ensures var v := ParseValue(after).value; Free(v, '\n') && Free(v, NUL) && |v| + 2 <= |after|
  {
    var startVal := Find(after, '[');
    var v := ParseValue(after).value;
    forall i | 0 <= i < |v| ensures v[i] == after[startVal + 1 + i] {}
  }

  lemma ParsedBody(body: string)
    requires OneLine(body) && Free(body, NUL) && ParseBody(body).Some?
    ensures var e := ParseBody(body).value; Clean(e.0, e.1) && |e.0| + |e.1| + 3 <= |body|
  {
    hide ParseValue;
    var endKey := Find(body, ']');
    var after := body[endKey + 1..];
    forall i | 0 <= i < |after| ensures after[i] == body[endKey + 1 + i] {}
    ParsedValue(after);
  }

  /** Whatever the text, a parsed entry is clean and short. */
  lemma ParsedIsClean(s: string)
    requires s != "" && ParseEntry(s[..ChunkLength(s)]).Some?
    ensures var e := ParseEntry(s[..ChunkLength(s)]).value; Clean(e.0, e.1) && |e.0| + |e.1| + 4 < LINE_BUFFER
  {
    hide ParseBody;
    var chunk := s[..ChunkLength(s)];
    var body := CString(chunk[1..]);
    forall i | 0 <= i < |chunk| - 1 ensures chunk[i] != '\n' {}
    forall i | 0 <= i < |body| ensures body[i] == chunk[1 + i] && body[i] != NUL {}
    ParsedBody(body);
  }

  ghost predicate AllClean(m: map<string, string>) {
    forall k :: k in m ==> Clean(k, m[k]) && |k| + |m[k]| + 4 < LINE_BUFFER
  }

  lemma {:induction false} LoadedIsClean(file: string, props: map<string, string>)
    requires AllClean(props)
    ensures AllClean(LoadInto(file, props))
    decreases |file|
  {
    if file != "" {
      if ParseEntry(file[..ChunkLength(file)]).Some? {
        ParsedIsClean(file);
      }
      LoadedIsClean(file[ChunkLength(file)..], Record(props, ParseEntry(file[..ChunkLength(file)])));
    }
  }

  lemma FindFree(s: string, c: char, t: string)
    requires Free(s, c)
    ensures Find(s + [c] + t, c) == |s| && Find(s, c) == |s|
  {
    FindUnique(s + [c] + t, c, |s|);
    FindUnique(s, c, |s|);
  }

  lemma ValuePart(mid: string, value: string)
    requires Free(mid, '[') && FindLast(value, ']') < |value|
    ensures ParseValue(mid + ['['] + value) == Some(value[..FindLast(value, ']')])
  {
    FindFree(mid, '[', value);
    assert (mid + ['['] + value)[|mid| + 1..] == value;
  }

  lemma BodyPart(k: string, after: string)
    requires Free(k, ']')
    ensures ParseBody(k + [']'] + after)
         == if ParseValue(after) == None then None else Some((k, ParseValue(after).value))
  {
    var body := k + [']'] + after;
    FindFree(k, ']', after);
    assert body[|k| + 1..] == after && body[..|k|] == k;
  }

  lemma NoNul(s: string)
    requires Free(s, NUL)
    ensures CString(s) == s
  {
    FindUnique(s, NUL, |s|);
    assert s[..|s|] == s;
  }

  /** The parser's cuts, given where the brackets stand. */
  lemma EntryParts(k: string, mid: string, value: string)
    requires Free(k, ']') && Free(mid, '[') && Free(k, NUL) && Free(mid, NUL) && Free(value, NUL)
    requires FindLast(value, ']') < |value|
    ensures ParseEntry(Bracketed(k, mid, value)) == Some((k, value[..FindLast(value, ']')]))
  {
    hide ParseBody, ParseValue, CString;
    var after := mid + ['['] + value;
    var body := k + [']'] + after;
    assert (['['] + body)[1..] == body;
    NoNul(body);
    BodyPart(k, after);
    ValuePart(mid, value);
  }

  lemma LastBracket(v: string, tail: string)
    requires tail == "" || tail == "\n"
    ensures FindLast(v + "]" + tail, ']') == |v|
  {
    var value := v + "]" + tail;
    var l := FindLast(value, ']');
    assert value[|v|] == ']';
    assert forall j :: |v| < j < |value| ==> value[j] == '\n';
  }

  /** A line that fits the buffer, with its newline or just without it, is read back. */
  lemma WholeEntry(k: string, v: string, tail: string)
    requires Clean(k, v) && (tail == "" || tail == "\n")
    ensures ParseEntry(Bracketed(k, ": ", v + "]" + tail)) == Some((k, v))
  {
    var value := v + "]" + tail;
    LastBracket(v, tail);
    EntryParts(k, ": ", value);
    assert value[..|v|] == v;
  }

  /** A line cut inside its value is lost or read back short; its key is the only one touched. */
  lemma CutEntry(k: string, v: string, n: nat)
    requires Clean(k, v) && |k| < n <= |k| + |v| + 6
    requires n >= |k| + 2
    ensures var e := ParseEntry(Bracketed(k, ": ", v)[..Min(n, |k| + |v| + 5)]);
            e.Some? ==> e.value.0 == k && |e.value.1| < |v|
  {
    var whole := Bracketed(k, ": ", v);
    var chunk := whole[..Min(n, |k| + |v| + 5)];
    assert |whole| == |k| + |v| + 5;
    var body := chunk[1..];
    forall i | 0 <= i < |body| ensures body[i] == whole[i + 1] {}
    NoNul(body);
    assert body[..|k|] == k;
    assert body[|k|] == ']';
    KeyEnds(k, body);
    hide CString, Bracketed, Clean;
    CutValue(body[|k| + 1..], |v|);
  }

  lemma KeyEnds(k: string, body: string)
    requires Free(k, ']') && |k| < |body| && body[..|k|] == k && body[|k|] == ']'
    ensures Find(body, ']') == |k|
  {
    forall j | 0 <= j < |k| ensures body[j] != ']' {
      assert body[j] == body[..|k|][j] == k[j];
    }
    FindUnique(body, ']', |k|);
  }

  /** What is left of the separator and the value gives a shorter value, or none. */
  lemma CutValue(after: string, n: nat)
    requires |after| <= n + 3 && (|after| > 0 ==> after[0] == ':') && (|after| > 1 ==> after[1] == ' ')
    ensures ParseValue(after).Some? ==> |ParseValue(after).value| < n
  {
    hide Find, FindLast;
    var startVal := Find(after, '[');
    assert startVal < |after| ==> startVal >= 2;
  }

  /** The one to three characters left over from a line that overran the buffer hold no entry. */
  lemma LeftOver(r: string, rest: string, props: map<string, string>)
    requires 1 <= |r| <= 3 && r[|r| - 1] == '\n' && Free(r[..|r| - 1], '\n')
    requires |r| >= 2 ==> r[|r| - 2] == ']'
    ensures LoadInto(r + rest, props) == LoadInto(rest, props)
  {
    var s := r + rest;
    assert forall i :: 0 <= i < |r| - 1 ==> r[i] == r[..|r| - 1][i];
    FindUnique(s, '\n', |r| - 1);
    assert s[..|r|] == r && s[|r|..] == rest;
    if r[0] == '[' {
      var body := CString(r[1..]);
      assert r[1..] == "]\n";
      FindUnique("]\n", NUL, 2);
      assert body == "]\n";
      assert body[1..] == "\n";
      FindUnique("\n", '[', 1);
    }
    assert ParseEntry(r) == None;
  }

  /** What one printed line does to the map being loaded. */
  lemma LineEffect(k: string, v: string, rest: string, props: map<string, string>) returns (next: map<string, string>)
    requires Clean(k, v) && |k| + |v| + 4 < LINE_BUFFER
    ensures LoadInto(Line(k, v) + rest, props) == LoadInto(rest, next)
    ensures Survives(k, v) ==> next == props[k := v]
    ensures !Survives(k, v) ==> next == props || exists w :: next == props[k := w] && |w| < |v|
  {
    if |Line(k, v)| < LINE_BUFFER {
      next := props[k := v];
      FittingLine(k, v, rest, props);
    } else {
      next := OverrunLine(k, v, rest, props);
    }
  }

  lemma LineShape(k: string, v: string, rest: string)
    requires Clean(k, v)
    ensures |Line(k, v)| == |k| + |v| + 7 && Line(k, v)[|Line(k, v)| - 1] == '\n'
    ensures Free(Line(k, v)[..|Line(k, v)| - 1], '\n')
    ensures Find(Line(k, v) + rest, '\n') == |Line(k, v)| - 1
  {
    var line := Line(k, v);
    var front := Bracketed(k, ": ", v + "]");
    assert line[..|line| - 1] == front;
    assert Free(front, '\n');
    assert forall i :: 0 <= i < |front| ==> (line + rest)[i] == front[i];
    FindUnique(line + rest, '\n', |line| - 1);
  }

  lemma FittingLine(k: string, v: string, rest: string, props: map<string, string>)
    requires Clean(k, v) && |Line(k, v)| < LINE_BUFFER
    ensures LoadInto(Line(k, v) + rest, props) == LoadInto(rest, props[k := v])
  {
    LineShape(k, v, rest);
    CutAppend(Line(k, v), rest, |Line(k, v)|);
    LineEntry(k, v);
    hide Line, ParseEntry, Clean, Find;
    LoadStep(Line(k, v) + rest, props);
  }

  lemma LineEntry(k: string, v: string)
    requires Clean(k, v)
    ensures ParseEntry(Line(k, v)) == Some((k, v))
  {
    hide ParseEntry;
    WholeEntry(k, v, "\n");
    assert v + "]" + "\n" == v + "]\n";
  }

  lemma LoadStep(s: string, props: map<string, string>)
    requires s != ""
    ensures LoadInto(s, props) == LoadInto(s[ChunkLength(s)..], Record(props, ParseEntry(s[..ChunkLength(s)])))
  {
  }

  lemma OverrunLine(k: string, v: string, rest: string, props: map<string, string>) returns (next: map<string, string>)
    requires Clean(k, v) && LINE_BUFFER <= |Line(k, v)| && |k| + |v| + 4 < LINE_BUFFER
    ensures LoadInto(Line(k, v) + rest, props) == LoadInto(rest, next)
    ensures Survives(k, v) ==> next == props[k := v]
    ensures !Survives(k, v) ==> next == props || exists w :: next == props[k := w] && |w| < |v|
  {
    var line, n := Line(k, v), LINE_BUFFER - 1;
    var s := line + rest;
    LineShape(k, v, rest);
    var over := line[n..];
    CutAppend(line, rest, n);
    hide Line, ParseEntry, Survives, Clean;
    next := Record(props, ParseEntry(line[..n]));
    assert ChunkLength(s) == n;
    assert LoadInto(s, props) == LoadInto(over + rest, next);
    hide LoadInto, ChunkLength;
    OverEnds(k, v, n);
    LeftOver(over, rest, next);
    OverrunEntry(k, v, n);
  }

  lemma OverrunEntry(k: string, v: string, n: nat)
    requires Clean(k, v) && n < |Line(k, v)| <= n + 3 && |k| + |v| + 4 <= n
    requires n == LINE_BUFFER - 1
    ensures var e := ParseEntry(Line(k, v)[..n]);
            if Survives(k, v) then e == Some((k, v)) else e.Some? ==> e.value.0 == k && |e.value.1| < |v|
  {
    hide ParseEntry;
    if Survives(k, v) {
      assert Line(k, v)[..n] == Bracketed(k, ": ", v + "]" + "");
      WholeEntry(k, v, "");
    } else {
      var m := Min(n, |k| + |v| + 5);
      assert Line(k, v)[..n] == Bracketed(k, ": ", v)[..m] by {
        assert m == n;
        forall i | 0 <= i < n ensures Line(k, v)[i] == Bracketed(k, ": ", v)[i] {}
      }
      CutEntry(k, v, n);
    }
  }

  lemma OverEnds(k: string, v: string, n: nat)
    requires Clean(k, v) && |Line(k, v)| - 3 <= n < |Line(k, v)|
    ensures var r := Line(k, v)[n..];
            1 <= |r| <= 3 && r[|r| - 1] == '\n' && Free(r[..|r| - 1], '\n') && (|r| >= 2 ==> r[|r| - 2] == ']')
  {
    LineShape(k, v, "");
    var line := Line(k, v);
    var r := line[n..];
    assert forall i :: 0 <= i < |r| - 1 ==> r[i] == line[..|line| - 1][n + i];
  }

  /** Loading the lines of different keys: each survivor is there, nothing else is right or new. */
  lemma {:induction false} LoadLines(m: map<string, string>, ks: seq<string>, props: map<string, string>)
    requires forall i :: 0 <= i < |ks| ==> ks[i] in m && ks[i] !in props
    requires forall i, j :: 0 <= i < j < |ks| ==> ks[i] != ks[j]
    requires AllClean(m)
    ensures var r := LoadInto(PrintKeys(m, ks), props);
            && (forall k :: k !in ks ==> (k in r <==> k in props) && (k in r ==> r[k] == props[k]))
            && (forall k :: k in ks && Survives(k, m[k]) ==> k in r && r[k] == m[k])
            && (forall k :: k in ks && !Survives(k, m[k]) && k in r ==> r[k] != m[k])
    decreases |ks|
  {
    if ks != [] {
      var k, rest := ks[0], ks[1..];
      var next := LineEffect(k, m[k], PrintKeys(m, rest), props);
      assert forall x :: x != k ==> (x in next <==> x in props) && (x in next ==> next[x] == props[x]);
      LoadLines(m, rest, next);
    }
  }

  /** What the reader finds in the print of a clean map: every property that survives, none right that
      does not, and no other key. */
  lemma PrintedLoads(m: map<string, string>)
    requires AllClean(m)
    ensures forall k :: k in Load(Print(m)) ==> k in m
    ensures forall k :: k in m && Survives(k, m[k]) ==> k in Load(Print(m)) && Load(Print(m))[k] == m[k]
    ensures forall k :: k in m && !Survives(k, m[k]) && k in Load(Print(m)) ==> Load(Print(m))[k] != m[k]
  {
    var ks := SortedKeys(m.Keys);
    forall i, j | 0 <= i < j < |ks| ensures ks[i] != ks[j] {
      assert StringLess(ks[i], ks[j]);
      StringOrder(ks[i], ks[j], ks[i]);
    }
    hide LoadInto, PrintKeys, Survives, StringLess;
    LoadLines(m, ks, map[]);
    forall k ensures k in ks <==> k in m {
      assert k in ks <==> k in m.Keys;
    }
  }

  /** The reader recovers the whole map from the printed file exactly when every property survives. */
  lemma RoundTrips(m: map<string, string>)
    ensures Load(Print(m)) == m <==> forall k :: k in m ==> Survives(k, m[k])
  {
    hide LoadInto, Print;
    if Load(Print(m)) == m {
      LoadedIsClean(Print(m), map[]);
      PrintedLoads(m);
    }
    if forall k :: k in m ==> Survives(k, m[k]) {
      PrintedLoads(m);
      assert Load(Print(m)) == m;
    }
  }

  lemma SurvivesMeans(k: string, v: string)
    ensures Survives(k, v)
       <==> (forall c :: c in k ==> c != ']' && c != '\n' && c != '\0')
            && (forall c :: c in v ==> c != '\n' && c != '\0') && |k| + |v| <= 1017
  {
    FreeMeans(k, ']');
    FreeMeans(k, '\n');
    FreeMeans(k, NUL);
    FreeMeans(v, '\n');
    FreeMeans(v, NUL);
    hide Free;
  }

  lemma FreeMeans(s: string, c: char)
    ensures Free(s, c) <==> c !in s
  {
  }

  /** The reader recovers the whole map from the printed file exactly when its keys are free of ']', newline
      and NUL, its values of newline and NUL, and key and value have at most 1017 characters together.
      Brackets inside values do no harm. */
  lemma RoundTripExact(m: map<string, string>)
    ensures Load(Print(m)) == m
       <==> forall k :: k in m ==>
              && (forall c :: c in k ==> c != ']' && c != '\n' && c != '\0')
              && (forall c :: c in m[k] ==> c != '\n' && c != '\0')
              && |k| + |m[k]| <= 1017
  {
    RoundTrips(m);
    hide *;
    forall k | k in m
      ensures Survives(k, m[k])
         <==> (forall c :: c in k ==> c != ']' && c != '\n' && c != '\0')
              && (forall c :: c in m[k] ==> c != '\n' && c != '\0') && |k| + |m[k]| <= 1017
    {
      SurvivesMeans(k, m[k]);
    }
  }
}
