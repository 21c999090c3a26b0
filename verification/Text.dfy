/** Splitting as std::getline does it, and the lexicographic order of std::string. */
module Text {
  import opened Bytes

  /** Position of the first `sep`, or the length when there is none. */
  function Find<T(==)>(s: seq<T>, sep: T): (k: nat)
    ensures k <= |s| && (forall j :: 0 <= j < k ==> s[j] != sep) && (k < |s| ==> s[k] == sep)
  {
    if s == [] || s[0] == sep then 0 else 1 + Find(s[1..], sep)
  }

  lemma FindUnique<T>(s: seq<T>, sep: T, k: nat)
    requires k <= |s| && (forall j :: 0 <= j < k ==> s[j] != sep) && (k < |s| ==> s[k] == sep)
    ensures Find(s, sep) == k
  {
  }

  /** The items getline reads: a separator at the very end starts no further item. */
  function Split<T(==)>(s: seq<T>, sep: T): seq<seq<T>> {
    if s == [] then []
    else
      var k := Find(s, sep);
      [s[..k]] + if k < |s| then Split(s[k + 1..], sep) else []
  }

  lemma SplitStep<T>(s: seq<T>, sep: T)
    requires s != []
    ensures var k := Find(s, sep);
            Split(s, sep) == [s[..k]] + if k < |s| then Split(s[k + 1..], sep) else []
  {
    hide Find;
    var k := Find(s, sep);
    if k < |s| {
      SplitHead(s, sep, k);
    } else {
      SplitWhole(s, sep);
    }
    hide Split;
  }

  /** A text without the separator is one item. */
  lemma SplitWhole<T>(s: seq<T>, sep: T)
    requires s != [] && Find(s, sep) == |s|
    ensures Split(s, sep) == [s[..|s|]] + []
  {
    hide Find;
  }

  lemma SplitHead<T>(s: seq<T>, sep: T, k: nat)
    requires k < |s| && (forall j :: 0 <= j < k ==> s[j] != sep) && s[k] == sep
    ensures Split(s, sep) == [s[..k]] + Split(s[k + 1..], sep)
  {
    FindUnique(s, sep, k);
  }

  /** Splitting continues behind a separator as if it started there. */
  lemma {:induction false} SplitAppend<T>(a: seq<T>, sep: T, b: seq<T>)
    ensures Split(a + [sep] + b, sep) == Split(a + [sep], sep) + Split(b, sep)
    decreases |a|
  {
    hide Split;
    var k := Find(a, sep);
    var s, h := a + [sep] + b, a + [sep];
    assert s[..k] == h[..k];
    SplitHead(s, sep, k);
    SplitHead(h, sep, k);
    if k < |a| {
      SplitAppend(a[k + 1..], sep, b);
      assert s[k + 1..] == a[k + 1..] + [sep] + b;
      assert h[k + 1..] == a[k + 1..] + [sep];
    } else {
      assert s[k + 1..] == b && h[k + 1..] == [];
      SplitEmpty(sep);
      assert [] + Split(b, sep) == Split(b, sep);
    }
    Assoc([s[..k]], Split(h[k + 1..], sep), Split(b, sep));
  }

  lemma SplitEmpty<T>(sep: T)
    ensures Split([], sep) == []
  {
  }

  /** `xs` with the separator after every item. */
  function Unsplit<T>(xs: seq<seq<T>>, sep: T): seq<T> {
    if xs == [] then [] else xs[0] + [sep] + Unsplit(xs[1..], sep)
  }

  lemma {:induction false} SplitUnsplit<T>(xs: seq<seq<T>>, sep: T)
    requires forall i :: 0 <= i < |xs| ==> sep !in xs[i]
    ensures Split(Unsplit(xs, sep), sep) == xs
  {
    if xs == [] {
      SplitEmpty(sep);
    } else {
      SplitItem(xs[0], sep, Unsplit(xs[1..], sep));
      SplitUnsplit(xs[1..], sep);
      hide Split;
    }
  }

  lemma SplitItem<T>(x: seq<T>, sep: T, rest: seq<T>)
    requires sep !in x
    ensures Split(x + [sep] + rest, sep) == [x] + Split(rest, sep)
  {
    hide Split;
    var s := x + [sep] + rest;
    assert s[..|x|] == x && s[|x| + 1..] == rest;
    SplitHead(s, sep, |x|);
  }

  // ---------------------------------------------------------------------------
  // Bytes and characters
  // ---------------------------------------------------------------------------

  function Ascii(s: string): seq<byte>
    requires forall i :: 0 <= i < |s| ==> s[i] as int < 128
  {
    seq(|s|, i requires 0 <= i < |s| => s[i] as int)
  }

  function ToText(b: seq<byte>): string {
    seq(|b|, i requires 0 <= i < |b| => b[i] as char)
  }

  lemma AsciiText(s: string)
    requires forall i :: 0 <= i < |s| ==> s[i] as int < 128
    ensures ToText(Ascii(s)) == s
  {
  }

  // ---------------------------------------------------------------------------
  // Trimming
  // ---------------------------------------------------------------------------

  predicate Blank(c: char) {
    c == ' ' || c == '\t' || c == '\r' || c == '\n'
  }

  function TrimLeft(s: string): (r: string)
    ensures |r| <= |s| && (r != [] ==> !Blank(r[0]))
  {
    if s != [] && Blank(s[0]) then TrimLeft(s[1..]) else s
  }

  function TrimRight(s: string): (r: string)
    ensures |r| <= |s| && r == s[..|r|] && (r != [] ==> !Blank(r[|r| - 1]))
  {
    if s != [] && Blank(s[|s| - 1]) then TrimRight(s[..|s| - 1]) else s
  }

  function Trim(s: string): string {
    TrimRight(TrimLeft(s))
  }

  /** Neither end is blank. */
  predicate Trimmed(s: string) {
    s != [] ==> !Blank(s[0]) && !Blank(s[|s| - 1])
  }

  predicate AllBlank(s: string) {
    forall i :: 0 <= i < |s| ==> Blank(s[i])
  }

  lemma {:induction false} TrimLeftPadded(a: string, s: string)
    requires AllBlank(a) && Trimmed(s)
    ensures TrimLeft(a + s) == s
  {
    if a != [] {
      assert (a + s)[1..] == a[1..] + s;
      TrimLeftPadded(a[1..], s);
    } else {
      assert a + s == s;
    }
  }

  lemma {:induction false} TrimRightPadded(s: string, b: string)
    requires AllBlank(b) && Trimmed(s)
    ensures TrimRight(s + b) == s
  {
    if b != [] {
      assert (s + b)[..|s + b| - 1] == s + b[..|b| - 1];
      TrimRightPadded(s, b[..|b| - 1]);
    } else {
      assert s + b == s;
    }
  }

  /** Trimming takes off exactly the blanks around a trimmed text. */
  lemma TrimPadded(a: string, s: string, b: string)
    requires AllBlank(a) && AllBlank(b) && Trimmed(s)
    ensures Trim(a + s + b) == s
  {
    if s == [] {
      var all := a + s + b;
      assert all == all + [];
      TrimLeftPadded(all, []);
    } else {
      assert a + s + b == a + (s + b);
      TrimLeftBefore(a, s + b);
      TrimRightPadded(s, b);
    }
  }

  lemma {:induction false} TrimLeftBefore(a: string, s: string)
    requires AllBlank(a) && s != [] && !Blank(s[0])
    ensures TrimLeft(a + s) == s
  {
    if a != [] {
      assert (a + s)[1..] == a[1..] + s;
      TrimLeftBefore(a[1..], s);
    } else {
      assert a + s == s;
    }
  }

  /** Exactly blank, tab, carriage return and line feed are trimmed off. */
  lemma TrimTakes(c: char, s: string)
    requires s != "" && s[0] !in " \t\r\n" && s[|s| - 1] !in " \t\r\n"
    ensures Trim([c] + s + [c]) == if c in " \t\r\n" then s else [c] + s + [c]
  {
    if c in " \t\r\n" {
      TrimPadded([c], s, [c]);
    } else {
      TrimPadded("", [c] + s + [c], "");
      assert "" + ([c] + s + [c]) + "" == [c] + s + [c];
    }
  }

  /** Blanks in front do not hide what a text starts with. */
  lemma TrimStart(pad: string, s: string)
    requires AllBlank(pad) && s != "" && !Blank(s[0])
    ensures Trim(pad + s) != "" && Trim(pad + s)[0] == s[0]
  {
    TrimLeftBefore(pad, s);
    TrimRightStart(s);
  }

  lemma {:induction false} TrimRightStart(s: string)
    requires s != "" && !Blank(s[0])
    ensures TrimRight(s) != ""
  {
    if Blank(s[|s| - 1]) {
      TrimRightStart(s[..|s| - 1]);
    }
  }

  /** Trimming brings in nothing new. */
  lemma {:induction false} TrimWithin(s: string, c: char)
    requires c !in s
    ensures c !in Trim(s)
  {
    TrimLeftWithin(s, c);
    assert forall x :: x in TrimRight(TrimLeft(s)) ==> x in TrimLeft(s);
  }

  lemma {:induction false} TrimLeftWithin(s: string, c: char)
    requires c !in s
    ensures c !in TrimLeft(s)
  {
    if s != "" && Blank(s[0]) {
      TrimLeftWithin(s[1..], c);
    }
  }

  // ---------------------------------------------------------------------------
  // std::string order
  // ---------------------------------------------------------------------------

  predicate LexLess(a: seq<int>, b: seq<int>) {
    if b == [] then false
    else if a == [] then true
    else a[0] < b[0] || (a[0] == b[0] && LexLess(a[1..], b[1..]))
  }

  /** What the order means: the first difference decides, and a proper beginning comes first. */
  ghost predicate Precedes(a: seq<int>, b: seq<int>) {
    exists k :: 0 <= k <= |a| && k < |b| && a[..k] == b[..k] && (k == |a| || a[k] < b[k])
  }

  lemma {:induction false} LexIsPrecedes(a: seq<int>, b: seq<int>)
    ensures LexLess(a, b) <==> Precedes(a, b)
  {
    if a != [] && b != [] && a[0] == b[0] {
      LexIsPrecedes(a[1..], b[1..]);
      if k :| 0 <= k <= |a| && k < |b| && a[..k] == b[..k] && (k == |a| || a[k] < b[k]) {
        assert a[1..][..k - 1] == a[..k][1..] && b[1..][..k - 1] == b[..k][1..];
      }
      if k :| 0 <= k <= |a[1..]| && k < |b[1..]| && a[1..][..k] == b[1..][..k]
              && (k == |a[1..]| || a[1..][k] < b[1..][k]) {
        assert a[..k + 1] == [a[0]] + a[1..][..k] && b[..k + 1] == [b[0]] + b[1..][..k];
      }
    } else if b != [] {
      assert a[..0] == b[..0];
      forall k | 0 < k <= |a| && k < |b| ensures a[..k] != b[..k] {
        assert a[..k][0] != b[..k][0];
      }
    }
  }

  lemma {:induction false} LexTransitive(a: seq<int>, b: seq<int>, c: seq<int>)
    requires LexLess(a, b) && LexLess(b, c)
    ensures LexLess(a, c)
  {
    if a != [] && a[0] == b[0] == c[0] {
      LexTransitive(a[1..], b[1..], c[1..]);
    }
  }

  lemma {:induction false} LexTotal(a: seq<int>, b: seq<int>)
    ensures LexLess(a, b) || a == b || LexLess(b, a)
    ensures !(LexLess(a, b) && LexLess(b, a))
    ensures !LexLess(a, a)
  {
    if a != [] && b != [] && a[0] == b[0] {
      LexTotal(a[1..], b[1..]);
    }
    LexIrreflexive(a);
  }

  lemma {:induction false} LexIrreflexive(a: seq<int>)
    ensures !LexLess(a, a)
  {
    if a != [] {
      LexIrreflexive(a[1..]);
    }
  }
}
