/** The properties the service brings along, as its file shows them: what a first start seeds and what
    loading build.prop adds. */
module PropertyDefaults {
  import opened Bytes
  import opened Text
  import opened PropertyFile
  import opened PropertyService

  /** Keys and values in the order of the file. */
  const SEED_LIST: seq<(string, string)> := [
    ("init.svc.servicemanager", "running"), ("init.svc.surfaceflinger", "running"), ("init.svc.zygote", "running"),
    ("persist.sys.timezone", "UTC"), ("ro.boot.mode", "normal"), ("ro.build.type", "userdebug"),
    ("ro.debuggable", "1"), ("ro.secure", "0"), ("service.bootanim.exit", "1"),
    ("sys.boot_completed", "1"), ("vold.decrypt", "trigger_restart_framework")]

  const DEFAULT_LIST: seq<(string, string)> := [
    ("init.svc.servicemanager", "running"), ("init.svc.surfaceflinger", "running"), ("init.svc.zygote", "running"),
    ("ro.boot.mode", "normal"), ("ro.debuggable", "1"), ("ro.secure", "0"),
    ("service.bootanim.exit", "1"), ("sys.boot_completed", "1")]

  /** The lines of a list of properties. */
  function Shown(ps: seq<(string, string)>): string {
    if ps == [] then "" else "[" + ps[0].0 + "]: [" + ps[0].1 + "]\n" + Shown(ps[1..])
  }

  function KeysOf(ps: seq<(string, string)>): seq<string> {
    seq(|ps|, i requires 0 <= i < |ps| => ps[i].0)
  }

  lemma LineShows(k: string, v: string)
    ensures Line(k, v) == "[" + k + "]: [" + v + "]\n"
  {
  }

  /** The first difference decides. */
  lemma Before(a: string, b: string, k: nat)
    requires k < |a| && k < |b| && a[..k] == b[..k] && a[k] < b[k]
    ensures StringLess(a, b)
  {
    forall i | 0 <= i < k ensures Codes(a)[i] == Codes(b)[i] {
      assert a[..k][i] == b[..k][i];
    }
    assert Codes(a)[..k] == Codes(b)[..k];
    LexIsPrecedes(Codes(a), Codes(b));
  }

  predicate Ascending(xs: seq<string>) {
    forall i :: 0 <= i < |xs| - 1 ==> StringLess(xs[i], xs[i + 1])
  }

  lemma {:induction false} AscendingPairs(xs: seq<string>, i: nat, j: nat)
    requires Ascending(xs) && i < j < |xs|
    ensures StringLess(xs[i], xs[j])
    decreases j
  {
    assert StringLess(xs[j - 1], xs[j]);
    if i < j - 1 {
      AscendingPairs(xs, i, j - 1);
      StringOrder(xs[i], xs[j - 1], xs[j]);
    }
  }

  lemma AscendingLists(xs: seq<string>, keys: set<string>)
    requires Ascending(xs) && (forall k :: k in keys <==> k in xs)
    ensures SortedKeys(keys) == xs
  {
    forall i, j | 0 <= i < j < |xs| ensures StringLess(xs[i], xs[j]) {
      AscendingPairs(xs, i, j);
    }
    ListsUnique(xs, SortedKeys(keys), keys);
  }

  lemma SeedKeysAscend()
    ensures Ascending(KeysOf(SEED_LIST))
  {
    hide StringLess;
    Before("init.svc.servicemanager", "init.svc.surfaceflinger", 10);
    Before("init.svc.surfaceflinger", "init.svc.zygote", 9);
    Before("init.svc.zygote", "persist.sys.timezone", 0);
    Before("persist.sys.timezone", "ro.boot.mode", 0);
    Before("ro.boot.mode", "ro.build.type", 4);
    Before("ro.build.type", "ro.debuggable", 3);
    Before("ro.debuggable", "ro.secure", 3);
    Before("ro.secure", "service.bootanim.exit", 0);
    Before("service.bootanim.exit", "sys.boot_completed", 1);
    Before("sys.boot_completed", "vold.decrypt", 0);
  }

  lemma DefaultKeysAscend()
    ensures Ascending(KeysOf(DEFAULT_LIST))
  {
    hide StringLess;
    Before("init.svc.servicemanager", "init.svc.surfaceflinger", 10);
    Before("init.svc.surfaceflinger", "init.svc.zygote", 9);
    Before("init.svc.zygote", "ro.boot.mode", 0);
    Before("ro.boot.mode", "ro.debuggable", 3);
    Before("ro.debuggable", "ro.secure", 3);
    Before("ro.secure", "service.bootanim.exit", 0);
    Before("service.bootanim.exit", "sys.boot_completed", 1);
  }

  /** A map that holds exactly the listed properties. */
  predicate HoldsList(m: map<string, string>, ps: seq<(string, string)>) {
    && (forall i :: 0 <= i < |ps| ==> ps[i].0 in m && m[ps[i].0] == ps[i].1)
    && (forall k :: k in m.Keys ==> k in KeysOf(ps))
  }

  lemma {:induction false} KeysShown(m: map<string, string>, ps: seq<(string, string)>)
    requires forall i :: 0 <= i < |ps| ==> ps[i].0 in m && m[ps[i].0] == ps[i].1
    ensures PrintKeys(m, KeysOf(ps)) == Shown(ps)
  {
    if ps != [] {
      assert KeysOf(ps)[1..] == KeysOf(ps[1..]);
      LineShows(ps[0].0, ps[0].1);
      KeysShown(m, ps[1..]);
    }
  }

  lemma ListPrinted(m: map<string, string>, ps: seq<(string, string)>)
    requires HoldsList(m, ps) && Ascending(KeysOf(ps))
    ensures Print(m) == Shown(ps)
  {
    hide Ascending, Shown, PrintKeys;
    var ks := KeysOf(ps);
    forall k | k in ks ensures k in m.Keys {
      var i :| 0 <= i < |ks| && ks[i] == k;
      assert ps[i].0 in m;
    }
    AscendingLists(ks, m.Keys);
    KeysShown(m, ps);
  }

  lemma FirstSeeds()
    ensures "init.svc.servicemanager" in SEEDS && SEEDS["init.svc.servicemanager"] == "running"
    ensures "init.svc.surfaceflinger" in SEEDS && SEEDS["init.svc.surfaceflinger"] == "running"
    ensures "init.svc.zygote" in SEEDS && SEEDS["init.svc.zygote"] == "running"
    ensures "persist.sys.timezone" in SEEDS && SEEDS["persist.sys.timezone"] == "UTC"
  {
  }

  lemma MiddleSeeds()
    ensures "ro.boot.mode" in SEEDS && SEEDS["ro.boot.mode"] == "normal"
    ensures "ro.build.type" in SEEDS && SEEDS["ro.build.type"] == "userdebug"
    ensures "ro.debuggable" in SEEDS && SEEDS["ro.debuggable"] == "1"
    ensures "ro.secure" in SEEDS && SEEDS["ro.secure"] == "0"
  {
  }

  lemma LastSeeds()
    ensures "service.bootanim.exit" in SEEDS && SEEDS["service.bootanim.exit"] == "1"
    ensures "sys.boot_completed" in SEEDS && SEEDS["sys.boot_completed"] == "1"
    ensures "vold.decrypt" in SEEDS && SEEDS["vold.decrypt"] == "trigger_restart_framework"
  {
  }

  lemma SeedKeys()
    ensures forall k :: k in SEEDS.Keys ==> k in KeysOf(SEED_LIST)
  {
    assert KeysOf(SEED_LIST)
        == [
             "init.svc.servicemanager", "init.svc.surfaceflinger", "init.svc.zygote", "persist.sys.timezone",
             "ro.boot.mode", "ro.build.type", "ro.debuggable", "ro.secure",
             "service.bootanim.exit", "sys.boot_completed", "vold.decrypt"];
  }

  lemma SeedsListed()
    ensures HoldsList(SEEDS, SEED_LIST)
  {
    FirstSeeds();
    MiddleSeeds();
    LastSeeds();
    SeedKeys();
    hide SEEDS, KeysOf;
  }

  lemma DefaultsListed()
    ensures HoldsList(DEFAULTS, DEFAULT_LIST)
  {
    assert KeysOf(DEFAULT_LIST)
        == [
             "init.svc.servicemanager", "init.svc.surfaceflinger", "init.svc.zygote", "ro.boot.mode",
             "ro.debuggable", "ro.secure", "service.bootanim.exit", "sys.boot_completed"];
  }

  /** The file after a first start, and the file after loading an empty build.prop into a service whose
      socket could not be opened. */
  lemma FirstFiles()
    ensures RunAll(Initial(), [Start(true)]).file == Some(Shown(SEED_LIST))
    ensures RunAll(Initial(), [Start(false), LoadFromBuildProp("")]).file == Some(Shown(DEFAULT_LIST))
  {
    hide *;
    SeedKeysAscend();
    DefaultKeysAscend();
    SeedsListed();
    DefaultsListed();
    ListPrinted(SEEDS, SEED_LIST);
    ListPrinted(DEFAULTS, DEFAULT_LIST);
    SeedRun();
    DefaultRun();
  }

  lemma SeedRun()
    ensures RunAll(Initial(), [Start(true)]).file == Some(Print(SEEDS))
  {
    hide Print;
    assert [Start(true)][1..] == [];
    assert "ro.debuggable" !in Initial().props && Initial().props + SEEDS == SEEDS;
  }

  lemma DefaultRun()
    ensures RunAll(Initial(), [Start(false), LoadFromBuildProp("")]).file == Some(Print(DEFAULTS))
  {
    hide Print;
    var es := [Start(false), LoadFromBuildProp("")];
    assert es[1..] == [LoadFromBuildProp("")] && es[1..][1..] == [];
    SplitEmpty('\n');
    assert DEFAULTS + WithLines(map[], []) == DEFAULTS;
  }
}
