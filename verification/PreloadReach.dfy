/** Which DLLs a walk visits, exactly when it fails, and exactly when no stored file is
    loaded twice. */
module PreloadReach {
  import opened Outcome
  import opened Paths
  import opened Preload
  import opened PreloadSafety

  /** A name the walk has to follow: not there at the start, not stubbed, and stored. */
  predicate Wanted(vfs: Vfs, stop: set<string>, n: string) {
    n !in stop && !IsHostStub(n) && Find(vfs, n).Some?
  }

  /** `n` is wanted and some chain of at most `d` wanted names leads to it. */
  ghost predicate ReachIn(vfs: Vfs, stop: set<string>, imports: seq<string>, n: string, d: nat)
    decreases d
  {
    && Wanted(vfs, stop, n)
    && (n in Names(imports) ||
        (d > 0 && exists m :: ReachIn(vfs, stop, imports, m, d - 1) && n in Names(ImportsOf(Find(vfs, m).value))))
  }

  ghost predicate Reaches(vfs: Vfs, stop: set<string>, imports: seq<string>, n: string) {
    exists d: nat :: ReachIn(vfs, stop, imports, n, d)
  }

  lemma ReachFirst(vfs: Vfs, stop: set<string>, imports: seq<string>, n: string)
    requires Wanted(vfs, stop, n) && n in Names(imports)
    ensures Reaches(vfs, stop, imports, n)
  {
    hide Wanted, Names;
    assert ReachIn(vfs, stop, imports, n, 0);
  }

  lemma ReachNext(vfs: Vfs, stop: set<string>, imports: seq<string>, m: string, n: string)
    requires Reaches(vfs, stop, imports, m) && Wanted(vfs, stop, n)
    requires Find(vfs, m).Some? && n in Names(ImportsOf(Find(vfs, m).value))
    ensures Reaches(vfs, stop, imports, n)
  {
    hide Wanted, Names, Find;
    var d: nat :| ReachIn(vfs, stop, imports, m, d);
    assert ReachIn(vfs, stop, imports, n, d + 1);
  }

  // ===== the walk visits only what it can reach =====

  /** Everything tried so far can be reached. */
  ghost predicate Tracked(vfs: Vfs, stop: set<string>, root: seq<string>, w: World) {
    && stop <= w.modules + w.loading
    && forall n :: Attempted(w, n) ==> Reaches(vfs, stop, root, n)
  }

  /** The wanted names of an import table can be reached. */
  ghost predicate Leads(vfs: Vfs, stop: set<string>, root: seq<string>, imports: seq<string>) {
    forall n :: n in Names(imports) && Wanted(vfs, stop, n) ==> Reaches(vfs, stop, root, n)
  }

  ghost predicate BadFileReached(vfs: Vfs, stop: set<string>, root: seq<string>) {
    exists n :: Reaches(vfs, stop, root, n) && Find(vfs, n) == Some(Unparsable)
  }

  lemma FoundLeads(vfs: Vfs, stop: set<string>, root: seq<string>, n: string)
    requires Reaches(vfs, stop, root, n) && Find(vfs, n).Some?
    ensures Leads(vfs, stop, root, ImportsOf(Find(vfs, n).value))
  {
    hide Reaches, Wanted, Names, Find;
    forall m | m in Names(ImportsOf(Find(vfs, n).value)) && Wanted(vfs, stop, m) ensures Reaches(vfs, stop, root, m) {
      ReachNext(vfs, stop, root, n, m);
    }
  }

  lemma PushTracked(vfs: Vfs, stop: set<string>, root: seq<string>, w: World, n: string)
    requires Tracked(vfs, stop, root, w)
    ensures Tracked(vfs, stop, root, Push(w, n))
  {
    hide Reaches, Attempted;
    forall x | Attempted(Push(w, n), x) ensures Reaches(vfs, stop, root, x) {
      SameAttempts(w, n, x);
    }
  }

  lemma FinishTracked(vfs: Vfs, oracle: nat -> bool, stop: set<string>, root: seq<string>, w: World, n: string, imports: seq<string>)
    requires Tracked(vfs, stop, root, w) && Reaches(vfs, stop, root, n) && n !in stop
    ensures Tracked(vfs, stop, root, Finish(oracle, w, n, imports))
  {
    hide Reaches, Attempted;
    forall x | Attempted(Finish(oracle, w, n, imports), x) ensures Reaches(vfs, stop, root, x) {
      FinishAttempts(oracle, w, n, imports, x);
    }
  }

  lemma {:induction false} OneTracked(vfs: Vfs, oracle: nat -> bool, stop: set<string>, root: seq<string>, dll: string, w: World)
    requires Tracked(vfs, stop, root, w) && Leads(vfs, stop, root, [dll])
    ensures Tracked(vfs, stop, root, One(vfs, oracle, dll, w).0)
    ensures !One(vfs, oracle, dll, w).1 ==> BadFileReached(vfs, stop, root)
    decreases Room(vfs, [dll], w.loading), 0, 0
  {
    hide Room, Find, IsHostStub, Lower, Deps, Finish, Reaches;
    var n := Lower(dll);
    if !Skipped(vfs, w, n) {
      assert n in Names([dll]) && Wanted(vfs, stop, n);
      assert Reaches(vfs, stop, root, n);
      Shrinks(vfs, [dll], w, dll);
      PushTracked(vfs, stop, root, w, n);
      FoundLeads(vfs, stop, root, n);
      var c := Find(vfs, n).value;
      DepsTracked(vfs, oracle, stop, root, c, Push(w, n));
      var (w1, ok) := Deps(vfs, oracle, c, Push(w, n));
      if ok && c.Pe? {
        FinishTracked(vfs, oracle, stop, root, w1, n, c.imports);
      } else if ok {
        assert Find(vfs, n) == Some(Unparsable);
      }
    }
  }

  lemma {:induction false} EachTracked(vfs: Vfs, oracle: nat -> bool, stop: set<string>, root: seq<string>, imports: seq<string>, w: World)
    requires Tracked(vfs, stop, root, w) && Leads(vfs, stop, root, imports)
    ensures Tracked(vfs, stop, root, Each(vfs, oracle, imports, w).0)
    ensures !Each(vfs, oracle, imports, w).1 ==> BadFileReached(vfs, stop, root)
    decreases Room(vfs, imports, w.loading), 1, |imports|
  {
    hide Room, One, Reaches, Wanted, Tracked, BadFileReached, Lower;
    if imports != [] {
      FewerImports(vfs, imports, w.loading);
      assert Names([imports[0]]) <= Names(imports) && Names(imports[1..]) <= Names(imports);
      OneTracked(vfs, oracle, stop, root, imports[0], w);
      var (w1, ok) := One(vfs, oracle, imports[0], w);
      if ok {
        EachTracked(vfs, oracle, stop, root, imports[1..], w1);
      }
    }
  }

  lemma {:induction false} DepsTracked(vfs: Vfs, oracle: nat -> bool, stop: set<string>, root: seq<string>, c: Content, w: World)
    requires Tracked(vfs, stop, root, w) && Leads(vfs, stop, root, ImportsOf(c))
    ensures Tracked(vfs, stop, root, Deps(vfs, oracle, c, w).0)
    ensures !Deps(vfs, oracle, c, w).1 ==> BadFileReached(vfs, stop, root)
    decreases Room(vfs, ImportsOf(c), w.loading), 2, 0
  {
    hide Room, Each, Reaches, Leads, Tracked, BadFileReached;
    if c.Pe? {
      EachTracked(vfs, oracle, stop, root, c.imports, w);
    }
  }

  // ===== the walk visits everything it can reach =====

  /** What is there before the walk: the table, and the primary on the stack. */
  function Stop(modules: set<string>, name: string): set<string> { modules + {Lower(name)} }

  function Walk(vfs: Vfs, oracle: nat -> bool, modules: set<string>, name: string, c: Content): (World, bool) {
    Deps(vfs, oracle, c, Start(modules, name))
  }

  lemma WantedIsTried(vfs: Vfs, modules: set<string>, name: string, r: World, imports: seq<string>, n: string)
    requires r.loading == {Lower(name)} && (forall x :: x in r.modules <==> x in modules || Logged(r, x))
    requires AllSettled(vfs, r, imports) && n in Names(imports) && Wanted(vfs, Stop(modules, name), n)
    ensures Attempted(r, n)
  {
    hide Find, IsHostStub, Lower, Logged;
    var m :| m in imports && n == Lower(m);
    assert Settled(vfs, r, Lower(m));
  }

  lemma {:induction false} ReachedIsTried(vfs: Vfs, oracle: nat -> bool, modules: set<string>, name: string, c: Content, n: string, d: nat)
    requires Walk(vfs, oracle, modules, name, c).1 && ReachIn(vfs, Stop(modules, name), ImportsOf(c), n, d)
    ensures Attempted(Walk(vfs, oracle, modules, name, c).0, n)
    decreases d
  {
    hide Deps, Find, IsHostStub, AllSettled, InOrder, Attempted, Logged, Names;
    var stop := Stop(modules, name);
    var r := Walk(vfs, oracle, modules, name, c).0;
    PreloadDone(vfs, oracle, modules, name, c);
    if n in Names(ImportsOf(c)) {
      WantedIsTried(vfs, modules, name, r, ImportsOf(c), n);
    } else {
      var m :| ReachIn(vfs, stop, ImportsOf(c), m, d - 1) && n in Names(ImportsOf(Find(vfs, m).value));
      ReachedIsTried(vfs, oracle, modules, name, c, m, d - 1);
      WantedIsTried(vfs, modules, name, r, ImportsOf(Find(vfs, m).value), n);
    }
  }

  lemma StartTracked(vfs: Vfs, modules: set<string>, name: string, c: Content)
    ensures Tracked(vfs, Stop(modules, name), ImportsOf(c), Start(modules, name))
    ensures Leads(vfs, Stop(modules, name), ImportsOf(c), ImportsOf(c))
  {
    hide Wanted, Names, Lower;
    forall n | n in Names(ImportsOf(c)) && Wanted(vfs, Stop(modules, name), n)
      ensures Reaches(vfs, Stop(modules, name), ImportsOf(c), n)
    {
      ReachFirst(vfs, Stop(modules, name), ImportsOf(c), n);
    }
  }

  /** A successful walk tries exactly the names it can reach, whatever loads succeed. */
  lemma TriedExactly(vfs: Vfs, oracle: nat -> bool, modules: set<string>, name: string, c: Content, n: string)
    requires Walk(vfs, oracle, modules, name, c).1
    ensures Attempted(Walk(vfs, oracle, modules, name, c).0, n) <==> Reaches(vfs, Stop(modules, name), ImportsOf(c), n)
  {
    hide Deps, Attempted, Leads, Stop, Start;
    StartTracked(vfs, modules, name, c);
    DepsTracked(vfs, oracle, Stop(modules, name), ImportsOf(c), c, Start(modules, name));
    if Reaches(vfs, Stop(modules, name), ImportsOf(c), n) {
      var d: nat :| ReachIn(vfs, Stop(modules, name), ImportsOf(c), n, d);
      ReachedIsTried(vfs, oracle, modules, name, c, n, d);
    }
  }

  /** The walk succeeds exactly when it can reach no stored file that is not a PE. */
  lemma SucceedsExactly(vfs: Vfs, oracle: nat -> bool, modules: set<string>, name: string, c: Content)
    ensures Walk(vfs, oracle, modules, name, c).1 <==> !BadFileReached(vfs, Stop(modules, name), ImportsOf(c))
  {
    hide Deps, Tracked, Leads, Reaches, Stop, Find, Attempted;
    var stop := Stop(modules, name);
    StartTracked(vfs, modules, name, c);
    DepsTracked(vfs, oracle, stop, ImportsOf(c), c, Start(modules, name));
    if Walk(vfs, oracle, modules, name, c).1 {
      PreloadDone(vfs, oracle, modules, name, c);
      forall n | Reaches(vfs, stop, ImportsOf(c), n) ensures Find(vfs, n) != Some(Unparsable) {
        TriedExactly(vfs, oracle, modules, name, c, n);
      }
    }
  }

  // ===== once per file =====

  /** No stored file was loaded under two names, nor one that a name already in the module
      table, or the primary's, stands for. */
  predicate FilesOnce(vfs: Vfs, stop: set<string>, r: World) {
    && (forall i, k :: 0 <= i < k < |r.log| ==> KeyOf(vfs, r.log[i].name) != KeyOf(vfs, r.log[k].name))
    && (forall k, m :: 0 <= k < |r.log| && m in stop ==> KeyOf(vfs, r.log[k].name) != KeyOf(vfs, m))
  }

  /** No two reachable names stand for one stored file, and none stands for the file of a
      name already there. */
  ghost predicate NoAliases(vfs: Vfs, stop: set<string>, imports: seq<string>) {
    && (forall a, b :: Reaches(vfs, stop, imports, a) && Reaches(vfs, stop, imports, b) && KeyOf(vfs, a) == KeyOf(vfs, b) ==> a == b)
    && (forall a, m :: Reaches(vfs, stop, imports, a) && m in stop ==> KeyOf(vfs, a) != KeyOf(vfs, m))
  }

  const ALWAYS: nat -> bool := (_: nat) => true

  lemma {:induction false} OneNeverFails(vfs: Vfs, dll: string, w: World)
    ensures One(vfs, ALWAYS, dll, w).0.failed == w.failed
    decreases Room(vfs, [dll], w.loading), 0, 0
  {
    hide Room, Find, IsHostStub, Lower;
    var n := Lower(dll);
    if !Skipped(vfs, w, n) {
      Shrinks(vfs, [dll], w, dll);
      DepsNeverFails(vfs, Find(vfs, n).value, Push(w, n));
    }
  }

  lemma {:induction false} EachNeverFails(vfs: Vfs, imports: seq<string>, w: World)
    ensures Each(vfs, ALWAYS, imports, w).0.failed == w.failed
    decreases Room(vfs, imports, w.loading), 1, |imports|
  {
    hide Room, One, ALWAYS;
    if imports != [] {
      FewerImports(vfs, imports, w.loading);
      OneNeverFails(vfs, imports[0], w);
      var (w1, ok) := One(vfs, ALWAYS, imports[0], w);
      if ok {
        EachNeverFails(vfs, imports[1..], w1);
      }
    }
  }

  lemma {:induction false} DepsNeverFails(vfs: Vfs, c: Content, w: World)
    ensures Deps(vfs, ALWAYS, c, w).0.failed == w.failed
    decreases Room(vfs, ImportsOf(c), w.loading), 2, 0
  {
    hide Room, Each, ALWAYS;
    if c.Pe? {
      EachNeverFails(vfs, c.imports, w);
    }
  }

  lemma OnceWithoutAliases(vfs: Vfs, oracle: nat -> bool, modules: set<string>, name: string, c: Content)
    requires Walk(vfs, oracle, modules, name, c).1 && NoAliases(vfs, Stop(modules, name), ImportsOf(c))
    ensures FilesOnce(vfs, Stop(modules, name), Walk(vfs, oracle, modules, name, c).0)
  {
    hide Deps, Reaches, KeyOf, Stop, InOrder, AllSettled, Find;
    var r := Walk(vfs, oracle, modules, name, c).0;
    PreloadDone(vfs, oracle, modules, name, c);
    forall i, k | 0 <= i < k < |r.log| ensures KeyOf(vfs, r.log[i].name) != KeyOf(vfs, r.log[k].name) {
      assert Logged(r, r.log[i].name) && Logged(r, r.log[k].name);
      TriedExactly(vfs, oracle, modules, name, c, r.log[i].name);
      TriedExactly(vfs, oracle, modules, name, c, r.log[k].name);
    }
    forall k, m | 0 <= k < |r.log| && m in Stop(modules, name) ensures KeyOf(vfs, r.log[k].name) != KeyOf(vfs, m) {
      assert Logged(r, r.log[k].name);
      TriedExactly(vfs, oracle, modules, name, c, r.log[k].name);
    }
  }

  lemma AliasLoadedTwice(vfs: Vfs, modules: set<string>, name: string, c: Content, a: string, b: string)
    requires Walk(vfs, ALWAYS, modules, name, c).1 && a != b && KeyOf(vfs, a) == KeyOf(vfs, b)
    requires Reaches(vfs, Stop(modules, name), ImportsOf(c), a) && Reaches(vfs, Stop(modules, name), ImportsOf(c), b)
    ensures !FilesOnce(vfs, Stop(modules, name), Walk(vfs, ALWAYS, modules, name, c).0)
  {
    hide Deps, Reaches, KeyOf, Stop, ALWAYS;
    var r := Walk(vfs, ALWAYS, modules, name, c).0;
    DepsNeverFails(vfs, c, Start(modules, name));
    TriedExactly(vfs, ALWAYS, modules, name, c, a);
    TriedExactly(vfs, ALWAYS, modules, name, c, b);
    var i :| 0 <= i < |r.log| && r.log[i].name == a;
    var k :| 0 <= k < |r.log| && r.log[k].name == b;
    assert KeyOf(vfs, r.log[i].name) == KeyOf(vfs, r.log[k].name);
  }

  /** A reachable name for the file of a name already there loads it again. */
  lemma AliasReloaded(vfs: Vfs, modules: set<string>, name: string, c: Content, a: string, m: string)
    requires Walk(vfs, ALWAYS, modules, name, c).1 && m in Stop(modules, name) && KeyOf(vfs, a) == KeyOf(vfs, m)
    requires Reaches(vfs, Stop(modules, name), ImportsOf(c), a)
    ensures !FilesOnce(vfs, Stop(modules, name), Walk(vfs, ALWAYS, modules, name, c).0)
  {
    hide Deps, Reaches, KeyOf, Stop, ALWAYS;
    var r := Walk(vfs, ALWAYS, modules, name, c).0;
    DepsNeverFails(vfs, c, Start(modules, name));
    TriedExactly(vfs, ALWAYS, modules, name, c, a);
    var k :| 0 <= k < |r.log| && r.log[k].name == a;
    assert KeyOf(vfs, r.log[k].name) == KeyOf(vfs, m);
  }

  /** Where the walk succeeds, no stored file is loaded twice, and none that is there
      already is loaded again, whatever loads succeed, exactly when no two reachable names
      stand for one file and none stands for the file of a name already there. */
  lemma OncePerFileExactly(vfs: Vfs, modules: set<string>, name: string, c: Content)
    requires !BadFileReached(vfs, Stop(modules, name), ImportsOf(c))
    ensures (forall oracle: nat -> bool :: FilesOnce(vfs, Stop(modules, name), Walk(vfs, oracle, modules, name, c).0)) <==>
      NoAliases(vfs, Stop(modules, name), ImportsOf(c))
  {
    hide Walk, FilesOnce, Reaches, KeyOf, Stop, BadFileReached, ALWAYS;
    forall oracle: nat -> bool ensures Walk(vfs, oracle, modules, name, c).1 {
      SucceedsExactly(vfs, oracle, modules, name, c);
    }
    var stop, imports := Stop(modules, name), ImportsOf(c);
    if NoAliases(vfs, stop, imports) {
      forall oracle: nat -> bool ensures FilesOnce(vfs, Stop(modules, name), Walk(vfs, oracle, modules, name, c).0) {
        OnceWithoutAliases(vfs, oracle, modules, name, c);
      }
    } else if a, b :| Reaches(vfs, stop, imports, a) && Reaches(vfs, stop, imports, b) && KeyOf(vfs, a) == KeyOf(vfs, b) && a != b {
      AliasLoadedTwice(vfs, modules, name, c, a, b);
    } else {
      var a, m :| Reaches(vfs, stop, imports, a) && m in stop && KeyOf(vfs, a) == KeyOf(vfs, m);
      AliasReloaded(vfs, modules, name, c, a, m);
    }
  }

  // ===== one file under two names =====

  lemma {:induction false} KeyFromFolded(vfs: Vfs, paths: seq<string>, n: string)
    ensures KeyFrom(vfs, paths, Fold(n)) == KeyFrom(vfs, paths, n)
  {
    hide Shorten;
    if paths != [] {
      FoldFolds(n);
      assert Fold(paths[0] + n) == Fold(paths[0]) + Fold(n) == Fold(paths[0] + Fold(n));
      KeyFromFolded(vfs, paths[1..], n);
    }
  }

  /** Lookups normalise, so `sub\x.dll` and `sub/x.dll` stand for one file. */
  lemma SpellingsAlias(vfs: Vfs, n: string)
    ensures KeyOf(vfs, Fold(n)) == KeyOf(vfs, n)
  {
    hide SEARCH_PATHS, KeyFrom;
    KeyFromFolded(vfs, SEARCH_PATHS, n);
  }

  const X_KEY := "c:/windows/x.dll"

  const X_ONLY: Vfs := map[X_KEY := Pe([])]

  const X_TWICE: Content := Pe(["x.dll", X_KEY])

  lemma XNormal()
    ensures Normalize(X_KEY) == X_KEY
  {
    var k := X_KEY;
    forall i | 0 <= i < |k| ensures Fold(k)[i] == k[i] {
    }
    forall h | 0 <= h < |HIVES| ensures !Under(HIVES[h].0, k) {
      assert HIVES[h].0[0] == 'h' && (HIVES[h].0 + "/")[0] == 'h';
    }
    NormalIsFixed(k);
  }

  /** Both spellings resolve to the one stored file. */
  lemma XKeys()
    ensures KeyOf(X_ONLY, "x.dll") == Some(X_KEY) && KeyOf(X_ONLY, X_KEY) == Some(X_KEY)
  {
    hide Normalize, KeyFrom;
    XNormal();
    assert SEARCH_PATHS[5] == "c:/windows/" && SEARCH_PATHS[6] == "";
    assert "c:/windows/" + "x.dll" == X_KEY && "" + X_KEY == X_KEY;
    assert SEARCH_PATHS[5] in SEARCH_PATHS && SEARCH_PATHS[6] in SEARCH_PATHS;
  }

  lemma XNames()
    ensures Lower("x.dll") == "x.dll" && Lower(X_KEY) == X_KEY && Lower("a.exe") == "a.exe"
  {}

  /** The host stubs have names of other lengths. */
  lemma XNotStubbed()
    ensures !IsHostStub("x.dll") && !IsHostStub(X_KEY)
  {
    assert forall i :: 0 <= i < |HOST_STUBS| ==> |HOST_STUBS[i]| >= 7 && |HOST_STUBS[i]| != 16;
    assert |X_KEY| == 16 && |"x.dll"| == 5;
  }

  /** A program that imports `x.dll` and `c:/windows/x.dll` loads that file twice. */
  lemma OneFileTwice()
    ensures Walk(X_ONLY, ALWAYS, {}, "a.exe", X_TWICE).1
    ensures !FilesOnce(X_ONLY, Stop({}, "a.exe"), Walk(X_ONLY, ALWAYS, {}, "a.exe", X_TWICE).0)
  {
    hide Walk, FilesOnce, KeyOf, Lower, IsHostStub, ALWAYS;
    XKeys();
    XNames();
    XNotStubbed();
    var stop, imports := Stop({}, "a.exe"), ImportsOf(X_TWICE);
    assert "x.dll" in imports && X_KEY in imports;
    assert Lower("x.dll") in Names(imports) && Lower(X_KEY) in Names(imports);
    ReachFirst(X_ONLY, stop, imports, "x.dll");
    ReachFirst(X_ONLY, stop, imports, X_KEY);
    SucceedsExactly(X_ONLY, ALWAYS, {}, "a.exe", X_TWICE);
    AliasLoadedTwice(X_ONLY, {}, "a.exe", X_TWICE, "x.dll", X_KEY);
  }

  const X_AGAIN: Content := Pe([X_KEY])

  /** With `x.dll` in the module table, importing `c:/windows/x.dll` loads its file again,
      although the walk itself loads nothing twice. */
  lemma LoadedFileAgain()
    ensures Walk(X_ONLY, ALWAYS, {"x.dll"}, "a.exe", X_AGAIN).1
    ensures !FilesOnce(X_ONLY, Stop({"x.dll"}, "a.exe"), Walk(X_ONLY, ALWAYS, {"x.dll"}, "a.exe", X_AGAIN).0)
  {
    hide Walk, FilesOnce, KeyOf, Lower, IsHostStub, ALWAYS;
    XKeys();
    XNames();
    XNotStubbed();
    var stop, imports := Stop({"x.dll"}, "a.exe"), ImportsOf(X_AGAIN);
    assert X_KEY in imports && Lower(X_KEY) in Names(imports);
    assert "x.dll" in stop && |X_KEY| != |"x.dll"| && |X_KEY| != |"a.exe"|;
    ReachFirst(X_ONLY, stop, imports, X_KEY);
    SucceedsExactly(X_ONLY, ALWAYS, {"x.dll"}, "a.exe", X_AGAIN);
    AliasReloaded(X_ONLY, {"x.dll"}, "a.exe", X_AGAIN, X_KEY, "x.dll");
  }
}
