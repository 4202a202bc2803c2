/** The dependency loader as an object: the module table and the load stack updated by a
    recursive loop. */
module PreloadProgram {
  import opened Outcome
  import opened Paths
  import opened Preload
  import opened PreloadSafety

  /** The search-path loop. */
  method LookUp(vfs: Vfs, name: string) returns (r: Option<Content>)
    ensures r == Find(vfs, name)
  {
    hide SEARCH_PATHS, Normalize;
    for i := 0 to |SEARCH_PATHS|
      invariant KeyOf(vfs, name) == KeyFrom(vfs, SEARCH_PATHS[i..], name)
    {
      assert SEARCH_PATHS[i..][0] == SEARCH_PATHS[i] && SEARCH_PATHS[i..][1..] == SEARCH_PATHS[i + 1..];
      var key := NormalizePath(SEARCH_PATHS[i] + name);
      if key in vfs {
        return Some(vfs[key]);
      }
    }
    r := None;
  }

  class Loader {
    var modules: set<string>
    var loading: set<string>
    var attempts: nat
    ghost var failed: set<string>
    ghost var log: seq<Loaded>

    ghost function View(): World
      reads this
    {
      World(modules, loading, attempts, failed, log)
    }

    constructor (modules: set<string>)
      ensures View() == World(modules, {}, 0, {}, [])
    {
      this.modules := modules;
      loading := {};
      attempts := 0;
      failed := {};
      log := [];
    }

    /** `load_with_options` and the bookkeeping around it. */
    method LoadOne(oracle: nat -> bool, n: string, imports: seq<string>)
      modifies this
      ensures View() == Finish(oracle, old(View()), n, imports)
    {
      var loaded := oracle(attempts);
      attempts := attempts + 1;
      if !loaded {
        failed := failed + {n};
        loading := loading - {n};
        return;
      }
      log := log + [Loaded(n, imports, modules, loading, failed)];
      modules := modules + {n};
      loading := loading - {n};
    }

    /** `preload_deps`: it terminates because every level of the recursion puts one more of
        the finitely many imported names on the stack. */
    method PreloadDeps(vfs: Vfs, oracle: nat -> bool, c: Content) returns (ok: bool)
      modifies this
      ensures (View(), ok) == Deps(vfs, oracle, c, old(View()))
      decreases Room(vfs, ImportsOf(c), loading)
    {
      hide Room, Find, IsHostStub, Lower, Finish;
      if c.Unparsable? {
        return true;
      }
      ghost var before := View();
      assert c.imports[0..] == c.imports;
      for i := 0 to |c.imports|
        invariant loading == before.loading
        invariant Each(vfs, oracle, c.imports, before) == Each(vfs, oracle, c.imports[i..], View())
      {
        ghost var w := View();
        assert c.imports[i..][0] == c.imports[i] && c.imports[i..][1..] == c.imports[i + 1..];
        var n := Lower(c.imports[i]);
        if n in loading {
          continue;
        }
        if IsHostStub(n) {
          continue;
        }
        if n in modules {
          continue;
        }
        var found := LookUp(vfs, n);
        if found.None? {
          continue;
        }
        Shrinks(vfs, c.imports, w, c.imports[i]);
        loading := loading + {n};
        ok := PreloadDeps(vfs, oracle, found.value);
        if !ok || found.value.Unparsable? {
          return false;
        }
        LoadOne(oracle, n, found.value.imports);
      }
      ok := true;
    }

    /** The head of `load_with_deps`, on a loader in any state: the load stack is new for
        every call, and so are the failures of the walk and the attempts its oracle counts. */
    method LoadDeps(vfs: Vfs, oracle: nat -> bool, name: string, c: Content) returns (ok: bool)
      modifies this
      ensures var (r, k) := Deps(vfs, oracle, c, Start(old(modules), name));
        && ok == k && loading == {}
        && modules == r.modules && attempts == r.attempts && failed == r.failed && log == old(log) + r.log
    {
      hide Deps, Lower;
      loading := {Lower(name)};
      attempts := 0;
      failed := {};
      ghost var start := Start(modules, name);
      assert View() == After(log, start);
      DepsAfter(vfs, oracle, log, c, start);
      ok := PreloadDeps(vfs, oracle, c);
      loading := {};
    }
  }
}
