/** Loading a DLL's dependencies: a depth-first walk over import tables that must survive
    cycles and load each module once, after what it imports. */
module Preload {
  import opened Outcome
  import opened Paths

  /** A file as the loader sees it: not a PE, or a PE with its import table. */
  datatype Content = Unparsable | Pe(imports: seq<string>)

  /** Stored files by their normalised keys. */
  type Vfs = map<string, Content>

  function LowerChar(c: char): char {
    if 'A' <= c <= 'Z' then (c as int + 32) as char else c
  }

  /** `to_ascii_lowercase`. */
  function Lower(s: string): (r: string)
    ensures |r| == |s|
  {
    seq(|s|, i requires 0 <= i < |s| => LowerChar(s[i]))
  }

  const HOST_STUBS: seq<string> := [
    "kernel32.dll", "user32.dll", "gdi32.dll", "msvcrt.dll", "msvcr80.dll", "msvcr90.dll", "msvcr100.dll",
    "msvcr110.dll", "msvcr120.dll", "ole32.dll", "oleaut32.dll", "advapi32.dll", "comctl32.dll", "shell32.dll",
    "shlwapi.dll", "winmm.dll", "version.dll", "vfw32.dll", "msi.dll", "mfplat.dll", "ws2_32.dll", "wsock32.dll",
    "ntdll.dll", "imm32.dll", "rpcrt4.dll", "secur32.dll", "crypt32.dll", "iphlpapi.dll", "wininet.dll",
    "urlmon.dll", "psapi.dll", "userenv.dll", "comdlg32.dll", "corefoundation.dll"]

  predicate IsHostStub(name: string) { name in HOST_STUBS }

  const SEARCH_PATHS: seq<string> := [
    "c:/program files/quicktime/qtsystem/", "c:/program files/quicktime/",
    "c:/program files/common files/apple/apple application support/",
    "c:/common files/apple/apple application support/", "c:/windows/system32/", "c:/windows/", ""]

  /** The key of the first search path under which the file exists; every lookup
      normalises its path. */
  function KeyFrom(vfs: Vfs, paths: seq<string>, name: string): (r: Option<string>)
    ensures r.Some? ==> r.value in vfs && exists p :: p in paths && r.value == Normalize(p + name)
    ensures r.None? ==> forall p :: p in paths ==> Normalize(p + name) !in vfs
  {
    if paths == [] then None
    else if Normalize(paths[0] + name) in vfs then Some(Normalize(paths[0] + name))
    else KeyFrom(vfs, paths[1..], name)
  }

  /** The stored file a DLL name stands for. */
  function KeyOf(vfs: Vfs, name: string): (r: Option<string>)
    ensures r.Some? ==> r.value in vfs
  {
    KeyFrom(vfs, SEARCH_PATHS, name)
  }

  function Find(vfs: Vfs, name: string): (r: Option<Content>)
    ensures r.Some? ==> r.value in vfs.Values
  {
    match KeyOf(vfs, name)
    case None => None
    case Some(k) => Some(vfs[k])
  }

  /** The lower-cased names in an import table. */
  function Names(imports: seq<string>): set<string> { set m | m in imports :: Lower(m) }

  function ImportsOf(c: Content): seq<string> { if c.Pe? then c.imports else [] }

  /** Every name any stored file imports. */
  function StoredNames(vfs: Vfs): set<string> {
    set k, m | k in vfs && m in ImportsOf(vfs[k]) :: Lower(m)
  }

  /** The names a walk from `imports` can meet: finitely many, whatever they resolve to. */
  function Universe(vfs: Vfs, imports: seq<string>): set<string> { StoredNames(vfs) + Names(imports) }

  /** How many of them are not on the load stack. */
  function Room(vfs: Vfs, imports: seq<string>, loading: set<string>): nat {
    |Universe(vfs, imports) - loading|
  }

  /** `failed` and `log` are history: what failed to load, and what was loaded with the
      module table, load stack and failures of that moment. */
  datatype Loaded = Loaded(name: string, imports: seq<string>, modules: set<string>, stack: set<string>, failed: set<string>)

  datatype World = World(modules: set<string>, loading: set<string>, attempts: nat, failed: set<string>, log: seq<Loaded>)

  // ===== the walk =====

  function Push(w: World, n: string): World { w.(loading := w.loading + {n}) }

  /** The load of `n` once its dependencies are in; the oracle says whether it succeeds. */
  function Finish(oracle: nat -> bool, w: World, n: string, imports: seq<string>): World {
    if oracle(w.attempts) then
      w.(modules := w.modules + {n}, loading := w.loading - {n}, attempts := w.attempts + 1,
         log := w.log + [Loaded(n, imports, w.modules, w.loading, w.failed)])
    else
      w.(loading := w.loading - {n}, attempts := w.attempts + 1, failed := w.failed + {n})
  }

  /** Left alone: on the load stack, stubbed by the host, loaded, or nowhere to be found. */
  predicate Skipped(vfs: Vfs, w: World, n: string) {
    n in w.loading || IsHostStub(n) || n in w.modules || Find(vfs, n).None?
  }

  lemma SmallerSet(a: set<string>, b: set<string>)
    requires a <= b
    ensures |a| <= |b| && (a != b ==> |a| < |b|)
  {
    assert b == a + (b - a) && a !! (b - a);
    assert |b| == |a| + |b - a|;
  }

  /** Putting a name met on the way on the stack leaves strictly less room for the file it
      stands for, whose imports are all stored names. */
  lemma Shrinks(vfs: Vfs, imports: seq<string>, w: World, dll: string)
    requires dll in imports && !Skipped(vfs, w, Lower(dll))
    ensures Room(vfs, ImportsOf(Find(vfs, Lower(dll)).value), Push(w, Lower(dll)).loading) < Room(vfs, imports, w.loading)
  {
    hide Find, IsHostStub, Lower;
    var n := Lower(dll);
    var c := Find(vfs, n).value;
    var k :| k in vfs && vfs[k] == c;
    assert Names(ImportsOf(c)) <= StoredNames(vfs);
    assert n in Universe(vfs, imports) - w.loading;
    SmallerSet(Universe(vfs, ImportsOf(c)) - Push(w, n).loading, Universe(vfs, imports) - w.loading);
  }

  lemma FewerImports(vfs: Vfs, imports: seq<string>, loading: set<string>)
    requires imports != []
    ensures Room(vfs, imports[1..], loading) <= Room(vfs, imports, loading)
    ensures Room(vfs, [imports[0]], loading) <= Room(vfs, imports, loading)
  {
    hide Lower, StoredNames;
    assert Names(imports[1..]) <= Names(imports) && Names([imports[0]]) <= Names(imports);
    SmallerSet(Universe(vfs, imports[1..]) - loading, Universe(vfs, imports) - loading);
    SmallerSet(Universe(vfs, [imports[0]]) - loading, Universe(vfs, imports) - loading);
  }

  /** One import: the new state, and whether to go on. */
  function One(vfs: Vfs, oracle: nat -> bool, dll: string, w: World): (r: (World, bool))
    ensures r.1 ==> r.0.loading == w.loading
    decreases Room(vfs, [dll], w.loading), 0, 0
  {
    hide IsHostStub, Find, Room, Lower;
    var n := Lower(dll);
    if Skipped(vfs, w, n) then (w, true)
    else
      Shrinks(vfs, [dll], w, dll);
      var c := Find(vfs, n).value;
      var (w1, ok) := Deps(vfs, oracle, c, Push(w, n));
      if !ok || c.Unparsable? then (w1, false)
      else (Finish(oracle, w1, n, c.imports), true)
  }

  function Each(vfs: Vfs, oracle: nat -> bool, imports: seq<string>, w: World): (r: (World, bool))
    ensures r.1 ==> r.0.loading == w.loading
    decreases Room(vfs, imports, w.loading), 1, |imports|
  {
    hide Room;
    if imports == [] then (w, true)
    else
      FewerImports(vfs, imports, w.loading);
      var (w1, ok) := One(vfs, oracle, imports[0], w);
      if !ok then (w1, false) else Each(vfs, oracle, imports[1..], w1)
  }

  /** `preload_deps`. */
  function Deps(vfs: Vfs, oracle: nat -> bool, c: Content, w: World): (r: (World, bool))
    ensures r.1 ==> r.0.loading == w.loading
    decreases Room(vfs, ImportsOf(c), w.loading), 2, 0
  {
    hide Room;
    if c.Unparsable? then (w, true) else Each(vfs, oracle, c.imports, w)
  }
}
