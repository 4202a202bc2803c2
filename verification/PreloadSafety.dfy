/** What the dependency walk keeps, what it visits, and when it loads a file once. */
module PreloadSafety {
  import opened Outcome
  import opened Preload

  // ===== the invariant =====

  /** From `w` to `r`: modules and failures only grow, and what is new in the table is
      exactly what the log gained, each once, none of it on the stack of `w`. */
  ghost predicate Grows(w: World, r: World) {
    && w.modules <= r.modules && w.failed <= r.failed && w.log <= r.log
    && (forall n :: n in r.modules <==> n in w.modules || exists k :: |w.log| <= k < |r.log| && r.log[k].name == n)
    && (forall k :: |w.log| <= k < |r.log| ==> r.log[k].name !in w.modules && r.log[k].name !in w.loading)
    && (forall i, k :: |w.log| <= i < k < |r.log| ==> r.log[i].name != r.log[k].name)
  }

  /** `m` needs nothing more in state `w`. */
  predicate Settled(vfs: Vfs, w: World, m: string) {
    m in w.modules || m in w.failed || m in w.loading || IsHostStub(m) || Find(vfs, m).None?
  }

  predicate AllSettled(vfs: Vfs, w: World, imports: seq<string>) {
    forall m :: m in imports ==> Settled(vfs, w, Lower(m))
  }

  predicate Logged(w: World, n: string) { exists k :: 0 <= k < |w.log| && w.log[k].name == n }

  /** A load of `n` was tried. */
  predicate Attempted(w: World, n: string) { n in w.failed || Logged(w, n) }

  /** What was tried is a stored PE, and its imports are accounted for. */
  ghost predicate Closed(vfs: Vfs, w: World) {
    forall n :: Attempted(w, n) ==>
      Find(vfs, n).Some? && Find(vfs, n).value.Pe? && AllSettled(vfs, w, Find(vfs, n).value.imports)
  }

  /** At the moment it was loaded, each import of `e` was loaded, host-stubbed, absent,
      failed or on the stack. */
  predicate InOrder(vfs: Vfs, e: Loaded) {
    && Find(vfs, e.name) == Some(Pe(e.imports))
    && forall m :: m in e.imports ==>
      || Lower(m) in e.modules || IsHostStub(Lower(m)) || Find(vfs, Lower(m)).None?
      || Lower(m) in e.failed || Lower(m) in e.stack
  }

  predicate AllInOrder(vfs: Vfs, w: World) { forall k :: 0 <= k < |w.log| ==> InOrder(vfs, w.log[k]) }

  lemma GrowsTransitive(w: World, m: World, r: World)
    requires Grows(w, m) && Grows(m, r) && w.loading <= m.loading
    ensures Grows(w, r)
  {
    forall n ensures n in r.modules <==> n in w.modules || exists k :: |w.log| <= k < |r.log| && r.log[k].name == n {
      if n in m.modules && n !in w.modules {
        var k :| |w.log| <= k < |m.log| && m.log[k].name == n;
        assert r.log[k] == m.log[k];
      }
      if k :| |w.log| <= k < |r.log| && r.log[k].name == n {
        if k < |m.log| {
          assert r.log[k] == m.log[k];
        }
      }
    }
    forall k | |w.log| <= k < |r.log| ensures r.log[k].name !in w.modules && r.log[k].name !in w.loading {
      if k < |m.log| {
        assert r.log[k] == m.log[k];
      }
    }
    forall i, k | |w.log| <= i < k < |r.log| ensures r.log[i].name != r.log[k].name {
      if i < |m.log| {
        assert r.log[i] == m.log[i];
        assert m.log[i].name in m.modules;
        if k < |m.log| {
          assert r.log[k] == m.log[k];
        }
      }
    }
  }

  ghost predicate Sound(vfs: Vfs, w: World, r: World) {
    Grows(w, r) && w.loading <= r.loading && Closed(vfs, r) && AllInOrder(vfs, r)
  }

  lemma SoundRefl(vfs: Vfs, w: World)
    requires Closed(vfs, w) && AllInOrder(vfs, w)
    ensures Sound(vfs, w, w)
  {
    hide Closed, AllInOrder;
  }

  lemma SoundTransitive(vfs: Vfs, w: World, m: World, r: World)
    requires Sound(vfs, w, m) && Sound(vfs, m, r)
    ensures Sound(vfs, w, r)
  {
    hide Closed, AllInOrder, Grows;
    GrowsTransitive(w, m, r);
  }

  lemma PushKeeps(vfs: Vfs, w: World, n: string)
    requires Closed(vfs, w) && AllInOrder(vfs, w)
    ensures Closed(vfs, Push(w, n)) && AllInOrder(vfs, Push(w, n))
  {
    hide IsHostStub, Find, Lower, InOrder;
    var r := Push(w, n);
    forall x | Attempted(r, x)
      ensures Find(vfs, x).Some? && Find(vfs, x).value.Pe? && AllSettled(vfs, r, Find(vfs, x).value.imports)
    {
      assert Attempted(w, x) by { SameAttempts(w, n, x); }
      forall m | m in Find(vfs, x).value.imports ensures Settled(vfs, r, Lower(m)) {
        assert Settled(vfs, w, Lower(m));
      }
    }
  }

  lemma SameAttempts(w: World, n: string, x: string)
    ensures Attempted(Push(w, n), x) <==> Attempted(w, x)
  {
    if Logged(w, x) {
      var k :| 0 <= k < |w.log| && w.log[k].name == x;
      assert Push(w, n).log[k].name == x;
    }
    if Logged(Push(w, n), x) {
      var k :| 0 <= k < |w.log| && Push(w, n).log[k].name == x;
      assert w.log[k].name == x;
    }
  }

  lemma PushSound(vfs: Vfs, w: World, n: string, r: World)
    requires Sound(vfs, Push(w, n), r)
    ensures Sound(vfs, w, r)
  {
    hide Closed, AllInOrder;
  }

  /** `n` off the stack is loaded or failed, so nothing it settled comes undone. */
  lemma FinishSettled(vfs: Vfs, oracle: nat -> bool, w: World, n: string, imports: seq<string>, m: string)
    requires Settled(vfs, w, m)
    ensures Settled(vfs, Finish(oracle, w, n, imports), m)
  {
    hide IsHostStub, Find;
  }

  lemma FinishAttempts(oracle: nat -> bool, w: World, n: string, imports: seq<string>, x: string)
    ensures Attempted(Finish(oracle, w, n, imports), x) <==> Attempted(w, x) || x == n
  {
    var r := Finish(oracle, w, n, imports);
    if Logged(w, x) {
      var k :| 0 <= k < |w.log| && w.log[k].name == x;
      assert r.log[k].name == x;
    }
    if Logged(r, x) {
      var k :| 0 <= k < |r.log| && r.log[k].name == x;
      assert k < |w.log| ==> w.log[k].name == x;
    }
    if oracle(w.attempts) {
      assert r.log[|w.log|].name == n;
    }
  }

  lemma FinishGrows(oracle: nat -> bool, w: World, w1: World, n: string, imports: seq<string>)
    requires Grows(Push(w, n), w1) && w1.loading == Push(w, n).loading && n !in w.modules && n !in w.loading
    ensures Grows(w, Finish(oracle, w1, n, imports)) && Finish(oracle, w1, n, imports).loading == w.loading
  {
    var r := Finish(oracle, w1, n, imports);
    if oracle(w1.attempts) {
      var last := |w1.log|;
      assert r.log[last].name == n;
      forall x ensures x in r.modules <==> x in w.modules || exists k :: |w.log| <= k < |r.log| && r.log[k].name == x {
        if x in w1.modules && x !in w.modules {
          var k :| |w.log| <= k < |w1.log| && w1.log[k].name == x;
          assert r.log[k] == w1.log[k];
        }
        if k :| |w.log| <= k < |r.log| && r.log[k].name == x {
          assert k < last ==> r.log[k] == w1.log[k];
        }
      }
      forall k | |w.log| <= k < |r.log| ensures r.log[k].name !in w.modules && r.log[k].name !in w.loading {
        assert k < last ==> r.log[k] == w1.log[k];
      }
      forall i, k | |w.log| <= i < k < |r.log| ensures r.log[i].name != r.log[k].name {
        assert r.log[i] == w1.log[i];
        assert k < last ==> r.log[k] == w1.log[k];
      }
    }
  }

  lemma FinishCloses(vfs: Vfs, oracle: nat -> bool, w: World, n: string, imports: seq<string>)
    requires Closed(vfs, w) && Find(vfs, n) == Some(Pe(imports)) && AllSettled(vfs, w, imports)
    ensures Closed(vfs, Finish(oracle, w, n, imports))
  {
    hide Lower, IsHostStub, Find, Settled, Finish, Attempted;
    var r := Finish(oracle, w, n, imports);
    forall x | Attempted(r, x)
      ensures Find(vfs, x).Some? && Find(vfs, x).value.Pe? && AllSettled(vfs, r, Find(vfs, x).value.imports)
    {
      FinishAttempts(oracle, w, n, imports, x);
      forall m | m in Find(vfs, x).value.imports ensures Settled(vfs, r, Lower(m)) {
        FinishSettled(vfs, oracle, w, n, imports, Lower(m));
      }
    }
  }

  lemma FinishOrders(vfs: Vfs, oracle: nat -> bool, w: World, n: string, imports: seq<string>)
    requires AllInOrder(vfs, w) && Find(vfs, n) == Some(Pe(imports)) && AllSettled(vfs, w, imports)
    ensures AllInOrder(vfs, Finish(oracle, w, n, imports))
  {
    hide Lower, IsHostStub, Find, InOrder;
    var r := Finish(oracle, w, n, imports);
    forall k | 0 <= k < |r.log| ensures InOrder(vfs, r.log[k]) {
      if k < |w.log| {
        assert r.log[k] == w.log[k];
      } else {
        EntryInOrder(vfs, w, n, imports);
      }
    }
  }

  lemma EntryInOrder(vfs: Vfs, w: World, n: string, imports: seq<string>)
    requires Find(vfs, n) == Some(Pe(imports)) && AllSettled(vfs, w, imports)
    ensures InOrder(vfs, Loaded(n, imports, w.modules, w.loading, w.failed))
  {
    hide Lower, IsHostStub, Find;
  }

  lemma GrowsSettled(vfs: Vfs, w: World, r: World, m: string)
    requires Settled(vfs, w, m) && Grows(w, r) && w.loading <= r.loading
    ensures Settled(vfs, r, m)
  {
    hide IsHostStub, Find;
  }

  lemma {:induction false} OneSound(vfs: Vfs, oracle: nat -> bool, dll: string, w: World)
    requires Closed(vfs, w) && AllInOrder(vfs, w)
    ensures Sound(vfs, w, One(vfs, oracle, dll, w).0)
    ensures One(vfs, oracle, dll, w).1 ==> Settled(vfs, One(vfs, oracle, dll, w).0, Lower(dll))
    decreases Room(vfs, [dll], w.loading), 0, 0
  {
    hide Room, Find, IsHostStub, Lower, Deps, Closed, AllInOrder, Grows, Finish;
    var n := Lower(dll);
    if Skipped(vfs, w, n) {
      SoundRefl(vfs, w);
    } else {
      Shrinks(vfs, [dll], w, dll);
      PushKeeps(vfs, w, n);
      var c := Find(vfs, n).value;
      var (w1, ok) := Deps(vfs, oracle, c, Push(w, n));
      DepsSound(vfs, oracle, c, Push(w, n));
      PushSound(vfs, w, n, w1);
      if ok && c.Pe? {
        FinishGrows(oracle, w, w1, n, c.imports);
        FinishCloses(vfs, oracle, w1, n, c.imports);
        FinishOrders(vfs, oracle, w1, n, c.imports);
        FinishSettled(vfs, oracle, w1, n, c.imports, n);
      }
    }
  }

  lemma {:induction false} EachSound(vfs: Vfs, oracle: nat -> bool, imports: seq<string>, w: World)
    requires Closed(vfs, w) && AllInOrder(vfs, w)
    ensures Sound(vfs, w, Each(vfs, oracle, imports, w).0)
    ensures Each(vfs, oracle, imports, w).1 ==> AllSettled(vfs, Each(vfs, oracle, imports, w).0, imports)
    decreases Room(vfs, imports, w.loading), 1, |imports|
  {
    hide Room, Lower, One, Closed, AllInOrder, Grows, Settled;
    if imports == [] {
      SoundRefl(vfs, w);
    } else {
      FewerImports(vfs, imports, w.loading);
      var (w1, ok) := One(vfs, oracle, imports[0], w);
      OneSound(vfs, oracle, imports[0], w);
      if ok {
        var r := Each(vfs, oracle, imports, w).0;
        EachSound(vfs, oracle, imports[1..], w1);
        SoundTransitive(vfs, w, w1, r);
        if Each(vfs, oracle, imports, w).1 {
          forall m | m in imports ensures Settled(vfs, r, Lower(m)) {
            if m == imports[0] {
              GrowsSettled(vfs, w1, r, Lower(m));
            } else {
              assert m in imports[1..];
            }
          }
        }
      }
    }
  }

  lemma {:induction false} DepsSound(vfs: Vfs, oracle: nat -> bool, c: Content, w: World)
    requires Closed(vfs, w) && AllInOrder(vfs, w)
    ensures Sound(vfs, w, Deps(vfs, oracle, c, w).0)
    ensures Deps(vfs, oracle, c, w).1 ==> AllSettled(vfs, Deps(vfs, oracle, c, w).0, ImportsOf(c))
    decreases Room(vfs, ImportsOf(c), w.loading), 2, 0
  {
    hide Room, Lower, Each, Closed, AllInOrder, Grows, Settled;
    if c.Unparsable? {
      SoundRefl(vfs, w);
    } else {
      EachSound(vfs, oracle, c.imports, w);
    }
  }

  // ===== a whole walk =====

  function Start(modules: set<string>, name: string): World { World(modules, {Lower(name)}, 0, {}, []) }

  lemma StartClosed(vfs: Vfs, modules: set<string>, name: string)
    ensures Closed(vfs, Start(modules, name)) && AllInOrder(vfs, Start(modules, name))
  {}

  /** A successful walk from the primary image, whatever the import graph: the load stack
      is restored, each name is loaded once and was not there before, every load came
      after its imports were settled, and in the end no import of anything loaded or tried
      is left over: it is loaded, failed, stubbed, absent, or the primary itself. */
  lemma PreloadDone(vfs: Vfs, oracle: nat -> bool, modules: set<string>, name: string, c: Content)
    requires Deps(vfs, oracle, c, Start(modules, name)).1
    ensures var r := Deps(vfs, oracle, c, Start(modules, name)).0;
      && r.loading == {Lower(name)}
      && (forall n :: n in r.modules <==> n in modules || Logged(r, n))
      && (forall k :: 0 <= k < |r.log| ==> r.log[k].name !in modules && r.log[k].name != Lower(name))
      && (forall i, k :: 0 <= i < k < |r.log| ==> r.log[i].name != r.log[k].name)
      && (forall k :: 0 <= k < |r.log| ==> InOrder(vfs, r.log[k]))
      && (forall n :: Attempted(r, n) ==>
            Find(vfs, n).Some? && Find(vfs, n).value.Pe? && AllSettled(vfs, r, Find(vfs, n).value.imports))
      && AllSettled(vfs, r, ImportsOf(c))
  {
    hide Deps, InOrder, AllSettled, Lower, Find;
    StartClosed(vfs, modules, name);
    DepsSound(vfs, oracle, c, Start(modules, name));
  }

  // ===== earlier walks =====

  /** The same state with an older log in front. */
  function After(older: seq<Loaded>, w: World): World { w.(log := older + w.log) }

  lemma FinishAfter(oracle: nat -> bool, older: seq<Loaded>, w: World, n: string, imports: seq<string>)
    ensures Finish(oracle, After(older, w), n, imports) == After(older, Finish(oracle, w, n, imports))
  {
    if oracle(w.attempts) {
      var e := Loaded(n, imports, w.modules, w.loading, w.failed);
      assert (older + w.log) + [e] == older + (w.log + [e]);
    }
  }

  lemma {:induction false} OneAfter(vfs: Vfs, oracle: nat -> bool, older: seq<Loaded>, dll: string, w: World)
    ensures One(vfs, oracle, dll, After(older, w)) == (After(older, One(vfs, oracle, dll, w).0), One(vfs, oracle, dll, w).1)
    decreases Room(vfs, [dll], w.loading), 0, 0
  {
    hide Room, Find, IsHostStub, Lower, Finish, Deps;
    var n := Lower(dll);
    if !Skipped(vfs, w, n) {
      Shrinks(vfs, [dll], w, dll);
      var c := Find(vfs, n).value;
      assert Push(After(older, w), n) == After(older, Push(w, n));
      DepsAfter(vfs, oracle, older, c, Push(w, n));
      if c.Pe? {
        FinishAfter(oracle, older, Deps(vfs, oracle, c, Push(w, n)).0, n, c.imports);
      }
    }
  }

  lemma {:induction false} EachAfter(vfs: Vfs, oracle: nat -> bool, older: seq<Loaded>, imports: seq<string>, w: World)
    ensures Each(vfs, oracle, imports, After(older, w)) ==
      (After(older, Each(vfs, oracle, imports, w).0), Each(vfs, oracle, imports, w).1)
    decreases Room(vfs, imports, w.loading), 1, |imports|
  {
    hide Room, One;
    if imports != [] {
      FewerImports(vfs, imports, w.loading);
      OneAfter(vfs, oracle, older, imports[0], w);
      var (w1, ok) := One(vfs, oracle, imports[0], w);
      if ok {
        EachAfter(vfs, oracle, older, imports[1..], w1);
      }
    }
  }

  /** What was loaded by earlier walks changes nothing but the front of the log. */
  lemma {:induction false} DepsAfter(vfs: Vfs, oracle: nat -> bool, older: seq<Loaded>, c: Content, w: World)
    ensures Deps(vfs, oracle, c, After(older, w)) == (After(older, Deps(vfs, oracle, c, w).0), Deps(vfs, oracle, c, w).1)
    decreases Room(vfs, ImportsOf(c), w.loading), 2, 0
  {
    hide Room, Each;
    if c.Pe? {
      EachAfter(vfs, oracle, older, c.imports, w);
    }
  }
}
