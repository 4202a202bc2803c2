/** Discovered functions: merging what several sources say about one address, filling in
    sizes from neighbours, and looking up the function around an address. */
module FunctionMap {
  import opened Bytes
  import opened Outcome

  /** Confidence, ascending: 0 is a prologue match, 8 a user override. */
  type Source = x: int | 0 <= x <= 8 witness 0

  const PLT: Source := 5

  datatype Function = Function(addr: nat, size: nat, name: string, sources: seq<Source>)

  // ===== source lists =====

  function Push(s: seq<Source>, x: Source): seq<Source> { if x in s then s else s + [x] }

  function PushAll(s: seq<Source>, more: seq<Source>): seq<Source>
    decreases |more|
  {
    if more == [] then s else PushAll(Push(s, more[0]), more[1..])
  }

  function Insert(s: seq<Source>, x: Source): seq<Source> {
    if s == [] || x < s[0] then [x] + s else [s[0]] + Insert(s[1..], x)
  }

  /** `sort`. */
  function Sort(s: seq<Source>): seq<Source> {
    if s == [] then [] else Insert(Sort(s[..|s| - 1]), s[|s| - 1])
  }

  function Max(s: seq<Source>): (r: Option<Source>)
    ensures r.None? <==> s == []
    ensures r.Some? ==> r.value in s && forall x :: x in s ==> x <= r.value
  {
    if s == [] then None
    else
      assert s == [s[0]] + s[1..];
      var rest := Max(s[1..]);
      if rest.Some? && rest.value >= s[0] then rest else Some(s[0])
  }

  // ===== merging =====

  predicate PltSized(f: Function) { PLT in f.sources && f.size > 0 }

  function MergedSize(f: Function, g: Function): nat {
    if (PltSized(g) && !PltSized(f)) || (g.size > 0 && f.size == 0) then g.size else f.size
  }

  function MergedName(f: Function, g: Function): string {
    match (Max(f.sources), Max(g.sources))
    case (Some(a), Some(b)) => if b > a then g.name else f.name
    case (None, _) => g.name
    case (Some(_), None) => f.name
  }

  /** `merge_in`. */
  function Merge(f: Function, g: Function): Function {
    Function(f.addr, MergedSize(f, g), MergedName(f, g), Sort(PushAll(f.sources, g.sources)))
  }

  /** The records of one address, merged in the order they come. */
  function MergeAll(rs: seq<Function>): Function
    requires rs != []
    decreases |rs|
  {
    if |rs| == 1 then rs[0] else Merge(MergeAll(rs[..|rs| - 1]), rs[|rs| - 1])
  }

  // ===== what a merged record says =====

  predicate Increasing(s: seq<Source>) { forall i, j :: 0 <= i < j < |s| ==> s[i] < s[j] }

  lemma {:induction false} InsertSorted(s: seq<Source>, x: Source)
    requires Increasing(s) && x !in s
    ensures Increasing(Insert(s, x))
    ensures forall y :: y in Insert(s, x) <==> y == x || y in s
  {
    if s != [] && !(x < s[0]) {
      var t := Insert(s[1..], x);
      assert s == [s[0]] + s[1..];
      InsertSorted(s[1..], x);
      forall i | 0 <= i < |t| ensures t[i] > s[0] {
        assert t[i] in t;
      }
    } else {
      assert Insert(s, x) == [x] + s;
    }
  }

  predicate NoRepeats(s: seq<Source>) { forall i, j :: 0 <= i < j < |s| ==> s[i] != s[j] }

  lemma {:induction false} SortSorts(s: seq<Source>)
    requires NoRepeats(s)
    ensures Increasing(Sort(s))
    ensures forall y :: y in Sort(s) <==> y in s
  {
    if s != [] {
      var n := |s| - 1;
      assert s == s[..n] + [s[n]];
      SortSorts(s[..n]);
      assert s[n] !in s[..n];
      InsertSorted(Sort(s[..n]), s[n]);
    }
  }

  /** An increasing list is determined by its elements. */
  lemma {:induction false} IncreasingUnique(a: seq<Source>, b: seq<Source>)
    requires Increasing(a) && Increasing(b) && forall x :: x in a <==> x in b
    ensures a == b
  {
    if a == [] {
      NonEmpty(b);
    } else {
      assert a[0] in a && a[0] in b;
      assert b[0] in b && b[0] in a;
      assert a[0] == b[0];
      forall x ensures x in a[1..] <==> x in b[1..] {
        TailElements(a, x);
        TailElements(b, x);
      }
      IncreasingUnique(a[1..], b[1..]);
      assert a == [a[0]] + a[1..] && b == [b[0]] + b[1..];
    }
  }

  lemma NonEmpty(b: seq<Source>)
    ensures b != [] ==> exists x :: x in b
  {
    if b != [] {
      assert b[0] in b;
    }
  }

  lemma TailElements(a: seq<Source>, x: Source)
    requires Increasing(a) && a != []
    ensures x in a[1..] <==> x in a && x != a[0]
  {
    assert a == [a[0]] + a[1..];
    if x in a[1..] {
      var i :| 0 <= i < |a[1..]| && a[1..][i] == x;
      assert a[i + 1] == x;
    }
  }

  // ===== order independence =====

  /** One record per source, each with that source alone. */
  predicate SingleSourced(rs: seq<Function>) {
    && (forall i :: 0 <= i < |rs| ==> |rs[i].sources| == 1)
    && forall i, j :: 0 <= i < j < |rs| ==> rs[i].sources[0] != rs[j].sources[0]
  }

  predicate Speaks(rs: seq<Function>, x: Source) { exists r :: r in rs && r.sources == [x] }

  /** The best-informed record. */
  predicate IsBest(rs: seq<Function>, r: Function) {
    r in rs && |r.sources| == 1 && forall q :: q in rs && |q.sources| == 1 ==> q.sources[0] <= r.sources[0]
  }

  function FirstSize(rs: seq<Function>): nat {
    if rs == [] then 0 else if rs[0].size > 0 then rs[0].size else FirstSize(rs[1..])
  }

  predicate PltSays(rs: seq<Function>, size: nat) { exists r :: r in rs && r.sources == [PLT] && r.size == size > 0 }

  /** Sources sorted and complete, the best name, the PLT size or else the first one known. */
  ghost predicate Merged(rs: seq<Function>, f: Function) {
    && Increasing(f.sources)
    && (forall x :: x in f.sources <==> Speaks(rs, x))
    && (exists r :: IsBest(rs, r) && f.name == r.name)
    && (forall size :: PltSays(rs, size) ==> f.size == size)
    && ((forall size :: !PltSays(rs, size)) ==> f.size == FirstSize(rs))
  }

  lemma Snoc(rs: seq<Function>, n: nat, r: Function)
    requires |rs| == n + 1
    ensures r in rs <==> r in rs[..n] || r == rs[n]
  {
    assert rs == rs[..n] + [rs[n]];
  }

  lemma {:induction false} FirstSizeSnoc(rs: seq<Function>, g: Function)
    ensures FirstSize(rs + [g]) == if FirstSize(rs) > 0 then FirstSize(rs) else g.size
  {
    if rs == [] {
      assert rs + [g] == [g] && [g][1..] == [];
    } else {
      assert (rs + [g])[1..] == rs[1..] + [g];
      FirstSizeSnoc(rs[1..], g);
    }
  }

  lemma SpeaksSnoc(rs: seq<Function>, n: nat, x: Source)
    requires |rs| == n + 1
    ensures Speaks(rs, x) <==> Speaks(rs[..n], x) || rs[n].sources == [x]
  {
    if r :| r in rs && r.sources == [x] {
      Snoc(rs, n, r);
    }
    if r :| r in rs[..n] && r.sources == [x] {
      Snoc(rs, n, r);
    }
    Snoc(rs, n, rs[n]);
  }

  /** A record with a source not yet heard from. */
  lemma NewSource(rs: seq<Function>, n: nat)
    requires |rs| == n + 1 && SingleSourced(rs)
    ensures !Speaks(rs[..n], rs[n].sources[0])
  {
    forall r | r in rs[..n] ensures r.sources != [rs[n].sources[0]] {
      var i :| 0 <= i < n && rs[..n][i] == r;
      assert rs[i] == r;
    }
  }

  lemma SourcesMerge(rs: seq<Function>, n: nat, f: Function)
    requires |rs| == n + 1 && SingleSourced(rs) && Merged(rs[..n], f)
    ensures var r := Merge(f, rs[n]);
      Increasing(r.sources) && forall x :: x in r.sources <==> Speaks(rs, x)
  {
    hide Speaks, IsBest, PltSays, FirstSize, MergedSize, MergedName, Sort;
    var x := rs[n].sources[0];
    NewSource(rs, n);
    var all := f.sources + [x];
    assert rs[n].sources == [x] && [x][1..] == [];
    assert PushAll(f.sources, rs[n].sources) == all;
    SortSorts(all);
    forall y ensures y in all <==> Speaks(rs, y) {
      SpeaksSnoc(rs, n, y);
    }
  }

  lemma NameMerge(rs: seq<Function>, n: nat, f: Function)
    requires |rs| == n + 1 && n > 0 && SingleSourced(rs) && Merged(rs[..n], f)
    ensures exists r :: IsBest(rs, r) && MergedName(f, rs[n]) == r.name
  {
    hide PltSays, FirstSize, Increasing;
    var g := rs[n];
    var best :| IsBest(rs[..n], best) && f.name == best.name;
    assert Speaks(rs[..n], best.sources[0]) by { assert best.sources == [best.sources[0]]; }
    var a := Max(f.sources).value;
    assert a == best.sources[0] by {
      assert Speaks(rs[..n], a);
      var r :| r in rs[..n] && r.sources == [a];
    }
    assert Max(g.sources) == Some(g.sources[0]) by { assert g.sources == [g.sources[0]]; }
    var winner := if g.sources[0] > a then g else best;
    forall q | q in rs && |q.sources| == 1 ensures q.sources[0] <= winner.sources[0] {
      Snoc(rs, n, q);
    }
    Snoc(rs, n, winner);
    assert IsBest(rs, winner) && MergedName(f, g) == winner.name;
  }

  lemma PltSnoc(rs: seq<Function>, n: nat, size: nat)
    requires |rs| == n + 1
    ensures PltSays(rs, size) <==> PltSays(rs[..n], size) || (rs[n].sources == [PLT] && rs[n].size == size > 0)
  {
    if r :| r in rs && r.sources == [PLT] && r.size == size > 0 {
      Snoc(rs, n, r);
    }
    if r :| r in rs[..n] && r.sources == [PLT] && r.size == size > 0 {
      Snoc(rs, n, r);
    }
    Snoc(rs, n, rs[n]);
  }

  /** The PLT's own size replaces whatever was there. */
  lemma PltArrives(rs: seq<Function>, n: nat, f: Function)
    requires |rs| == n + 1 && rs[n].sources == [PLT] && rs[n].size > 0
    requires PLT !in f.sources && !Speaks(rs[..n], PLT)
    ensures MergedSize(f, rs[n]) == rs[n].size && PltSays(rs, rs[n].size)
    ensures forall size :: PltSays(rs, size) ==> size == rs[n].size
  {
    hide PltSays, Speaks;
    forall size | PltSays(rs, size) ensures size == rs[n].size {
      PltSnoc(rs, n, size);
      if PltSays(rs[..n], size) {
        PltSpeaks(rs[..n], size);
      }
    }
    PltSnoc(rs, n, rs[n].size);
  }

  /** Once the PLT has spoken its size stays. */
  lemma PltStays(rs: seq<Function>, n: nat, f: Function)
    requires |rs| == n + 1 && PLT !in rs[n].sources && PltSays(rs[..n], f.size)
    requires forall size :: PltSays(rs[..n], size) ==> f.size == size
    ensures MergedSize(f, rs[n]) == f.size && PltSays(rs, f.size)
    ensures forall size :: PltSays(rs, size) ==> size == f.size
  {
    hide PltSays;
    PltSpeaks(rs[..n], f.size);
    forall size | PltSays(rs, size) ensures size == f.size {
      PltSnoc(rs, n, size);
    }
    PltSnoc(rs, n, f.size);
  }

  /** Without the PLT the first size known stays. */
  lemma FirstStays(rs: seq<Function>, n: nat, f: Function)
    requires |rs| == n + 1 && !PltSized(rs[n]) && f.size == FirstSize(rs[..n])
    ensures MergedSize(f, rs[n]) == FirstSize(rs)
  {
    hide FirstSize;
    assert rs == rs[..n] + [rs[n]];
    FirstSizeSnoc(rs[..n], rs[n]);
  }

  lemma MergedSizes(rs: seq<Function>, f: Function)
    requires Merged(rs, f)
    ensures forall size :: PltSays(rs, size) ==> f.size == size
    ensures (forall size :: !PltSays(rs, size)) ==> f.size == FirstSize(rs)
    ensures PLT in f.sources <==> Speaks(rs, PLT)
  {
    hide PltSays, FirstSize, Increasing, IsBest, Speaks;
  }

  lemma SizeMerge(rs: seq<Function>, n: nat, f: Function)
    requires |rs| == n + 1 && n > 0 && SingleSourced(rs) && Merged(rs[..n], f)
    ensures forall size :: PltSays(rs, size) ==> MergedSize(f, rs[n]) == size
    ensures (forall size :: !PltSays(rs, size)) ==> MergedSize(f, rs[n]) == FirstSize(rs)
  {
    hide PltSays, FirstSize, Merged, Speaks, MergedSize;
    var g := rs[n];
    assert g.sources == [g.sources[0]];
    NewSource(rs, n);
    MergedSizes(rs[..n], f);
    if g.sources[0] == PLT && g.size > 0 {
      PltArrives(rs, n, f);
    } else if s :| PltSays(rs[..n], s) {
      PltSpeaks(rs[..n], s);
      PltStays(rs, n, f);
    } else {
      forall size ensures !PltSays(rs, size) {
        PltSnoc(rs, n, size);
      }
      FirstStays(rs, n, f);
    }
  }

  lemma PltSpeaks(rs: seq<Function>, size: nat)
    requires PltSays(rs, size)
    ensures size > 0 && Speaks(rs, PLT)
  {}

  /** Merging single-source records in the order they come gives what `Merged` says. */
  lemma {:induction false} MergeAllMerges(rs: seq<Function>)
    requires rs != [] && SingleSourced(rs)
    ensures Merged(rs, MergeAll(rs))
    decreases |rs|
  {
    hide SingleSourced, Merge;
    if |rs| == 1 {
      OneRecord(rs);
    } else {
      var n := |rs| - 1;
      assert SingleSourced(rs[..n]) by { FewerSources(rs, n); }
      MergeAllMerges(rs[..n]);
      var f := MergeAll(rs[..n]);
      SourcesMerge(rs, n, f);
      NameMerge(rs, n, f);
      SizeMerge(rs, n, f);
      assert MergeAll(rs) == Merge(f, rs[n]);
      MergeParts(f, rs[n]);
    }
  }

  lemma MergeParts(f: Function, g: Function)
    ensures Merge(f, g).name == MergedName(f, g) && Merge(f, g).size == MergedSize(f, g) && Merge(f, g).addr == f.addr
  {}

  lemma FewerSources(rs: seq<Function>, n: nat)
    requires SingleSourced(rs) && n <= |rs|
    ensures SingleSourced(rs[..n])
  {}

  lemma OneRecord(rs: seq<Function>)
    requires |rs| == 1 && SingleSourced(rs)
    ensures Merged(rs, rs[0])
  {
    var r := rs[0];
    assert rs == [r] && r.sources == [r.sources[0]] && rs[1..] == [];
    assert r in rs && IsBest(rs, r);
    forall x ensures x in r.sources <==> Speaks(rs, x) {
    }
  }

  predicate SameRecords(p: seq<Function>, q: seq<Function>) {
    (forall r :: r in p ==> r in q) && (forall r :: r in q ==> r in p)
  }

  /** The PLT knows the size, or nobody who knows one disagrees. */
  predicate SizeSettled(rs: seq<Function>) {
    || (exists r :: r in rs && PltSays(rs, r.size))
    || forall r, q :: r in rs && q in rs && r.size > 0 && q.size > 0 ==> r.size == q.size
  }

  lemma SameSource(rs: seq<Function>, r: Function, q: Function)
    requires SingleSourced(rs) && r in rs && q in rs && r.sources[0] == q.sources[0]
    ensures r == q
  {
    var i :| 0 <= i < |rs| && rs[i] == r;
    var j :| 0 <= j < |rs| && rs[j] == q;
  }

  lemma {:induction false} FirstSizeFrom(rs: seq<Function>)
    ensures FirstSize(rs) > 0 ==> exists r :: r in rs && r.size == FirstSize(rs)
    ensures (exists r :: r in rs && r.size > 0) ==> FirstSize(rs) > 0
  {
    if rs != [] {
      FirstSizeFrom(rs[1..]);
      assert rs == [rs[0]] + rs[1..];
    }
  }

  lemma SameNamesAndSources(p: seq<Function>, q: seq<Function>, f: Function, g: Function)
    requires SingleSourced(p) && SingleSourced(q) && SameRecords(p, q) && Merged(p, f) && Merged(q, g)
    ensures f.name == g.name && f.sources == g.sources
  {
    hide PltSays, FirstSize;
    forall x ensures Speaks(p, x) <==> Speaks(q, x) {
    }
    IncreasingUnique(f.sources, g.sources);
    var r :| IsBest(p, r) && f.name == r.name;
    var s :| IsBest(q, s) && g.name == s.name;
    SameSource(p, r, s);
  }

  lemma SameSizes(p: seq<Function>, q: seq<Function>, f: Function, g: Function)
    requires SameRecords(p, q) && Merged(p, f) && Merged(q, g) && SizeSettled(p)
    ensures f.size == g.size
  {
    hide FirstSize, IsBest, Speaks, Increasing;
    forall size ensures PltSays(p, size) <==> PltSays(q, size) {
    }
    if exists size :: PltSays(p, size) {
      var size :| PltSays(p, size);
    } else {
      FirstSizeFrom(p);
      FirstSizeFrom(q);
    }
  }

  /** Order independence: the same single-source records in any two orders give the same
      name and the same sources, and the same size when the PLT gives one or nobody disagrees. */
  lemma OrderIndependent(p: seq<Function>, q: seq<Function>)
    requires p != [] && q != [] && SingleSourced(p) && SingleSourced(q) && SameRecords(p, q)
    ensures MergeAll(p).name == MergeAll(q).name && MergeAll(p).sources == MergeAll(q).sources
    ensures SizeSettled(p) ==> MergeAll(p).size == MergeAll(q).size
  {
    hide MergeAll, Merged, SingleSourced, SameRecords, SizeSettled;
    MergeAllMerges(p);
    MergeAllMerges(q);
    SameNamesAndSources(p, q, MergeAll(p), MergeAll(q));
    if SizeSettled(p) {
      SameSizes(p, q, MergeAll(p), MergeAll(q));
    }
  }

  function Front(rs: seq<Function>, i: nat): (r: seq<Function>)
    requires i < |rs|
    ensures |r| == |rs|
  {
    [rs[i]] + rs[..i] + rs[i + 1..]
  }

  lemma FrontSame(rs: seq<Function>, i: nat)
    requires i < |rs| && SingleSourced(rs)
    ensures SingleSourced(Front(rs, i)) && SameRecords(rs, Front(rs, i))
  {
    var q := Front(rs, i);
    forall k | 0 <= k < |q| ensures q[k] == rs[if k == 0 then i else if k <= i then k - 1 else k] {
    }
    forall r | r in rs ensures r in q {
      var k :| 0 <= k < |rs| && rs[k] == r;
      assert q[if k == i then 0 else if k < i then k + 1 else k] == r;
    }
  }

  /** ... and only then: otherwise two orders give two sizes. */
  lemma OrderMatters(p: seq<Function>)
    requires p != [] && SingleSourced(p) && !SizeSettled(p)
    ensures exists a, b :: 0 <= a < |p| && 0 <= b < |p| && MergeAll(Front(p, a)).size != MergeAll(Front(p, b)).size
  {
    hide MergeAll, SingleSourced;
    var r, q :| r in p && q in p && r.size > 0 && q.size > 0 && r.size != q.size;
    var a :| 0 <= a < |p| && p[a] == r;
    var b :| 0 <= b < |p| && p[b] == q;
    FrontSize(p, a);
    FrontSize(p, b);
    assert MergeAll(Front(p, a)).size != MergeAll(Front(p, b)).size;
  }

  lemma FrontSize(p: seq<Function>, a: nat)
    requires a < |p| && SingleSourced(p) && p[a].size > 0 && !SizeSettled(p)
    ensures MergeAll(Front(p, a)).size == p[a].size
  {
    hide MergeAll, SingleSourced;
    var q := Front(p, a);
    FrontSame(p, a);
    MergeAllMerges(q);
    forall size ensures PltSays(q, size) ==> SizeSettled(p) {
      PltSettles(p, q, size);
    }
    assert q[0] == p[a];
  }

  lemma PltSettles(p: seq<Function>, q: seq<Function>, size: nat)
    requires SameRecords(p, q)
    ensures PltSays(q, size) ==> SizeSettled(p)
  {
    if r :| r in q && r.sources == [PLT] && r.size == size > 0 {
      assert r in p && PltSays(p, r.size);
    }
  }

  /** A size once known is never lost. */
  lemma SizeNeverLost(f: Function, g: Function)
    ensures Merge(f, g).size > 0 <==> f.size > 0 || g.size > 0
  {
    hide Sort, PushAll, MergedName;
  }

  // ===== the map =====

  type Table = map<nat, Function>

  predicate Keyed(m: Table) { forall k :: k in m ==> m[k].addr == k < U64 }

  /** `insert`. */
  function Added(m: Table, f: Function): Table {
    m[f.addr := if f.addr in m then Merge(m[f.addr], f) else f]
  }

  function AddedAll(m: Table, rs: seq<Function>): Table
    decreases |rs|
  {
    if rs == [] then m else Added(AddedAll(m, rs[..|rs| - 1]), rs[|rs| - 1])
  }

  /** The records of one address, in order. */
  function At(rs: seq<Function>, a: nat): seq<Function>
    decreases |rs|
  {
    if rs == [] then []
    else
      var n := |rs| - 1;
      At(rs[..n], a) + if rs[n].addr == a then [rs[n]] else []
  }

  /** Addresses do not disturb one another: each holds its own records, merged in order. */
  lemma {:induction false} AddressesApart(rs: seq<Function>, a: nat)
    ensures a in AddedAll(map[], rs) <==> At(rs, a) != []
    ensures At(rs, a) != [] ==> AddedAll(map[], rs)[a] == MergeAll(At(rs, a))
    decreases |rs|
  {
    hide Merge;
    if rs != [] {
      var n := |rs| - 1;
      AddressesApart(rs[..n], a);
      if rs[n].addr == a {
        var before := At(rs[..n], a);
        assert At(rs, a) == before + [rs[n]];
        assert At(rs, a)[..|before|] == before;
      } else {
        assert At(rs, a) == At(rs[..n], a);
      }
    }
  }

  // ===== which function contains an address =====

  predicate InRange(f: Function, addr: nat) { f.addr <= addr < f.addr + f.size }

  function Saturated(x: nat): nat { if x < U64 then x else U64 - 1 }

  ghost predicate IsFloor(m: Table, addr: nat, k: nat) {
    k in m && k <= addr && forall j :: j in m && j <= addr ==> j <= k
  }

  /** What `containing` may answer. */
  ghost predicate Answers(m: Table, addr: nat, r: Option<Function>) {
    && (forall k: nat :: IsFloor(m, addr, k) ==>
          r == if m[k].size > 0 && addr < Saturated(k + m[k].size) then Some(m[k]) else None)
    && ((forall k :: k in m ==> k > addr) ==> r.None?)
  }

  /** No function starts inside another's range. */
  predicate NoneInside(m: Table) { forall a, b :: a in m && b in m && a < b ==> a + m[a].size <= b }

  /** With no function inside another the lookup answers exactly range membership, but for
      the last address of the space, where it finds nothing. */
  lemma ContainingExact(m: Table, addr: nat, r: Option<Function>)
    requires Keyed(m) && NoneInside(m) && addr < U64 && Answers(m, addr, r)
    ensures addr < U64 - 1 ==> forall k :: k in m ==> (InRange(m[k], addr) <==> r == Some(m[k]))
    ensures addr < U64 - 1 && r.Some? ==> exists k :: k in m && r == Some(m[k])
    ensures addr == U64 - 1 ==> r.None?
  {
    if exists k :: k in m && k <= addr {
      var k0 :| k0 in m && k0 <= addr;
      var k := FloorExists(m, addr, k0);
      forall j | j in m && InRange(m[j], addr) ensures j == k {
      }
    }
  }

  lemma FloorExists(m: Table, addr: nat, k0: nat) returns (k: nat)
    requires k0 in m && k0 <= addr
    ensures IsFloor(m, addr, k)
    decreases addr - k0
  {
    if j :| j in m && k0 < j <= addr {
      k := FloorExists(m, addr, j);
    } else {
      k := k0;
    }
  }

  /** ... and it needs that: where a function does start inside another, the outer one is
      not found at that start. */
  lemma ContainingNeedsApart(m: Table, a: nat, b: nat, r: Option<Function>)
    requires Keyed(m) && a in m && b in m && a < b < a + m[a].size && Answers(m, b, r)
    ensures InRange(m[a], b) && r != Some(m[a])
  {
    assert IsFloor(m, b, b);
  }

  // ===== filling in sizes =====

  /** An executable section as `[start, end)`, its end saturated. */
  datatype Section = Section(start: nat, end: nat) {
    predicate Holds(addr: nat) { start <= addr < end }
  }

  const SHF_EXECINSTR: nat := 4

  /** What the pass reads of a section header. */
  datatype SectionHeader = SectionHeader(flags: nat, addr: nat, size: nat) {
    predicate Executable() { (flags / SHF_EXECINSTR) % 2 == 1 && size > 0 }
    function Range(): Section { Section(addr, Saturated(addr + size)) }
  }

  /** The ranges of the executable sections, in header order. */
  function ExecSections(headers: seq<SectionHeader>): (r: seq<Section>)
    ensures forall s :: s in r <==> exists h :: h in headers && h.Executable() && s == h.Range()
  {
    if headers == [] then []
    else
      var n := |headers| - 1;
      assert headers == headers[..n] + [headers[n]];
      ExecSections(headers[..n]) + if headers[n].Executable() then [headers[n].Range()] else []
  }

  /** The filtering loop. */
  method CollectExecSections(headers: seq<SectionHeader>) returns (r: seq<Section>)
    ensures r == ExecSections(headers)
  {
    r := [];
    for i := 0 to |headers|
      invariant r == ExecSections(headers[..i])
    {
      assert headers[..i + 1][..i] == headers[..i];
      if headers[i].Executable() {
        r := r + [headers[i].Range()];
      }
    }
    assert headers[..|headers|] == headers;
  }

  function FindSection(sections: seq<Section>, addr: nat): (r: Option<Section>)
    ensures r.Some? ==> r.value in sections && r.value.Holds(addr)
    ensures r.None? ==> forall s :: s in sections ==> !s.Holds(addr)
  {
    if sections == [] then None
    else if sections[0].Holds(addr) then Some(sections[0])
    else FindSection(sections[1..], addr)
  }

  /** The nearest function start after `addr` and before `end`, or `end`. */
  function NextStart(addrs: seq<nat>, addr: nat, end: nat): (r: nat)
    requires addr < end
    ensures addr < r <= end && (r < end ==> r in addrs)
    ensures forall a :: a in addrs && addr < a < end ==> r <= a
  {
    if addrs == [] then end
    else
      assert addrs == [addrs[0]] + addrs[1..];
      var rest := NextStart(addrs[1..], addr, end);
      if addr < addrs[0] < rest then addrs[0] else rest
  }

  function Filler(addrs: seq<nat>, s: Section, addr: nat): Function
    requires s.Holds(addr)
  {
    Function(addr, NextStart(addrs, addr, s.end) - addr, "", [])
  }

  /** One record after the pass. */
  function Filled(addrs: seq<nat>, sections: seq<Section>, f: Function): Function {
    if f.size > 0 then f
    else
      match FindSection(sections, f.addr)
      case None => f
      case Some(s) => Merge(f, Filler(addrs, s, f.addr))
  }

  function FilledAll(m: Table, addrs: seq<nat>, sections: seq<Section>): Table {
    map k | k in m :: Filled(addrs, sections, m[k])
  }

  predicate Ascending(s: seq<Source>) { forall i, j :: 0 <= i < j < |s| ==> s[i] <= s[j] }

  lemma {:induction false} InsertLast(s: seq<Source>, x: Source)
    requires forall i :: 0 <= i < |s| ==> s[i] <= x
    ensures Insert(s, x) == s + [x]
  {
    if s != [] {
      InsertLast(s[1..], x);
      assert s + [x] == [s[0]] + (s[1..] + [x]);
    }
  }

  lemma {:induction false} SortAscending(s: seq<Source>)
    requires Ascending(s)
    ensures Sort(s) == s
  {
    if s != [] {
      var n := |s| - 1;
      SortAscending(s[..n]);
      InsertLast(s[..n], s[n]);
      assert s == s[..n] + [s[n]];
    }
  }

  /** The pass gives this record a size. */
  predicate Fills(sections: seq<Section>, f: Function) { f.size == 0 && FindSection(sections, f.addr).Some? }

  /** One record, exactly: it changes only where its size is filled in; then the size is
      known, the sources are sorted, and the name is lost when there are none. */
  lemma FilledExactly(addrs: seq<nat>, sections: seq<Section>, f: Function)
    ensures var r := Filled(addrs, sections, f);
      && r.addr == f.addr
      && (!Fills(sections, f) ==> r == f)
      && (Fills(sections, f) ==> r.size > 0 && r.sources == Sort(f.sources) && r.name == if f.sources == [] then "" else f.name)
  {
    hide Sort;
    if Fills(sections, f) {
      assert PushAll(f.sources, []) == f.sources;
    }
  }

  /** Filling one record: a record with sources keeps its name, sorted sources stay, a known
      size stays, and in an executable section the size becomes known. */
  lemma FilledKeeps(addrs: seq<nat>, sections: seq<Section>, f: Function)
    ensures var r := Filled(addrs, sections, f);
      && r.addr == f.addr
      && (f.sources != [] ==> r.name == f.name)
      && (Ascending(f.sources) ==> r.sources == f.sources)
      && (f.size > 0 ==> r == f)
      && ((exists s :: s in sections && s.Holds(f.addr)) ==> r.size > 0)
      && (f.size == 0 && (forall s :: s in sections ==> !s.Holds(f.addr)) ==> r == f)
  {
    hide Sort, Filled;
    FilledExactly(addrs, sections, f);
    if Ascending(f.sources) {
      SortAscending(f.sources);
    }
  }

  /** A record without any source does lose its name. */
  lemma SourcelessNameLost(addrs: seq<nat>, sections: seq<Section>, f: Function)
    requires f.sources == [] && f.size == 0 && FindSection(sections, f.addr).Some?
    ensures Filled(addrs, sections, f).name == ""
  {
    hide Sort, NextStart;
  }

  /** A filled range stays in a section that holds the function and meets no other start. */
  lemma FilledRange(m: Table, addrs: seq<nat>, sections: seq<Section>, k: nat)
    requires Keyed(m) && (forall a :: a in addrs <==> a in m) && k in m && m[k].size == 0
    requires Filled(addrs, sections, m[k]).size > 0
    ensures var r := Filled(addrs, sections, m[k]);
      && (exists s :: s in sections && s.Holds(k) && k + r.size <= s.end)
      && (forall a :: a in m && a != k ==> !(k <= a < k + r.size))
  {
    hide Sort;
    var s := FindSection(sections, k).value;
    assert s in sections && s.Holds(k) && Filled(addrs, sections, m[k]).size == NextStart(addrs, k, s.end) - k;
  }

  /** The pass puts no function start inside another's range. */
  lemma FillKeepsApart(m: Table, addrs: seq<nat>, sections: seq<Section>)
    requires Keyed(m) && (forall a :: a in addrs <==> a in m) && NoneInside(m)
    ensures NoneInside(FilledAll(m, addrs, sections))
  {
    hide Filled;
    var r := FilledAll(m, addrs, sections);
    forall a, b | a in r && b in r && a < b ensures a + r[a].size <= b {
      if m[a].size > 0 {
        FilledSized(addrs, sections, m[a]);
      } else if r[a].size > 0 {
        FilledRange(m, addrs, sections, a);
      }
    }
  }

  /** The pass over any table: in an executable section every size is known afterwards;
      addresses and known sizes are as before, and so are the names of records that have a
      source and the sources that were sorted. */
  lemma FillPass(m: Table, addrs: seq<nat>, sections: seq<Section>)
    requires Keyed(m)
    ensures var r := FilledAll(m, addrs, sections);
      && Keyed(r) && r.Keys == m.Keys
      && (forall k :: k in m && m[k].sources != [] ==> r[k].name == m[k].name)
      && (forall k :: k in m && Ascending(m[k].sources) ==> r[k].sources == m[k].sources)
      && (forall k :: k in m && m[k].size > 0 ==> r[k] == m[k])
      && (forall k, s :: k in m && s in sections && s.Holds(k) ==> r[k].size > 0)
  {
    hide Filled, Ascending;
    forall k | k in m
      ensures var f := Filled(addrs, sections, m[k]);
        && f.addr == k && (m[k].sources != [] ==> f.name == m[k].name)
        && (Ascending(m[k].sources) ==> f.sources == m[k].sources) && (m[k].size > 0 ==> f == m[k])
        && ((exists s :: s in sections && s.Holds(k)) ==> f.size > 0)
    {
      FilledKeeps(addrs, sections, m[k]);
    }
  }

  /** Seen from the headers: whatever starts in an executable section has a size. */
  lemma ExecutableSized(m: Table, addrs: seq<nat>, headers: seq<SectionHeader>, k: nat, h: SectionHeader)
    requires Keyed(m) && k in m && h in headers && h.Executable() && h.addr <= k < Saturated(h.addr + h.size)
    ensures FilledAll(m, addrs, ExecSections(headers))[k].size > 0
  {
    FillPass(m, addrs, ExecSections(headers));
    assert h.Range() in ExecSections(headers) && h.Range().Holds(k);
  }

  /** Section ends saturate, so a function at the last address is never filled. */
  lemma LastAddressUnfilled(addrs: seq<nat>, headers: seq<SectionHeader>, f: Function)
    requires f.addr == U64 - 1
    ensures Filled(addrs, ExecSections(headers), f) == f
  {
    hide Filled;
    forall s | s in ExecSections(headers) ensures !s.Holds(f.addr) {
      var h :| h in headers && h.Executable() && s == h.Range();
    }
    FilledExactly(addrs, ExecSections(headers), f);
  }

  // ===== the tables the discovery builds =====

  lemma {:induction false} InsertAscends(s: seq<Source>, x: Source)
    requires Ascending(s)
    ensures Ascending(Insert(s, x)) && |Insert(s, x)| == |s| + 1
    ensures forall y :: y in Insert(s, x) ==> y == x || y in s
  {
    if s != [] && !(x < s[0]) {
      var t := Insert(s[1..], x);
      InsertAscends(s[1..], x);
      forall i | 0 <= i < |t| ensures t[i] >= s[0] {
        assert t[i] in t;
      }
    }
  }

  lemma {:induction false} SortAscends(s: seq<Source>)
    ensures Ascending(Sort(s)) && |Sort(s)| == |s|
  {
    if s != [] {
      SortAscends(s[..|s| - 1]);
      InsertAscends(Sort(s[..|s| - 1]), s[|s| - 1]);
    }
  }

  lemma {:induction false} PushAllGrows(s: seq<Source>, more: seq<Source>)
    ensures |PushAll(s, more)| >= |s|
    decreases |more|
  {
    if more != [] {
      PushAllGrows(Push(s, more[0]), more[1..]);
    }
  }

  /** Merging always sorts, and keeps having a source. */
  lemma MergeAscends(f: Function, g: Function)
    ensures Ascending(Merge(f, g).sources) && (f.sources != [] ==> Merge(f, g).sources != [])
  {
    hide Sort, Ascending;
    SortAscends(PushAll(f.sources, g.sources));
    PushAllGrows(f.sources, g.sources);
  }

  predicate Sourced(f: Function) { f.sources != [] && Ascending(f.sources) }

  /** From records that have sources in order, as every discovery pass makes them, insertion
      in any order builds a table of such records: what the filling pass leaves named. */
  lemma {:induction false} TableSourced(rs: seq<Function>)
    requires forall r :: r in rs ==> Sourced(r)
    ensures forall k :: k in AddedAll(map[], rs) ==> Sourced(AddedAll(map[], rs)[k])
    decreases |rs|
  {
    hide Merge, Ascending;
    if rs != [] {
      var n := |rs| - 1;
      TableSourced(rs[..n]);
      var m, r := AddedAll(map[], rs[..n]), rs[n];
      assert r in rs;
      if r.addr in m {
        MergeAscends(m[r.addr], r);
      }
    }
  }

  lemma FilledSized(addrs: seq<nat>, sections: seq<Section>, f: Function)
    requires f.size > 0
    ensures Filled(addrs, sections, f) == f
  {}

  // ===== in place =====

  /** The `sources` loop of `merge_in`. */
  method PushSources(s: seq<Source>, more: seq<Source>) returns (r: seq<Source>)
    ensures r == PushAll(s, more)
  {
    r := s;
    assert more[0..] == more;
    for i := 0 to |more|
      invariant PushAll(s, more) == PushAll(r, more[i..])
    {
      assert more[i..][0] == more[i] && more[i..][1..] == more[i + 1..];
      if more[i] !in r {
        r := r + [more[i]];
      }
    }
  }

  class FunctionTable {
    var byAddr: Table

    constructor ()
      ensures byAddr == map[]
    {
      byAddr := map[];
    }

    /** `insert`, with `merge_in` where the address is taken. */
    method Add(f: Function)
      modifies this
      ensures byAddr == Added(old(byAddr), f)
    {
      hide Sort, Max, PushAll;
      if f.addr !in byAddr {
        byAddr := byAddr[f.addr := f];
        return;
      }
      var self := byAddr[f.addr];
      var otherPlt := PLT in f.sources && f.size > 0;
      var selfPlt := PLT in self.sources && self.size > 0;
      var size, name := self.size, self.name;
      if (otherPlt && !selfPlt) || (f.size > 0 && self.size == 0) {
        size := f.size;
      }
      var existing, incoming := Max(self.sources), Max(f.sources);
      if existing.Some? && incoming.Some? {
        if incoming.value > existing.value {
          name := f.name;
        }
      } else if existing.None? {
        name := f.name;
      }
      var sources := PushSources(self.sources, f.sources);
      byAddr := byAddr[f.addr := Function(self.addr, size, name, Sort(sources))];
    }

    /** `containing`: the last start at or before `addr`. */
    method Containing(addr: nat) returns (r: Option<Function>)
      ensures Answers(byAddr, addr, r)
    {
      var todo := byAddr.Keys;
      var best: Option<nat> := None;
      while todo != {}
        invariant todo <= byAddr.Keys
        invariant best.Some? ==> best.value in byAddr && best.value <= addr
        invariant forall j :: j in byAddr && j !in todo && j <= addr ==> best.Some? && j <= best.value
        decreases |todo|
      {
        var k :| k in todo;
        todo := todo - {k};
        if k <= addr && (best.None? || k > best.value) {
          best := Some(k);
        }
      }
      if best.None? {
        return None;
      }
      var f := byAddr[best.value];
      assert IsFloor(byAddr, addr, best.value);
      r := if f.size > 0 && addr < Saturated(best.value + f.size) then Some(f) else None;
    }

    /** One turn of the filling loop. */
    method FillOne(addr: nat, addrs: seq<nat>, sections: seq<Section>)
      requires addr in byAddr && byAddr[addr].addr == addr
      modifies this
      ensures byAddr == old(byAddr)[addr := Filled(addrs, sections, old(byAddr)[addr])]
    {
      hide Merge, NextStart;
      if byAddr[addr].size > 0 {
        return;
      }
      var found := FindSection(sections, addr);
      if found.None? {
        return;
      }
      Add(Filler(addrs, found.value, addr));
    }

    /** `fill_in_sizes_from_neighbors`; `addrs` are the function addresses as iterated. */
    method FillInSizes(addrs: seq<nat>, headers: seq<SectionHeader>)
      requires Keyed(byAddr) && forall a :: a in addrs <==> a in byAddr
      requires forall i, j :: 0 <= i < j < |addrs| ==> addrs[i] != addrs[j]
      modifies this
      ensures byAddr == FilledAll(old(byAddr), addrs, ExecSections(headers))
    {
      hide Filled, ExecSections;
      var sections := CollectExecSections(headers);
      ghost var before, done := byAddr, {};
      for i := 0 to |addrs|
        invariant byAddr.Keys == before.Keys
        invariant forall j :: 0 <= j < |addrs| ==> (addrs[j] in done <==> j < i)
        invariant forall k :: k in before ==> byAddr[k] == if k in done then Filled(addrs, sections, before[k]) else before[k]
      {
        assert addrs[i] in addrs;
        FillOne(addrs[i], addrs, sections);
        done := done + {addrs[i]};
      }
      forall k | k in before ensures k in done {
        assert k in addrs;
      }
    }
  }
}
