/** File regions: sorting them, checking that neighbours do not overlap,
    and sweeping up the gaps they leave. */
module Regions {
  import opened Bytes
  import opened Outcome

  datatype Region = Region(start: nat, end: nat) {
    predicate Has(i: int) { start <= i < end }
  }

  predicate Apart(a: Region, b: Region) { a.end <= b.start || b.end <= a.start }

  predicate PairwiseApart(rs: seq<Region>) {
    forall j, k :: 0 <= j < k < |rs| ==> Apart(rs[j], rs[k])
  }

  predicate NonEmpty(rs: seq<Region>) {
    forall r <- rs :: r.start < r.end
  }

  predicate Within(rs: seq<Region>, n: nat) {
    forall r <- rs :: r.end <= n
  }

  predicate InSome(rs: seq<Region>, i: int) {
    exists r <- rs :: r.Has(i)
  }

  predicate SortedByStart(rs: seq<Region>) {
    forall j, k :: 0 <= j < k < |rs| ==> rs[j].start <= rs[k].start
  }

  /** `sort_by_key(|r| r.range.start)`, which is stable. */
  function SortByStart(rs: seq<Region>): (r: seq<Region>)
    ensures SortedByStart(r) && multiset(r) == multiset(rs)
    decreases |rs|
  {
    if rs == [] then []
    else
      var front := SortByStart(rs[..|rs| - 1]);
      InsertSorted(front, rs[|rs| - 1]);
      InsertPermutes(front, rs[|rs| - 1]);
      assert rs == rs[..|rs| - 1] + [rs[|rs| - 1]];
      Insert(front, rs[|rs| - 1])
  }

  function Insert(rs: seq<Region>, x: Region): seq<Region>
    decreases |rs|
  {
    if rs == [] || rs[|rs| - 1].start <= x.start then rs + [x]
    else Insert(rs[..|rs| - 1], x) + [rs[|rs| - 1]]
  }

  lemma SortedAppend(rs: seq<Region>, x: Region)
    requires SortedByStart(rs) && (rs != [] ==> rs[|rs| - 1].start <= x.start)
    ensures SortedByStart(rs + [x])
  {}

  lemma SortedFront(rs: seq<Region>)
    requires SortedByStart(rs) && rs != []
    ensures SortedByStart(rs[..|rs| - 1])
    ensures |rs| > 1 ==> rs[|rs| - 2].start <= rs[|rs| - 1].start
  {}

  lemma {:induction false} InsertSorted(rs: seq<Region>, x: Region)
    requires SortedByStart(rs)
    ensures SortedByStart(Insert(rs, x))
    ensures var r := Insert(rs, x);
      r != [] && r[|r| - 1].start == if rs == [] then x.start else Max(x.start, rs[|rs| - 1].start)
    decreases |rs|
  {
    if rs == [] || rs[|rs| - 1].start <= x.start {
      SortedAppend(rs, x);
    } else {
      hide SortedByStart;
      SortedFront(rs);
      InsertSorted(rs[..|rs| - 1], x);
      SortedAppend(Insert(rs[..|rs| - 1], x), rs[|rs| - 1]);
    }
  }

  lemma {:induction false} InsertPermutes(rs: seq<Region>, x: Region)
    ensures multiset(Insert(rs, x)) == multiset(rs) + multiset{x}
    decreases |rs|
  {
    if rs != [] && rs[|rs| - 1].start > x.start {
      InsertPermutes(rs[..|rs| - 1], x);
      assert rs == rs[..|rs| - 1] + [rs[|rs| - 1]];
    }
  }

  /** The first pair of neighbours that overlap, if any. */
  function FirstOverlap(rs: seq<Region>): Option<(Region, Region)>
    decreases |rs|
  {
    if |rs| < 2 then None
    else if rs[0].end > rs[1].start then Some((rs[0], rs[1]))
    else FirstOverlap(rs[1..])
  }

  // ----- neighbours apart means all apart -----

  lemma HeadApart(rs: seq<Region>)
    requires |rs| >= 2 && SortedByStart(rs) && PairwiseApart(rs[1..]) && rs[0].end <= rs[1].start
    ensures PairwiseApart(rs)
  {
    forall j, k | 0 <= j < k < |rs| ensures Apart(rs[j], rs[k]) {
      if j > 0 {
        assert Apart(rs[1..][j - 1], rs[1..][k - 1]);
      }
    }
  }

  lemma TailApart(rs: seq<Region>)
    requires |rs| >= 2 && PairwiseApart(rs)
    ensures PairwiseApart(rs[1..]) && Apart(rs[0], rs[1])
  {}

  lemma {:induction false} NeighboursApart(rs: seq<Region>)
    requires SortedByStart(rs) && NonEmpty(rs)
    ensures FirstOverlap(rs).None? <==> PairwiseApart(rs)
    decreases |rs|
  {
    if |rs| >= 2 {
      assert rs[0].start <= rs[1].start;
      assert SortedByStart(rs[1..]);
      assert rs[0] in rs && rs[1] in rs;
      assert forall r <- rs[1..] :: r in rs;
      hide PairwiseApart, SortedByStart;
      NeighboursApart(rs[1..]);
      if PairwiseApart(rs) {
        TailApart(rs);
      }
      if FirstOverlap(rs).None? {
        HeadApart(rs);
      }
    }
  }

  /** `PairwiseApart` on the multiset, where order cannot matter. */
  ghost predicate MultisetApart(m: multiset<Region>) {
    && (forall r <- m :: m[r] == 1)
    && (forall r <- m, q <- m :: r != q ==> Apart(r, q))
  }

  lemma {:induction false} ApartToMultiset(rs: seq<Region>)
    requires NonEmpty(rs) && PairwiseApart(rs)
    ensures MultisetApart(multiset(rs))
    decreases |rs|
  {
    if rs != [] {
      var front, last := rs[..|rs| - 1], rs[|rs| - 1];
      assert rs == front + [last];
      assert last in rs;
      forall j | 0 <= j < |front| ensures front[j] == rs[j] && Apart(front[j], last) && front[j] in rs {}
      assert last !in front;
      ApartToMultiset(front);
    }
  }

  lemma {:induction false} MultisetToApart(rs: seq<Region>)
    requires MultisetApart(multiset(rs))
    ensures PairwiseApart(rs)
    decreases |rs|
  {
    if rs != [] {
      var front, last := rs[..|rs| - 1], rs[|rs| - 1];
      assert rs == front + [last];
      assert multiset(rs)[last] == multiset(front)[last] + 1;
      assert last !in front;
      forall r | r in multiset(front) ensures multiset(front)[r] == 1 {
        assert r in multiset(rs);
      }
      MultisetToApart(front);
      forall j, k | 0 <= j < k < |rs| ensures Apart(rs[j], rs[k]) {
        if k < |front| {
          assert Apart(front[j], front[k]);
        } else {
          assert front[j] in front;
        }
      }
    }
  }

  lemma SameElements(rs: seq<Region>, qs: seq<Region>)
    requires multiset(rs) == multiset(qs)
    ensures forall r :: r in rs <==> r in qs
  {
    forall r ensures r in rs <==> r in qs {
      assert r in rs <==> r in multiset(rs);
      assert r in qs <==> r in multiset(qs);
    }
  }

  /** The sort followed by the adjacent check decides pairwise disjointness. */
  lemma OverlapCheckExact(rs: seq<Region>)
    requires NonEmpty(rs)
    ensures FirstOverlap(SortByStart(rs)).None? <==> PairwiseApart(rs)
  {
    var sorted := SortByStart(rs);
    SameElements(rs, sorted);
    NeighboursApart(sorted);
    if PairwiseApart(rs) {
      ApartToMultiset(rs);
      MultisetToApart(sorted);
    }
    if PairwiseApart(sorted) {
      ApartToMultiset(sorted);
      MultisetToApart(rs);
    }
  }

  // ----- the gap sweep -----

  function Max(a: nat, b: nat): nat { if a >= b then a else b }

  /** The runs from `cursor` to `n` that the sorted regions leave uncovered. */
  function Gaps(rs: seq<Region>, cursor: nat, n: nat): seq<Region>
    decreases |rs|
  {
    if rs == [] then
      if cursor < n then [Region(cursor, n)] else []
    else
      (if rs[0].start > cursor then [Region(cursor, rs[0].start)] else [])
      + Gaps(rs[1..], Max(cursor, rs[0].end), n)
  }

  predicate Increasing(gs: seq<Region>, from: nat, n: nat) {
    && (forall g <- gs :: from <= g.start < g.end <= n)
    && (forall j, k :: 0 <= j < k < |gs| ==> gs[j].end <= gs[k].start)
  }

  lemma {:induction false} GapsIncreasing(rs: seq<Region>, cursor: nat, n: nat)
    requires Within(rs, n) && SortedByStart(rs) && forall r <- rs :: r.start <= r.end
    ensures Increasing(Gaps(rs, cursor, n), cursor, n)
    decreases |rs|
  {
    if rs != [] {
      var rest := rs[1..];
      assert forall r <- rest :: r in rs;
      assert rs[0] in rs;
      GapsIncreasing(rest, Max(cursor, rs[0].end), n);
    }
  }

  /** Every position is in a region or in a gap, even when regions overlap. */
  lemma {:induction false} GapsCover(rs: seq<Region>, cursor: nat, n: nat, i: nat)
    requires cursor <= i < n
    ensures InSome(rs, i) || InSome(Gaps(rs, cursor, n), i)
    decreases |rs|
  {
    if rs == [] {
      assert Region(cursor, n) in Gaps(rs, cursor, n);
    } else {
      var rest, next := rs[1..], Max(cursor, rs[0].end);
      var gaps := Gaps(rs, cursor, n);
      assert forall r <- rest :: r in rs;
      assert forall g <- Gaps(rest, next, n) :: g in gaps;
      if next <= i {
        GapsCover(rest, next, n, i);
      } else if rs[0].start <= i {
        assert rs[0].Has(i);
        assert rs[0] in rs;
      } else {
        assert gaps[0] == Region(cursor, rs[0].start);
        assert gaps[0] in gaps;
      }
    }
  }

  /** A gap never touches a region. */
  lemma {:induction false} GapsApart(rs: seq<Region>, cursor: nat, n: nat)
    requires Within(rs, n) && SortedByStart(rs) && forall r <- rs :: r.start <= r.end
    ensures forall r <- rs, g <- Gaps(rs, cursor, n) :: Apart(r, g)
    decreases |rs|
  {
    if rs != [] {
      var rest, next := rs[1..], Max(cursor, rs[0].end);
      assert forall r <- rest :: r in rs;
      assert rs[0] in rs;
      GapsApart(rest, next, n);
      GapsIncreasing(rest, next, n);
      forall r, g | r in rs && g in Gaps(rs, cursor, n) ensures Apart(r, g) {
        if g in Gaps(rest, next, n) {
          assert r == rs[0] || r in rest;
        } else {
          assert g == Region(cursor, rs[0].start);
          var k :| 0 <= k < |rs| && rs[k] == r;
        }
      }
    }
  }

  // ----- cutting the gaps out of the file -----

  predicate InFile(gs: seq<Region>, n: nat) {
    forall i :: 0 <= i < |gs| ==> gs[i].start <= gs[i].end <= n
  }

  function Cut(bytes: seq<byte>, g: Region): Patch
    requires g.start <= g.end <= |bytes|
  {
    Patch(g.start, bytes[g.start..g.end])
  }

  function CutAll(bytes: seq<byte>, gs: seq<Region>): (ps: seq<Patch>)
    requires InFile(gs, |bytes|)
    ensures |ps| == |gs|
  {
    seq(|gs|, i requires 0 <= i < |gs| => Cut(bytes, gs[i]))
  }

  lemma CutAllAppend(bytes: seq<byte>, gs: seq<Region>, g: Region)
    requires InFile(gs, |bytes|) && g.start <= g.end <= |bytes|
    ensures InFile(gs + [g], |bytes|)
    ensures CutAll(bytes, gs + [g]) == CutAll(bytes, gs) + [Cut(bytes, g)]
  {}

  lemma GapsStep(rs: seq<Region>, k: nat, cursor: nat, n: nat)
    requires k < |rs|
    ensures Gaps(rs[k..], cursor, n) ==
      (if rs[k].start > cursor then [Region(cursor, rs[k].start)] else [])
      + Gaps(rs[k + 1..], Max(cursor, rs[k].end), n)
  {
    assert rs[k..][1..] == rs[k + 1..];
  }

  lemma GapsEnd(cursor: nat, n: nat)
    ensures Gaps([], cursor, n) == if cursor < n then [Region(cursor, n)] else []
  {}

  /** `compute_padding`: the bytes of every gap, found with a running-maximum cursor. */
  method ComputePadding(bytes: seq<byte>, regions: seq<Region>) returns (padding: seq<Patch>)
    requires SortedByStart(regions) && Within(regions, |bytes|)
    requires forall r <- regions :: r.start <= r.end
    ensures InFile(Gaps(regions, 0, |bytes|), |bytes|)
    ensures padding == CutAll(bytes, Gaps(regions, 0, |bytes|))
  {
    hide CutAll, Gaps, SortedByStart;
    var n := |bytes|;
    padding := [];
    var cursor := 0;
    ghost var done: seq<Region> := [];
    ghost var all := Gaps(regions, 0, n);
    assert regions[0..] == regions;
    for k := 0 to |regions|
      invariant 0 <= cursor <= n
      invariant all == done + Gaps(regions[k..], cursor, n)
      invariant InFile(done, n)
      invariant padding == CutAll(bytes, done)
    {
      var r := regions[k];
      assert r in regions;
      GapsStep(regions, k, cursor, n);
      if r.start > cursor {
        CutAllAppend(bytes, done, Region(cursor, r.start));
        padding := padding + [Patch(cursor, bytes[cursor..r.start])];
        done := done + [Region(cursor, r.start)];
      }
      cursor := Max(cursor, r.end);
    }
    assert all == done + Gaps([], cursor, n) by { assert regions[|regions|..] == []; }
    GapsEnd(cursor, n);
    if cursor < n {
      CutAllAppend(bytes, done, Region(cursor, n));
      padding := padding + [Patch(cursor, bytes[cursor..n])];
      done := done + [Region(cursor, n)];
    }
    assert done == all;
  }
}
