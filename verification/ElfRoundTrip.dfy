/** Reading then writing an ELF file gives back its bytes; writing then reading
    consistent parts gives back the parts. */
module ElfRoundTrip {
  import opened Bytes
  import opened Outcome
  import opened Regions
  import opened ElfHeaders
  import opened Elf

  // ----- tables -----

  lemma {:induction false} TableRestores(k: Kind, c: Class, s: seq<byte>, off: nat, n: nat)
    requires off + TableSize(k, c, n) <= |s|
    ensures TableBytes(c, Entries(k, c, s, off, n)) == s[off..off + TableSize(k, c, n)]
  {
    hide ReadEntry, EntryBytes, EntrySize, TableSize, TableBytes, Entries;
    if n == 0 {
      TableSizeStep(k, c, 0);
      NoEntries(c);
    } else {
      TableSizeStep(k, c, n - 1);
      EntriesSnoc(k, c, s, off, n);
      TableRestores(k, c, s, off, n - 1);
      var mid, end := off + TableSize(k, c, n - 1), off + TableSize(k, c, n);
      EntryWriteOfRead(k, c, s[mid..end]);
      TableBytesSnoc(c, Entries(k, c, s, off, n - 1), ReadEntry(k, c, s[mid..end]));
      SliceJoin(s, off, mid, end);
    }
  }

  lemma NoEntries(c: Class)
    ensures TableBytes(c, []) == []
  {}

  lemma TableBytesSnoc(c: Class, es: seq<Entry>, e: Entry)
    ensures TableBytes(c, es + [e]) == TableBytes(c, es) + EntryBytes(c, e)
  {
    assert (es + [e])[..|es|] == es;
  }

  lemma SliceJoin(s: seq<byte>, off: nat, mid: nat, end: nat)
    requires off <= mid <= end <= |s|
    ensures s[off..end] == s[off..mid] + s[mid..end]
  {}

  lemma {:induction false} EntriesFit(k: Kind, c: Class, s: seq<byte>, off: nat, n: nat)
    requires off + TableSize(k, c, n) <= |s|
    ensures forall e <- Entries(k, c, s, off, n) :: EntryFits(c, e)
  {
    hide ReadEntry, EntryFits, EntrySize, TableSize;
    if n > 0 {
      TableSizeStep(k, c, n - 1);
      EntriesFit(k, c, s, off, n - 1);
      EntryWriteOfRead(k, c, s[off + TableSize(k, c, n - 1)..off + TableSize(k, c, n)]);
    }
  }

  lemma {:induction false} TableLength(k: Kind, c: Class, es: seq<Entry>)
    requires forall e <- es :: KindOf(e) == k
    ensures |TableBytes(c, es)| == TableSize(k, c, |es|)
    decreases |es|
  {
    hide TableSize, EntrySize, EntryBytes;
    if es == [] {
      TableSizeStep(k, c, 0);
    } else {
      TableLength(k, c, es[..|es| - 1]);
      EntryLayout(c, es[|es| - 1]);
      TableSizeStep(k, c, |es| - 1);
    }
  }

  lemma SplitSlice(s: seq<byte>, off: nat, mid: nat, end: nat, a: seq<byte>, b: seq<byte>)
    requires off <= mid <= end <= |s| && s[off..end] == a + b && |a| == mid - off
    ensures s[off..mid] == a && s[mid..end] == b
  {
    assert s[off..mid] == s[off..end][..mid - off];
    assert s[mid..end] == s[off..end][mid - off..];
  }

  lemma {:induction false} EntriesOfTable(k: Kind, c: Class, s: seq<byte>, off: nat, es: seq<Entry>)
    requires forall e <- es :: KindOf(e) == k && EntryFits(c, e)
    requires off + TableSize(k, c, |es|) <= |s|
    requires s[off..off + TableSize(k, c, |es|)] == TableBytes(c, es)
    ensures Entries(k, c, s, off, |es|) == es
    decreases |es|
  {
    hide ReadEntry, EntryBytes, EntryFits, EntrySize, TableSize, Entries;
    if es != [] {
      var n := |es|;
      var front, last := es[..n - 1], es[n - 1];
      TableSizeStep(k, c, n - 1);
      EntriesSnoc(k, c, s, off, n);
      assert forall e <- front :: e in es;
      TableLength(k, c, front);
      SplitSlice(s, off, off + TableSize(k, c, n - 1), off + TableSize(k, c, n), TableBytes(c, front), EntryBytes(c, last));
      EntriesOfTable(k, c, s, off, front);
      assert last in es;
      EntryReadOfWrite(c, last);
    }
  }

  // ----- sections -----

  lemma {:induction false} SectionsRestore(bytes: seq<byte>, shdrs: seq<Entry>, sections: seq<seq<byte>>)
    requires CollectSections(bytes, shdrs) == Ok(sections)
    ensures |sections| == |shdrs|
    ensures forall i :: 0 <= i < |shdrs| ==>
      |sections[i]| == if Occupies(shdrs[i]) then shdrs[i].size else 0
    ensures RestoresAll(SectionBlocks(shdrs, sections), bytes)
    decreases |shdrs|
  {
    if shdrs != [] {
      var n := |shdrs| - 1;
      var front := CollectSections(bytes, shdrs[..n]).value;
      SectionsRestore(bytes, shdrs[..n], front);
      assert sections[..n] == front;
    }
  }

  lemma {:induction false} SectionsReread(s: seq<byte>, shdrs: seq<Entry>, sections: seq<seq<byte>>)
    requires |s| < U64 && |sections| == |shdrs|
    requires forall i :: 0 <= i < |shdrs| ==>
      |sections[i]| == if Occupies(shdrs[i]) then shdrs[i].size else 0
    requires RestoresAll(SectionBlocks(shdrs, sections), s)
    ensures CollectSections(s, shdrs) == Ok(sections)
    decreases |shdrs|
  {
    if shdrs != [] {
      var n := |shdrs| - 1;
      var front, all := SectionBlocks(shdrs[..n], sections[..n]), SectionBlocks(shdrs, sections);
      forall k | 0 <= k < |front| ensures Restores(front[k], s) { assert all[k] == front[k]; }
      if Occupies(shdrs[n]) {
        assert Restores(all[|front|], s);
      }
      SectionsReread(s, shdrs[..n], sections[..n]);
      assert sections == sections[..n] + [sections[n]];
    }
  }

  // ----- blocks against regions -----

  /** Block by block, the writer covers the regions the reader checked. */
  predicate Spans(ps: seq<Patch>, rs: seq<Region>) {
    |ps| == |rs| && forall i :: 0 <= i < |ps| ==> ps[i].at == rs[i].start && ps[i].End() == rs[i].end
  }

  lemma {:induction false} SectionSpans(shdrs: seq<Entry>, sections: seq<seq<byte>>)
    requires |sections| == |shdrs|
    requires forall i :: 0 <= i < |shdrs| ==>
      |sections[i]| == if Occupies(shdrs[i]) then shdrs[i].size else 0
    ensures Spans(SectionBlocks(shdrs, sections), SectionRegions(shdrs))
    decreases |shdrs|
  {
    if shdrs != [] {
      var n := |shdrs| - 1;
      SectionSpans(shdrs[..n], sections[..n]);
    }
  }

  lemma SpansAppend(ps: seq<Patch>, rs: seq<Region>, ps': seq<Patch>, rs': seq<Region>)
    requires Spans(ps, rs) && Spans(ps', rs')
    ensures Spans(ps + ps', rs + rs')
  {}

  lemma BlocksSpanRegions(f: File)
    requires ShapeValid(f)
    ensures Spans(StructuredBlocks(f), FileRegions(f))
  {
    hide EhdrFields, EntryFields, TableBytes, EntryFits, CheckSizes;
    var c, h := f.cls, f.ehdr;
    EhdrLayout(c, h);
    TableLength(PhKind, c, f.phdrs);
    TableLength(ShKind, c, f.shdrs);
    SectionSpans(f.shdrs, f.sections);
    var hp, hr := [Patch(0, EhdrBytes(c, h))], [Region(0, EhdrSize(c))];
    var pp, pr := TableBlock(c, h.phoff, f.phdrs), TableRegion(PhKind, c, h.phoff, h.phnum);
    var sp, sr := TableBlock(c, h.shoff, f.shdrs), TableRegion(ShKind, c, h.shoff, h.shnum);
    assert |EhdrBytes(c, h)| == EhdrSize(c);
    SpansAppend(hp, hr, pp, pr);
    SpansAppend(hp + pp, hr + pr, sp, sr);
    SpansAppend(hp + pp + sp, hr + pr + sr, SectionBlocks(f.shdrs, f.sections), SectionRegions(f.shdrs));
  }

  // ----- what a successful parse establishes -----

  lemma IdentRead(c: Class, s: seq<byte>)
    requires |s| >= EhdrSize(c)
    ensures ReadEhdr(c, s).ident == s[..16]
  {}

  lemma ParsedHeader(bytes: seq<byte>)
    requires ParseEhdr(bytes).Ok?
    ensures var (h, c) := ParseEhdr(bytes).value;
      |bytes| >= EhdrSize(c) && h == ReadEhdr(c, bytes) && HeaderValid(c, h)
      && EhdrBytes(c, h) == bytes[..EhdrSize(c)]
  {
    hide ReadEhdr, EhdrFits, EhdrBytes, CheckSizes;
    var (h, c) := ParseEhdr(bytes).value;
    IdentRead(c, bytes);
    EhdrWriteOfRead(c, bytes);
    assert h.ident[..4] == bytes[..4];
    assert h.ident[4] == bytes[4] && h.ident[5] == bytes[5];
  }

  lemma ParsedTable(k: Kind, c: Class, bytes: seq<byte>, off: nat, n: nat)
    requires ParseTable(k, c, bytes, off, n).Ok?
    ensures var es := ParseTable(k, c, bytes, off, n).value;
      && |es| == n && TableInside(k, c, bytes, off, n)
      && (forall e <- es :: KindOf(e) == k && EntryFits(c, e))
      && RestoresAll(TableBlock(c, off, es), bytes)
  {
    if n > 0 {
      TableRestores(k, c, bytes, off, n);
      EntriesFit(k, c, bytes, off, n);
      TableLength(k, c, Entries(k, c, bytes, off, n));
    }
  }

  lemma ParsedShape(bytes: seq<byte>, h: Ehdr, c: Class)
    requires |bytes| >= EhdrSize(c) && HeaderValid(c, h) && EhdrBytes(c, h) == bytes[..EhdrSize(c)]
    requires ParseBody(bytes, h, c).Ok?
    ensures var f := ParseBody(bytes, h, c).value;
      && ShapeValid(f) && RestoresAll(StructuredBlocks(f), bytes) && Within(FileRegions(f), f.size)
  {
    hide BuildRegions, Gaps, CutAll, Entries, EnsureLen, CollectSections, StructuredRegions, HeaderValid, EntryFits,
      TableBlock, EhdrBytes;
    var f := ParseBody(bytes, h, c).value;
    ParsedTable(PhKind, c, bytes, h.phoff, h.phnum);
    ParsedTable(ShKind, c, bytes, h.shoff, h.shnum);
    SectionsRestore(bytes, f.shdrs, f.sections);
    StructuredInside(bytes, h, c, f.shdrs);
    var hp, pp := [Patch(0, EhdrBytes(c, h))], TableBlock(c, h.phoff, f.phdrs);
    var sp := TableBlock(c, h.shoff, f.shdrs);
    assert Restores(hp[0], bytes);
    RestoresAppend(hp, pp, bytes);
    RestoresAppend(hp + pp, sp, bytes);
    RestoresAppend(hp + pp + sp, SectionBlocks(f.shdrs, f.sections), bytes);
  }

  lemma ParsedPadding(bytes: seq<byte>, h: Ehdr, c: Class)
    requires |bytes| >= EhdrSize(c)
    requires ParseBody(bytes, h, c).Ok?
    ensures var f := ParseBody(bytes, h, c).value;
      && f.size == |bytes| && PaddingFillsGaps(f) && PairwiseApart(FileRegions(f))
      && RestoresAll(f.padding, bytes)
  {
    hide Entries, Gaps, ParseTable, CollectSections, StructuredRegions, SortByStart, FirstOverflow;
    var f := ParseBody(bytes, h, c).value;
    ParsedTable(PhKind, c, bytes, h.phoff, h.phnum);
    ParsedTable(ShKind, c, bytes, h.shoff, h.shnum);
    StructuredInside(bytes, h, c, f.shdrs);
    BuiltRegions(c, h, f.shdrs, |bytes|);
    StructuredNonEmpty(c, h, f.shdrs);
    OverlapCheckExact(FileRegions(f));
    var gaps := Gaps(SortByStart(FileRegions(f)), 0, |bytes|);
    assert f.padding == CutAll(bytes, gaps);
  }

  /** Everything the reader promises about the parts it returns. */
  lemma ParsedConsistent(bytes: seq<byte>)
    requires Parse(bytes).Ok?
    ensures var f := Parse(bytes).value;
      && f.size == |bytes| && ShapeValid(f) && Within(FileRegions(f), f.size)
      && PairwiseApart(FileRegions(f)) && PaddingFillsGaps(f)
      && RestoresAll(Blocks(f), bytes)
      && (|bytes| < U64 ==> Consistent(f))
  {
    ParsedHeader(bytes);
    var (h, c) := ParseEhdr(bytes).value;
    ParsedShape(bytes, h, c);
    ParsedPadding(bytes, h, c);
    var f := Parse(bytes).value;
    RestoresAppend(StructuredBlocks(f), f.padding, bytes);
  }

  // ----- consistent parts tile the file -----

  lemma BlocksCover(f: File, i: nat)
    requires ShapeValid(f) && PaddingFillsGaps(f) && i < f.size
    ensures Covered(Blocks(f), i)
  {
    hide HeaderValid, EntryFits, StructuredBlocks, FileRegions, Gaps, SortByStart;
    var raw := FileRegions(f);
    var sorted := SortByStart(raw);
    BlocksSpanRegions(f);
    GapsCover(sorted, 0, f.size, i);
    if InSome(sorted, i) {
      var r :| r in sorted && r.Has(i);
      SameElements(raw, sorted);
      var k :| 0 <= k < |raw| && raw[k] == r;
      assert Blocks(f)[k] == StructuredBlocks(f)[k];
      assert Blocks(f)[k].Covers(i);
    } else {
      var gaps := Gaps(sorted, 0, f.size);
      var g :| g in gaps && g.Has(i);
      var k :| 0 <= k < |gaps| && gaps[k] == g;
      assert Blocks(f)[|StructuredBlocks(f)| + k] == f.padding[k];
      assert Blocks(f)[|StructuredBlocks(f)| + k].Covers(i);
    }
  }

  lemma SortedRegionFacts(f: File)
    requires Within(FileRegions(f), f.size)
    ensures var sorted := SortByStart(FileRegions(f));
      && Increasing(Gaps(sorted, 0, f.size), 0, f.size) && InFile(Gaps(sorted, 0, f.size), f.size)
      && (forall r <- FileRegions(f), g <- Gaps(sorted, 0, f.size) :: Apart(r, g))
  {
    var raw := FileRegions(f);
    var sorted := SortByStart(raw);
    StructuredNonEmpty(f.cls, f.ehdr, f.shdrs);
    SameElements(raw, sorted);
    assert forall r <- sorted :: r.start <= r.end;
    GapsIncreasing(sorted, 0, f.size);
    GapsApart(sorted, 0, f.size);
    GapsInFile(Gaps(sorted, 0, f.size), f.size);
  }

  lemma SpansDisjoint(ps: seq<Patch>, rs: seq<Region>, qs: seq<Patch>, gs: seq<Region>)
    requires Spans(ps, rs) && Spans(qs, gs)
    requires PairwiseApart(rs) && (forall j, k :: 0 <= j < k < |gs| ==> gs[j].end <= gs[k].start)
    requires forall r <- rs, g <- gs :: Apart(r, g)
    ensures Disjoint(ps + qs)
  {
    var all := ps + qs;
    forall j, k | 0 <= j < k < |all|
      ensures all[j].End() <= all[k].at || all[k].End() <= all[j].at
    {
      if k < |ps| {
        assert Apart(rs[j], rs[k]);
      } else if j >= |ps| {
        assert gs[j - |ps|].end <= gs[k - |ps|].start;
      } else {
        assert rs[j] in rs && gs[k - |ps|] in gs;
        assert Apart(rs[j], gs[k - |ps|]);
      }
    }
  }

  /** Header, tables, sections and padding tile the file: each byte is in exactly one
      piece, so the pieces may be written in any order. */
  lemma PiecesTile(f: File)
    requires ShapeValid(f) && Within(FileRegions(f), f.size)
    requires PairwiseApart(FileRegions(f)) && PaddingFillsGaps(f)
    ensures Writable(f) && Disjoint(Blocks(f))
    ensures forall i: nat :: i < f.size ==> Covered(Blocks(f), i)
    ensures forall qs: seq<Patch> :: multiset(qs) == multiset(Blocks(f)) ==>
      Fit(qs, f.size) && PutAll(Zeros(f.size), qs) == Written(f)
  {
    BlocksSpanRegions(f);
    SortedRegionFacts(f);
    var gaps := Gaps(SortByStart(FileRegions(f)), 0, f.size);
    SpansDisjoint(StructuredBlocks(f), FileRegions(f), f.padding, gaps);
    forall k | 0 <= k < |Blocks(f)| ensures Blocks(f)[k].End() <= f.size {
      if k < |StructuredBlocks(f)| {
        assert FileRegions(f)[k] in FileRegions(f);
      } else {
        assert gaps[k - |StructuredBlocks(f)|] in gaps;
      }
    }
    forall i: nat | i < f.size ensures Covered(Blocks(f), i) { BlocksCover(f, i); }
    forall qs: seq<Patch> | multiset(qs) == multiset(Blocks(f))
      ensures Fit(qs, f.size) && PutAll(Zeros(f.size), qs) == Written(f)
    {
      OrderIrrelevant(Zeros(f.size), Blocks(f), qs);
    }
  }

  // ===== the main results =====

  /** Every accepted file is written back byte for byte. */
  lemma WriteOfParse(bytes: seq<byte>)
    requires Parse(bytes).Ok?
    ensures Writable(Parse(bytes).value) && Written(Parse(bytes).value) == bytes
  {
    var f := Parse(bytes).value;
    ParsedConsistent(bytes);
    PiecesTile(f);
    RestoreAll(Zeros(f.size), Blocks(f), bytes);
  }

  lemma HeaderReread(f: File, out: seq<byte>)
    requires ShapeValid(f) && Restores(Patch(0, EhdrBytes(f.cls, f.ehdr)), out) && |out| < U64
    ensures ParseEhdr(out) == Ok((f.ehdr, f.cls))
  {
    hide ReadEhdr, EhdrFields;
    var c, h := f.cls, f.ehdr;
    EhdrLayout(c, h);
    assert out[..EhdrSize(c)] == out[0..EhdrSize(c)] == EhdrBytes(c, h);
    EhdrReadOfWrite(c, h, out);
    assert out[..16] == out[..EhdrSize(c)][..16] == h.ident;
    assert out[..4] == out[..16][..4];
    assert out[4] == out[..16][4] && out[5] == out[..16][5];
  }

  lemma TableReread(k: Kind, c: Class, out: seq<byte>, off: nat, es: seq<Entry>)
    requires forall e <- es :: KindOf(e) == k && EntryFits(c, e)
    requires RestoresAll(TableBlock(c, off, es), out) && |out| < U64
    ensures ParseTable(k, c, out, off, |es|) == Ok(es)
  {
    if es != [] {
      TableLength(k, c, es);
      assert Restores(TableBlock(c, off, es)[0], out);
      EntriesOfTable(k, c, out, off, es);
    }
  }

  lemma RegionsRebuilt(f: File)
    requires Consistent(f)
    ensures BuildRegions(f.cls, f.ehdr, f.shdrs) == Ok(SortByStart(FileRegions(f)))
  {
    var raw := FileRegions(f);
    StructuredNonEmpty(f.cls, f.ehdr, f.shdrs);
    NoOverflow(raw);
    OverlapCheckExact(raw);
  }

  lemma PaddingReread(f: File, out: seq<byte>)
    requires Consistent(f) && |out| == f.size && RestoresAll(f.padding, out)
    ensures var gaps := Gaps(SortByStart(FileRegions(f)), 0, f.size);
      InFile(gaps, f.size) && CutAll(out, gaps) == f.padding
  {
    hide ShapeValid, Gaps, SortByStart, FileRegions, PairwiseApart;
    var gaps := Gaps(SortByStart(FileRegions(f)), 0, f.size);
    SortedRegionFacts(f);
    forall i | 0 <= i < |gaps| ensures CutAll(out, gaps)[i] == f.padding[i] {
      assert Restores(f.padding[i], out);
    }
  }

  lemma BodyReread(f: File, out: seq<byte>)
    requires Consistent(f) && |out| == f.size && |out| >= EhdrSize(f.cls)
    requires RestoresAll(TableBlock(f.cls, f.ehdr.phoff, f.phdrs), out)
    requires RestoresAll(TableBlock(f.cls, f.ehdr.shoff, f.shdrs), out)
    requires RestoresAll(SectionBlocks(f.shdrs, f.sections), out) && RestoresAll(f.padding, out)
    ensures ParseBody(out, f.ehdr, f.cls) == Ok(f)
  {
    hide ParseTable, CollectSections, BuildRegions, TableBlock, SectionBlocks, Gaps, SortByStart, HeaderValid, EntryFits;
    TableReread(PhKind, f.cls, out, f.ehdr.phoff, f.phdrs);
    TableReread(ShKind, f.cls, out, f.ehdr.shoff, f.shdrs);
    SectionsReread(out, f.shdrs, f.sections);
    RegionsRebuilt(f);
    PaddingReread(f, out);
  }

  /** Consistent parts survive being written and read again, in either class. */
  lemma ParseOfWrite(f: File)
    requires Consistent(f)
    ensures Writable(f) && Parse(Written(f)) == Ok(f)
  {
    hide ShapeValid, Within, PaddingFillsGaps, PutAll, ParseBody, ParseEhdr, Writable;
    PiecesTile(f);
    var out := Written(f);
    DisjointRestored(Zeros(f.size), Blocks(f));
    var hp, pp := [Patch(0, EhdrBytes(f.cls, f.ehdr))], TableBlock(f.cls, f.ehdr.phoff, f.phdrs);
    var sp := TableBlock(f.cls, f.ehdr.shoff, f.shdrs);
    var secs := SectionBlocks(f.shdrs, f.sections);
    RestoresAppend(StructuredBlocks(f), f.padding, out);
    RestoresAppend(hp + pp + sp, secs, out);
    RestoresAppend(hp + pp, sp, out);
    RestoresAppend(hp, pp, out);
    assert Restores(hp[0], out);
    HeaderReread(f, out);
    EhdrLayout(f.cls, f.ehdr);
    BodyReread(f, out);
  }

  /** The reader accepts exactly the images of consistent parts. */
  lemma AcceptedExactly(bytes: seq<byte>)
    requires |bytes| < U64
    ensures Parse(bytes).Ok? <==> exists f :: Consistent(f) && Writable(f) && Written(f) == bytes
  {
    if Parse(bytes).Ok? {
      ParsedConsistent(bytes);
      WriteOfParse(bytes);
      var f := Parse(bytes).value;
      assert Consistent(f) && Writable(f) && Written(f) == bytes;
    }
    if exists f :: Consistent(f) && Writable(f) && Written(f) == bytes {
      var f :| Consistent(f) && Writable(f) && Written(f) == bytes;
      ParseOfWrite(f);
    }
  }

  /** A header without tables, followed by anything, is a consistent file: the bytes
      behind it are one piece of padding. */
  lemma BareHeaderConsistent(c: Class, h: Ehdr, tail: seq<byte>)
    requires HeaderValid(c, h) && h.phnum == 0 && h.shnum == 0 && EhdrSize(c) + |tail| < U64
    ensures var n := EhdrSize(c);
      Consistent(File(c, h, [], [], [], if tail == [] then [] else [Patch(n, tail)], n + |tail|))
  {
    hide HeaderValid, FileRegions, PaddingFillsGaps, EhdrSize;
    var n := EhdrSize(c);
    var f := File(c, h, [], [], [], if tail == [] then [] else [Patch(n, tail)], n + |tail|);
    BareRegions(f);
    BarePadding(f, tail);
  }

  lemma BareRegions(f: File)
    requires f.ehdr.phnum == 0 && f.ehdr.shnum == 0 && f.shdrs == []
    ensures FileRegions(f) == [Region(0, EhdrSize(f.cls))]
  {
    hide EhdrSize, TableSize;
  }

  lemma BarePadding(f: File, tail: seq<byte>)
    requires FileRegions(f) == [Region(0, EhdrSize(f.cls))] && f.size == EhdrSize(f.cls) + |tail|
    requires f.padding == if tail == [] then [] else [Patch(EhdrSize(f.cls), tail)]
    ensures PaddingFillsGaps(f)
  {
    hide EhdrSize, FileRegions, SortByStart, Gaps;
    OneRegion(EhdrSize(f.cls), f.size);
  }

  lemma OneRegion(n: nat, size: nat)
    requires n <= size
    ensures SortByStart([Region(0, n)]) == [Region(0, n)]
    ensures Gaps([Region(0, n)], 0, size) == if n < size then [Region(n, size)] else []
  {
    var r := Region(0, n);
    assert [r][1..] == [] && [r][..0] == [];
    assert SortByStart([]) == [] && Insert([], r) == [r];
  }
}
