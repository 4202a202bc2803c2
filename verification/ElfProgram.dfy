/** The reader's and the writer's loops, each proved to compute its specification. */
module ElfProgram {
  import opened Bytes
  import opened Outcome
  import opened Regions
  import opened ElfHeaders
  import opened Elf
  import opened ElfRoundTrip

  /** `parse_phdrs`, and the header half of `parse_shdrs_and_sections`. */
  method ParseEntries(k: Kind, c: Class, bytes: seq<byte>, off: nat, n: nat) returns (r: Result<seq<Entry>, Error>)
    ensures r == ParseTable(k, c, bytes, off, n)
  {
    hide ReadEntry, EntrySize, TableSize, Entries;
    if n == 0 {
      return Ok([]);
    }
    var total := TableSize(k, c, n);
    var fits := EnsureLen(bytes, off, total);
    if fits.Err? {
      return Err(fits.error);
    }
    var es := [];
    var at := 0;
    TableSizeStep(k, c, 0);
    for i := 0 to n
      invariant at == TableSize(k, c, i) <= total && off + total <= |bytes|
      invariant es == Entries(k, c, bytes, off, i)
    {
      TableSizeStep(k, c, i);
      TableSizeMonotone(k, c, i + 1, n);
      EntriesSnoc(k, c, bytes, off, i + 1);
      es := es + [ReadEntry(k, c, bytes[off + at..off + at + EntrySize(k, c)])];
      at := at + EntrySize(k, c);
    }
    r := Ok(es);
  }

  lemma CollectStep(bytes: seq<byte>, shdrs: seq<Entry>, i: nat)
    requires i < |shdrs|
    ensures CollectSections(bytes, shdrs[..i + 1]) ==
      if CollectSections(bytes, shdrs[..i]).Err? then CollectSections(bytes, shdrs[..i])
      else if SectionData(bytes, shdrs[i]).Err? then Err(SectionData(bytes, shdrs[i]).error)
      else Ok(CollectSections(bytes, shdrs[..i]).value + [SectionData(bytes, shdrs[i]).value])
  {
    assert shdrs[..i + 1][..i] == shdrs[..i];
  }

  lemma {:induction false} CollectErrorSticks(bytes: seq<byte>, shdrs: seq<Entry>, i: nat)
    requires i <= |shdrs| && CollectSections(bytes, shdrs[..i]).Err?
    ensures CollectSections(bytes, shdrs) == CollectSections(bytes, shdrs[..i])
    decreases |shdrs| - i
  {
    if i == |shdrs| {
      assert shdrs[..i] == shdrs;
    } else {
      CollectStep(bytes, shdrs, i);
      CollectErrorSticks(bytes, shdrs, i + 1);
    }
  }

  /** The content half of `parse_shdrs_and_sections`: the first section that does not
      fit decides the error. */
  method ParseSections(bytes: seq<byte>, shdrs: seq<Entry>) returns (r: Result<seq<seq<byte>>, Error>)
    ensures r == CollectSections(bytes, shdrs)
  {
    var data: seq<seq<byte>> := [];
    for i := 0 to |shdrs|
      invariant CollectSections(bytes, shdrs[..i]) == Ok(data)
    {
      var sh := shdrs[i];
      CollectStep(bytes, shdrs, i);
      if Occupies(sh) {
        var fits := EnsureLen(bytes, sh.offset, sh.size);
        if fits.Err? {
          CollectErrorSticks(bytes, shdrs, i + 1);
          return Err(fits.error);
        }
        data := data + [bytes[sh.offset..sh.offset + sh.size]];
      } else {
        data := data + [[]];
      }
    }
    assert shdrs[..|shdrs|] == shdrs;
    r := Ok(data);
  }

  lemma {:induction false} OverlapFrom(rs: seq<Region>, i: nat)
    requires i < |rs| && forall j :: 0 <= j < i ==> rs[j].end <= rs[j + 1].start
    ensures FirstOverlap(rs) == FirstOverlap(rs[i..])
    decreases i
  {
    if i == 0 {
      assert rs[0..] == rs;
    } else {
      OverlapFrom(rs[1..], i - 1);
      assert rs[1..][i - 1..] == rs[i..];
    }
  }

  /** The `windows(2)` loop over the sorted regions. */
  method CheckNeighbours(rs: seq<Region>) returns (r: Option<(Region, Region)>)
    ensures r == FirstOverlap(rs)
  {
    if |rs| < 2 {
      return None;
    }
    for i := 0 to |rs| - 1
      invariant forall j :: 0 <= j < i ==> rs[j].end <= rs[j + 1].start
    {
      if rs[i].end > rs[i + 1].start {
        OverlapFrom(rs, i);
        return Some((rs[i], rs[i + 1]));
      }
    }
    OverlapFrom(rs, |rs| - 1);
    r := None;
  }

  /** `Elf64File::parse`. */
  method ParseFile(bytes: seq<byte>) returns (r: Result<File, Error>)
    ensures r == Parse(bytes)
  {
    hide ParseEhdr, ParseTable, CollectSections, StructuredRegions, FirstOverlap, FirstOverflow, SortByStart, Gaps, CutAll;
    var header := ParseEhdr(bytes);
    if header.Err? {
      return Err(header.error);
    }
    var (h, c) := header.value;
    ParsedHeader(bytes);
    var phdrs := ParseEntries(PhKind, c, bytes, h.phoff, h.phnum);
    if phdrs.Err? {
      return Err(phdrs.error);
    }
    var shdrs := ParseEntries(ShKind, c, bytes, h.shoff, h.shnum);
    if shdrs.Err? {
      return Err(shdrs.error);
    }
    var sections := ParseSections(bytes, shdrs.value);
    if sections.Err? {
      return Err(sections.error);
    }
    var built := BuildFileRegions(c, h, shdrs.value);
    if built.Err? {
      return Err(built.error);
    }
    ParsedTable(PhKind, c, bytes, h.phoff, h.phnum);
    ParsedTable(ShKind, c, bytes, h.shoff, h.shnum);
    StructuredInside(bytes, h, c, shdrs.value);
    BuiltRegions(c, h, shdrs.value, |bytes|);
    assert forall q <- built.value :: q.start <= q.end;
    var padding := ComputePadding(bytes, built.value);
    r := Ok(File(c, h, phdrs.value, shdrs.value, sections.value, padding, |bytes|));
  }

  lemma SectionRegionsStep(shdrs: seq<Entry>, i: nat)
    requires i < |shdrs|
    ensures SectionRegions(shdrs[..i + 1]) == SectionRegions(shdrs[..i])
      + if Occupies(shdrs[i]) then [Region(shdrs[i].offset, shdrs[i].offset + shdrs[i].size)] else []
  {
    assert shdrs[..i + 1][..i] == shdrs[..i];
  }

  /** `build_regions`: collect, sort, then reject the first overlapping neighbours. */
  method BuildFileRegions(c: Class, h: Ehdr, shdrs: seq<Entry>) returns (r: Result<seq<Region>, Error>)
    ensures r == BuildRegions(c, h, shdrs)
  {
    var rs := [Region(0, EhdrSize(c))] + TableRegion(PhKind, c, h.phoff, h.phnum)
              + TableRegion(ShKind, c, h.shoff, h.shnum);
    ghost var tables := rs;
    for i := 0 to |shdrs|
      invariant rs == tables + SectionRegions(shdrs[..i])
    {
      SectionRegionsStep(shdrs, i);
      if Occupies(shdrs[i]) {
        rs := rs + [Region(shdrs[i].offset, shdrs[i].offset + shdrs[i].size)];
      }
    }
    assert shdrs[..|shdrs|] == shdrs;
    var over := FirstOverflow(rs);
    if over.Some? {
      return Err(RegionOverflow(over.value));
    }
    var sorted := SortByStart(rs);
    var clash := CheckNeighbours(sorted);
    if clash.Some? {
      return Err(OverlappingRegions(clash.value.0, clash.value.1));
    }
    r := Ok(sorted);
  }

  // ===== the writer =====

  lemma TableBytesStep(c: Class, es: seq<Entry>, i: nat)
    requires i < |es|
    ensures TableBytes(c, es[..i + 1]) == TableBytes(c, es[..i]) + EntryBytes(c, es[i])
  {
    assert es[..i + 1][..i] == es[..i];
  }

  lemma PutNothing(s: seq<byte>, at: nat)
    requires at <= |s|
    ensures Put(s, Patch(at, [])) == s
  {}

  /** The entry loop of `write_to_vec`. */
  method WriteTable(k: Kind, c: Class, es: seq<Entry>, out: array<byte>, off: nat)
    requires forall e <- es :: KindOf(e) == k
    requires es != [] && off + TableSize(k, c, |es|) <= out.Length
    modifies out
    ensures |TableBytes(c, es)| == TableSize(k, c, |es|)
    ensures out[..] == Put(old(out[..]), Patch(off, TableBytes(c, es)))
  {
    hide EntrySize, EntryBytes, TableSize;
    TableLength(k, c, es);
    PutNothing(out[..], off);
    var at := 0;
    TableSizeStep(k, c, 0);
    for i := 0 to |es|
      invariant at == |TableBytes(c, es[..i])| == TableSize(k, c, i) <= TableSize(k, c, |es|)
      invariant out[..] == Put(old(out[..]), Patch(off, TableBytes(c, es[..i])))
    {
      TableSizeStep(k, c, i);
      TableSizeMonotone(k, c, i + 1, |es|);
      assert es[i] in es;
      WriteEntry(c, es[i], out, off + at);
      PutJoin(old(out[..]), off, TableBytes(c, es[..i]), EntryBytes(c, es[i]));
      TableBytesStep(c, es, i);
      TableLength(k, c, es[..i + 1]);
      at := at + EntrySize(k, c);
    }
    assert es[..|es|] == es;
  }

  lemma SectionBlocksStep(shdrs: seq<Entry>, sections: seq<seq<byte>>, i: nat)
    requires i < |shdrs| == |sections|
    ensures SectionBlocks(shdrs[..i + 1], sections[..i + 1]) == SectionBlocks(shdrs[..i], sections[..i])
      + if Occupies(shdrs[i]) then [Patch(shdrs[i].offset, sections[i])] else []
  {
    assert shdrs[..i + 1][..i] == shdrs[..i] && sections[..i + 1][..i] == sections[..i];
  }

  lemma {:induction false} SectionBlocksPrefix(shdrs: seq<Entry>, sections: seq<seq<byte>>, i: nat)
    requires i <= |shdrs| == |sections|
    ensures SectionBlocks(shdrs[..i], sections[..i]) <= SectionBlocks(shdrs, sections)
    decreases |shdrs| - i
  {
    if i == |shdrs| {
      assert shdrs[..i] == shdrs && sections[..i] == sections;
    } else {
      SectionBlocksStep(shdrs, sections, i);
      SectionBlocksPrefix(shdrs, sections, i + 1);
    }
  }

  /** The section loop of `write_to_vec`. */
  method WriteSections(f: File, out: array<byte>, ghost s: seq<byte>, ghost done: seq<Patch>)
    requires |f.shdrs| == |f.sections| && |s| == out.Length
    requires Fit(done, |s|) && Fit(SectionBlocks(f.shdrs, f.sections), |s|)
    requires out[..] == PutAll(s, done)
    modifies out
    ensures Fit(done + SectionBlocks(f.shdrs, f.sections), |s|)
    ensures out[..] == PutAll(s, done + SectionBlocks(f.shdrs, f.sections))
  {
    hide PutAll, Put, Occupies;
    ghost var all := SectionBlocks(f.shdrs, f.sections);
    assert done + SectionBlocks(f.shdrs[..0], f.sections[..0]) == done;
    for i := 0 to |f.shdrs|
      invariant Fit(done + SectionBlocks(f.shdrs[..i], f.sections[..i]), |s|)
      invariant out[..] == PutAll(s, done + SectionBlocks(f.shdrs[..i], f.sections[..i]))
    {
      ghost var sofar := SectionBlocks(f.shdrs[..i], f.sections[..i]);
      SectionBlocksStep(f.shdrs, f.sections, i);
      SectionBlocksPrefix(f.shdrs, f.sections, i + 1);
      if Occupies(f.shdrs[i]) {
        OccupyingIsSection(f.shdrs[i]);
        ghost var p := Patch(f.shdrs[i].offset, f.sections[i]);
        assert all[|sofar|] == p;
        PutAllStep(s, done + sofar, p);
        CopyInto(out, f.shdrs[i].offset, f.sections[i]);
        assert done + (sofar + [p]) == done + sofar + [p];
      } else {
        assert sofar + [] == sofar;
      }
    }
    assert f.shdrs[..|f.shdrs|] == f.shdrs && f.sections[..|f.shdrs|] == f.sections;
  }

  lemma OccupyingIsSection(e: Entry)
    requires Occupies(e)
    ensures e.Shdr?
  {}

  method WriteTableBlock(k: Kind, c: Class, es: seq<Entry>, out: array<byte>, off: nat,
                         ghost s: seq<byte>, ghost done: seq<Patch>)
    requires forall e <- es :: KindOf(e) == k
    requires Fit(done, |s|) && Fit(TableBlock(c, off, es), |s|) && |s| == out.Length && out[..] == PutAll(s, done)
    modifies out
    ensures Fit(done + TableBlock(c, off, es), |s|) && out[..] == PutAll(s, done + TableBlock(c, off, es))
  {
    hide PutAll, Put, EntrySize, TableBytes, TableSize;
    if es != [] {
      TableLength(k, c, es);
      assert TableBlock(c, off, es)[0].End() <= |s|;
      PutAllStep(s, done, Patch(off, TableBytes(c, es)));
      WriteTable(k, c, es, out, off);
    } else {
      assert done + TableBlock(c, off, es) == done;
    }
  }

  /** `Elf64File::write_to_vec`. */
  method WriteToVec(f: File) returns (out: array<byte>)
    requires Writable(f)
    ensures fresh(out) && out[..] == Written(f)
  {
    hide PutAll, Put, EntrySize, TableBlock, EhdrBytes, SectionBlocks, Occupies;
    out := new byte[f.size](_ => 0);
    ghost var s := Zeros(f.size);
    assert out[..] == s;
    ghost var hp := [Patch(0, EhdrBytes(f.cls, f.ehdr))];
    ghost var pp := TableBlock(f.cls, f.ehdr.phoff, f.phdrs);
    ghost var sp := TableBlock(f.cls, f.ehdr.shoff, f.shdrs);
    ghost var secs := SectionBlocks(f.shdrs, f.sections);
    FitAppend(hp + pp + sp + secs, f.padding, f.size);
    FitAppend(hp + pp + sp, secs, f.size);
    FitAppend(hp + pp, sp, f.size);
    FitAppend(hp, pp, f.size);
    assert hp[0].End() <= f.size;
    HeaderEnd(f);
    PutAllNone(s);
    PutAllStep(s, [], hp[0]);
    assert [] + [hp[0]] == hp;
    WriteEhdr(f.cls, f.ehdr, out);
    WriteTableBlock(PhKind, f.cls, f.phdrs, out, f.ehdr.phoff, s, hp);
    WriteTableBlock(ShKind, f.cls, f.shdrs, out, f.ehdr.shoff, s, hp + pp);
    WriteSections(f, out, s, hp + pp + sp);
    WritePatches(f.padding, out, s, hp + pp + sp + secs);
  }

  lemma HeaderEnd(f: File)
    requires |f.ehdr.ident| == EI_NIDENT
    ensures |EhdrBytes(f.cls, f.ehdr)| == EhdrSize(f.cls)
  {
    EhdrLayout(f.cls, f.ehdr);
  }

  /** Reading a file and writing it again, as the program does it, changes nothing. */
  method RoundTrip(bytes: seq<byte>) returns (out: array<byte>, accepted: bool)
    ensures accepted <==> Parse(bytes).Ok?
    ensures accepted ==> out[..] == bytes
  {
    hide Parse, Written, Writable;
    var r := ParseFile(bytes);
    accepted := r.Ok?;
    if accepted {
      WriteOfParse(bytes);
      out := WriteToVec(r.value);
    } else {
      out := new byte[0];
    }
  }
}
