/** ELF reader and writer. The reader splits a file into headers, tables, section
    contents and the padding between them; the writer reassembles them over a zeroed
    buffer. Each direction undoes the other. */
module Elf {
  import opened Bytes
  import opened Outcome
  import opened Regions
  import opened ElfHeaders

  datatype Error =
    | Truncated(offset: nat, needed: nat, have: nat)
    | BadMagic(magic: seq<byte>)
    | UnsupportedClass(got: byte)
    | UnsupportedEncoding(got: byte)
    | BadEhsize(size: nat, expected: nat)
    | BadPhentsize(size: nat, expected: nat)
    | BadShentsize(size: nat, expected: nat)
    | OverlappingRegions(a: Region, b: Region)
    | RegionOverflow(r: Region)

  datatype File = File(cls: Class, ehdr: Ehdr, phdrs: seq<Entry>, shdrs: seq<Entry>,
                       sections: seq<seq<byte>>, padding: seq<Patch>, size: nat)

  // ===== the reader, as functions =====

  /** The length check uses a checked 64-bit addition. */
  function EnsureLen(bytes: seq<byte>, offset: nat, needed: nat): Result<(), Error> {
    if offset + needed >= U64 || offset + needed > |bytes|
    then Err(Truncated(offset, needed, |bytes|)) else Ok(())
  }

  function CheckSizes(c: Class, h: Ehdr): Result<(), Error> {
    if h.ehsize != EhdrSize(c) then Err(BadEhsize(h.ehsize, EhdrSize(c)))
    else if h.phnum > 0 && h.phentsize != EntrySize(PhKind, c) then
      Err(BadPhentsize(h.phentsize, EntrySize(PhKind, c)))
    else if h.shnum > 0 && h.shentsize != EntrySize(ShKind, c) then
      Err(BadShentsize(h.shentsize, EntrySize(ShKind, c)))
    else Ok(())
  }

  function ParseEhdr(bytes: seq<byte>): Result<(Ehdr, Class), Error> {
    if |bytes| < EI_NIDENT then Err(Truncated(0, EI_NIDENT, |bytes|))
    else if bytes[..4] != ELF_MAGIC then Err(BadMagic(bytes[..4]))
    else if bytes[5] != 1 then Err(UnsupportedEncoding(bytes[5]))
    else if bytes[4] != 1 && bytes[4] != 2 then Err(UnsupportedClass(bytes[4]))
    else
      var c := if bytes[4] == 1 then Elf32 else Elf64;
      var _ :- EnsureLen(bytes, 0, EhdrSize(c));
      var h := ReadEhdr(c, bytes);
      var _ :- CheckSizes(c, h);
      Ok((h, c))
  }

  /** The length of a table of `n` entries. */
  function TableSize(k: Kind, c: Class, n: nat): nat { n * EntrySize(k, c) }

  lemma TableSizeStep(k: Kind, c: Class, n: nat)
    ensures TableSize(k, c, 0) == 0
    ensures TableSize(k, c, n + 1) == TableSize(k, c, n) + EntrySize(k, c)
  {}

  lemma {:induction false} TableSizeMonotone(k: Kind, c: Class, m: nat, n: nat)
    requires m <= n
    ensures TableSize(k, c, m) <= TableSize(k, c, n)
    ensures n > 0 ==> TableSize(k, c, n) > 0
  {
    MulMonotone(m, n, EntrySize(k, c));
    if n > 0 {
      MulMonotone(1, n, EntrySize(k, c));
    }
  }

  /** The first `n` entries of the table at `off`. */
  function Entries(k: Kind, c: Class, s: seq<byte>, off: nat, n: nat): (es: seq<Entry>)
    requires off + TableSize(k, c, n) <= |s|
    ensures |es| == n && forall e <- es :: KindOf(e) == k
  {
    if n == 0 then []
    else
      TableSizeStep(k, c, n - 1);
      var mid, end := off + TableSize(k, c, n - 1), off + TableSize(k, c, n);
      Entries(k, c, s, off, n - 1) + [ReadEntry(k, c, s[mid..end])]
  }

  lemma EntriesSnoc(k: Kind, c: Class, s: seq<byte>, off: nat, n: nat)
    requires n > 0 && off + TableSize(k, c, n) <= |s|
    ensures TableSize(k, c, n) == TableSize(k, c, n - 1) + EntrySize(k, c)
    ensures Entries(k, c, s, off, n) == Entries(k, c, s, off, n - 1)
      + [ReadEntry(k, c, s[off + TableSize(k, c, n - 1)..off + TableSize(k, c, n)])]
  {
    hide ReadEntry, EntrySize;
    TableSizeStep(k, c, n - 1);
  }

  function ParseTable(k: Kind, c: Class, bytes: seq<byte>, off: nat, n: nat): Result<seq<Entry>, Error> {
    if n == 0 then Ok([])
    else
      var _ :- EnsureLen(bytes, off, TableSize(k, c, n));
      Ok(Entries(k, c, bytes, off, n))
  }

  predicate Occupies(e: Entry) { e.Shdr? && OccupiesFile(e) }

  /** The contents of one section; empty for a section without file space. */
  function SectionData(bytes: seq<byte>, sh: Entry): Result<seq<byte>, Error> {
    if !Occupies(sh) then Ok([])
    else
      var _ :- EnsureLen(bytes, sh.offset, sh.size);
      Ok(bytes[sh.offset..sh.offset + sh.size])
  }

  function CollectSections(bytes: seq<byte>, shdrs: seq<Entry>): Result<seq<seq<byte>>, Error>
    decreases |shdrs|
  {
    if shdrs == [] then Ok([])
    else
      var front :- CollectSections(bytes, shdrs[..|shdrs| - 1]);
      var last :- SectionData(bytes, shdrs[|shdrs| - 1]);
      Ok(front + [last])
  }

  function TableRegion(k: Kind, c: Class, off: nat, n: nat): seq<Region> {
    if n > 0 then [Region(off, off + TableSize(k, c, n))] else []
  }

  function SectionRegions(shdrs: seq<Entry>): seq<Region>
    decreases |shdrs|
  {
    if shdrs == [] then []
    else
      var sh := shdrs[|shdrs| - 1];
      SectionRegions(shdrs[..|shdrs| - 1])
      + if Occupies(sh) then [Region(sh.offset, sh.offset + sh.size)] else []
  }

  /** Header, tables and file-occupying sections, in the order they are collected. */
  function StructuredRegions(c: Class, h: Ehdr, shdrs: seq<Entry>): seq<Region> {
    [Region(0, EhdrSize(c))] + TableRegion(PhKind, c, h.phoff, h.phnum)
    + TableRegion(ShKind, c, h.shoff, h.shnum) + SectionRegions(shdrs)
  }

  /** The end of every region is a checked 64-bit sum. */
  function FirstOverflow(rs: seq<Region>): Option<Region> {
    if rs == [] then None
    else if rs[0].end >= U64 then Some(rs[0])
    else FirstOverflow(rs[1..])
  }

  function BuildRegions(c: Class, h: Ehdr, shdrs: seq<Entry>): Result<seq<Region>, Error> {
    var rs := StructuredRegions(c, h, shdrs);
    match FirstOverflow(rs)
    case Some(r) => Err(RegionOverflow(r))
    case None =>
      var sorted := SortByStart(rs);
      match FirstOverlap(sorted)
      case Some(p) => Err(OverlappingRegions(p.0, p.1))
      case None => Ok(sorted)
  }

  /** Everything after the file header. */
  function ParseBody(bytes: seq<byte>, h: Ehdr, c: Class): Result<File, Error>
    requires |bytes| >= EhdrSize(c)
  {
    var phdrs :- ParseTable(PhKind, c, bytes, h.phoff, h.phnum);
    var shdrs :- ParseTable(ShKind, c, bytes, h.shoff, h.shnum);
    var sections :- CollectSections(bytes, shdrs);
    var regions :- BuildRegions(c, h, shdrs);
    StructuredInside(bytes, h, c, shdrs);
    BuiltRegions(c, h, shdrs, |bytes|);
    Ok(File(c, h, phdrs, shdrs, sections, CutAll(bytes, Gaps(regions, 0, |bytes|)), |bytes|))
  }

  function Parse(bytes: seq<byte>): Result<File, Error> {
    var (h, c) :- ParseEhdr(bytes);
    ParseBody(bytes, h, c)
  }

  // ===== the writer, as a function =====

  function TableBytes(c: Class, es: seq<Entry>): seq<byte>
    decreases |es|
  {
    if es == [] then [] else TableBytes(c, es[..|es| - 1]) + EntryBytes(c, es[|es| - 1])
  }

  function TableBlock(c: Class, off: nat, es: seq<Entry>): seq<Patch> {
    if es == [] then [] else [Patch(off, TableBytes(c, es))]
  }

  function SectionBlocks(shdrs: seq<Entry>, sections: seq<seq<byte>>): seq<Patch>
    requires |shdrs| == |sections|
    decreases |shdrs|
  {
    if shdrs == [] then []
    else
      var n := |shdrs| - 1;
      SectionBlocks(shdrs[..n], sections[..n])
      + if Occupies(shdrs[n]) then [Patch(shdrs[n].offset, sections[n])] else []
  }

  function StructuredBlocks(f: File): seq<Patch>
    requires |f.shdrs| == |f.sections|
  {
    [Patch(0, EhdrBytes(f.cls, f.ehdr))] + TableBlock(f.cls, f.ehdr.phoff, f.phdrs)
    + TableBlock(f.cls, f.ehdr.shoff, f.shdrs) + SectionBlocks(f.shdrs, f.sections)
  }

  /** Everything `write_to_vec` writes, in its order. */
  function Blocks(f: File): seq<Patch>
    requires |f.shdrs| == |f.sections|
  {
    StructuredBlocks(f) + f.padding
  }

  /** The writer's caller must supply parts whose blocks lie inside the file. */
  predicate Writable(f: File) {
    && |f.shdrs| == |f.sections| && |f.ehdr.ident| == EI_NIDENT
    && (forall e <- f.phdrs :: e.Phdr?) && (forall e <- f.shdrs :: e.Shdr?)
    && Fit(Blocks(f), f.size)
  }

  function Written(f: File): (out: seq<byte>)
    requires Writable(f)
    ensures |out| == f.size
  {
    PutAll(Zeros(f.size), Blocks(f))
  }

  // ===== consistent parts =====

  predicate HeaderValid(c: Class, h: Ehdr) {
    && EhdrFits(c, h) && CheckSizes(c, h).Ok?
    && h.ident[..4] == ELF_MAGIC && h.ident[5] == 1
    && h.ident[4] == (if c.Elf32? then 1 else 2)
  }

  /** Counts, kinds, widths and section lengths agree with the header. */
  predicate ShapeValid(f: File) {
    && HeaderValid(f.cls, f.ehdr)
    && |f.phdrs| == f.ehdr.phnum && |f.shdrs| == f.ehdr.shnum && |f.sections| == |f.shdrs|
    && (forall e <- f.phdrs :: e.Phdr? && EntryFits(f.cls, e))
    && (forall e <- f.shdrs :: e.Shdr? && EntryFits(f.cls, e))
    && (forall i :: 0 <= i < |f.shdrs| ==>
          |f.sections[i]| == if Occupies(f.shdrs[i]) then f.shdrs[i].size else 0)
  }

  function FileRegions(f: File): seq<Region> { StructuredRegions(f.cls, f.ehdr, f.shdrs) }

  /** The padding has the position and the length of every gap, in order. */
  predicate PaddingFillsGaps(f: File) {
    var gaps := Gaps(SortByStart(FileRegions(f)), 0, f.size);
    && |f.padding| == |gaps|
    && forall i :: 0 <= i < |gaps| ==> f.padding[i].at == gaps[i].start && f.padding[i].End() == gaps[i].end
  }

  /** What the source asks of parts that did not come from a parse. */
  predicate Consistent(f: File) {
    && f.size < U64 && ShapeValid(f)
    && Within(FileRegions(f), f.size) && PairwiseApart(FileRegions(f))
    && PaddingFillsGaps(f)
  }

  // ===== facts about regions =====

  lemma {:induction false} SectionRegionsNonEmpty(shdrs: seq<Entry>)
    ensures NonEmpty(SectionRegions(shdrs))
    decreases |shdrs|
  {
    if shdrs != [] {
      SectionRegionsNonEmpty(shdrs[..|shdrs| - 1]);
    }
  }

  lemma StructuredNonEmpty(c: Class, h: Ehdr, shdrs: seq<Entry>)
    ensures NonEmpty(StructuredRegions(c, h, shdrs))
  {
    SectionRegionsNonEmpty(shdrs);
    TableSizeMonotone(PhKind, c, 0, h.phnum);
    TableSizeMonotone(ShKind, c, 0, h.shnum);
  }

  lemma {:induction false} NoOverflow(rs: seq<Region>)
    ensures FirstOverflow(rs).None? <==> forall r <- rs :: r.end < U64
    decreases |rs|
  {
    if rs != [] {
      NoOverflow(rs[1..]);
      assert forall r :: r in rs <==> r == rs[0] || r in rs[1..];
    }
  }

  lemma {:induction false} SectionsInside(bytes: seq<byte>, shdrs: seq<Entry>)
    requires CollectSections(bytes, shdrs).Ok?
    ensures Within(SectionRegions(shdrs), |bytes|)
    ensures |CollectSections(bytes, shdrs).value| == |shdrs|
    decreases |shdrs|
  {
    if shdrs != [] {
      SectionsInside(bytes, shdrs[..|shdrs| - 1]);
    }
  }

  /** A table that passed its length check lies inside the file. */
  predicate TableInside(k: Kind, c: Class, bytes: seq<byte>, off: nat, n: nat) {
    n > 0 ==> off + TableSize(k, c, n) <= |bytes| && off + TableSize(k, c, n) < U64
  }

  lemma StructuredInside(bytes: seq<byte>, h: Ehdr, c: Class, shdrs: seq<Entry>)
    requires |bytes| >= EhdrSize(c)
    requires TableInside(PhKind, c, bytes, h.phoff, h.phnum)
    requires TableInside(ShKind, c, bytes, h.shoff, h.shnum)
    requires CollectSections(bytes, shdrs).Ok?
    ensures Within(StructuredRegions(c, h, shdrs), |bytes|)
  {
    SectionsInside(bytes, shdrs);
  }

  lemma BuiltRegions(c: Class, h: Ehdr, shdrs: seq<Entry>, n: nat)
    requires Within(StructuredRegions(c, h, shdrs), n)
    requires BuildRegions(c, h, shdrs).Ok?
    ensures var regions := BuildRegions(c, h, shdrs).value;
      && regions == SortByStart(StructuredRegions(c, h, shdrs))
      && Within(regions, n) && NonEmpty(regions) && SortedByStart(regions)
      && InFile(Gaps(regions, 0, n), n) && Increasing(Gaps(regions, 0, n), 0, n)
  {
    var regions := BuildRegions(c, h, shdrs).value;
    StructuredNonEmpty(c, h, shdrs);
    SameElements(StructuredRegions(c, h, shdrs), regions);
    GapsIncreasing(regions, 0, n);
    GapsInFile(Gaps(regions, 0, n), n);
  }

  lemma GapsInFile(gs: seq<Region>, n: nat)
    requires Increasing(gs, 0, n)
    ensures InFile(gs, n)
  {
    assert forall i :: 0 <= i < |gs| ==> gs[i] in gs;
  }
}
