/** Thin 64-bit little-endian Mach-O reader and writer. Segments may overlap each other,
    the header and the load-command table; the writer still restores the file. */
module Macho {
  import opened Bytes
  import opened Outcome
  import opened Regions
  import opened MachoCommands

  const MH_MAGIC_64: nat := 0xfeed_facf
  const MH_MAGIC: nat := 0xfeed_face
  const MH_CIGAM: nat := 0xcefa_edfe
  const FAT_MAGIC: nat := 0xcafe_babe
  const FAT_MAGIC_64: nat := 0xcafe_babf
  const CPU_TYPE_X86_64: nat := 0x0100_0007
  const CPU_TYPE_ARM64: nat := 0x0100_000c
  const HEADER_SIZE: nat := 32

  datatype Error =
    | Truncated(offset: nat, needed: nat, have: nat)
    | BadMagic(magic: nat)
    | FatNotSupported
    | Macho32NotSupported(magic: nat)
    | UnsupportedCpu(cpu: nat)
    | BadLoadCmdSize(offset: nat, cmdsize: nat)
    | LoadCmdOverrun(cursor: nat, end: nat)
    | RegionOverflow(offset: nat, size: nat)

  datatype Header = Header(magic: nat, cputype: nat, cpusubtype: nat, filetype: nat,
                           ncmds: nat, sizeofcmds: nat, flags: nat, reserved: nat)

  datatype File = File(header: Header, commands: seq<LoadCommand>, segmentData: seq<seq<byte>>,
                       segmentIndices: seq<nat>, padding: seq<Patch>, size: nat)

  // ===== the reader, as functions =====

  /** The length check saturates its 64-bit sum. */
  function EnsureLen(bytes: seq<byte>, offset: nat, needed: nat): Result<(), Error> {
    var end := if offset + needed >= U64 then U64 - 1 else offset + needed;
    if |bytes| < end then Err(Truncated(offset, needed, |bytes|)) else Ok(())
  }

  function ReadHeader(s: seq<byte>): Header
    requires |s| >= HEADER_SIZE
  {
    Header(ReadLE(s, 0, 4), ReadLE(s, 4, 4), ReadLE(s, 8, 4), ReadLE(s, 12, 4),
           ReadLE(s, 16, 4), ReadLE(s, 20, 4), ReadLE(s, 24, 4), ReadLE(s, 28, 4))
  }

  function FromBE32(s: seq<byte>): nat
    requires |s| >= 4
  {
    var b0: nat, b1: nat, b2: nat, b3: nat := s[0], s[1], s[2], s[3];
    ((b0 * 256 + b1) * 256 + b2) * 256 + b3
  }

  function ParseHeader(bytes: seq<byte>): Result<Header, Error> {
    if |bytes| < 4 then Err(Truncated(0, 4, |bytes|))
    else
      var magic := ReadLE(bytes, 0, 4);
      var swapped := FromBE32(bytes);
      if magic == FAT_MAGIC || magic == FAT_MAGIC_64 then Err(FatNotSupported)
      else if swapped == FAT_MAGIC || swapped == FAT_MAGIC_64 then Err(FatNotSupported)
      else if magic == MH_MAGIC || magic == MH_CIGAM then Err(Macho32NotSupported(magic))
      else if magic != MH_MAGIC_64 then Err(BadMagic(magic))
      else
        var _ :- EnsureLen(bytes, 0, HEADER_SIZE);
        var h := ReadHeader(bytes);
        if h.cputype == CPU_TYPE_X86_64 || h.cputype == CPU_TYPE_ARM64 then Ok(h)
        else Err(UnsupportedCpu(h.cputype))
  }

  /** `n` commands from `cursor`, which must end exactly at `end`. */
  function WalkCommands(bytes: seq<byte>, cursor: nat, n: nat, end: nat): Result<seq<LoadCommand>, Error>
    requires end <= |bytes|
    decreases n
  {
    if n == 0 then
      if cursor != end then Err(LoadCmdOverrun(cursor, end)) else Ok([])
    else if cursor + 8 > end then Err(LoadCmdOverrun(cursor, end))
    else
      var cmd, cmdsize := ReadLE(bytes, cursor, 4), ReadLE(bytes, cursor + 4, 4);
      if cmdsize < 8 then Err(BadLoadCmdSize(cursor, cmdsize))
      else if cursor + cmdsize > end then Err(LoadCmdOverrun(cursor + cmdsize, end))
      else
        var rest :- WalkCommands(bytes, cursor + cmdsize, n - 1, end);
        Ok([LoadCommand(cmd, cmdsize, bytes[cursor + 8..cursor + cmdsize])] + rest)
  }

  function ParseCommands(bytes: seq<byte>, h: Header): Result<seq<LoadCommand>, Error>
    requires h.sizeofcmds < U32
  {
    var _ :- EnsureLen(bytes, HEADER_SIZE, h.sizeofcmds);
    WalkCommands(bytes, HEADER_SIZE, h.ncmds, HEADER_SIZE + h.sizeofcmds)
  }

  /** The file contents of one segment; empty when it has none. */
  function SegmentContents(bytes: seq<byte>, seg: Segment64): Result<seq<byte>, Error> {
    if seg.filesize == 0 then Ok([])
    else if seg.fileoff + seg.filesize >= U64 then Err(RegionOverflow(seg.fileoff, seg.filesize))
    else
      var _ :- EnsureLen(bytes, seg.fileoff, seg.filesize);
      Ok(bytes[seg.fileoff..seg.fileoff + seg.filesize])
  }

  function CollectSegments(bytes: seq<byte>, cmds: seq<LoadCommand>): Result<(seq<seq<byte>>, seq<nat>), Error>
    decreases |cmds|
  {
    if cmds == [] then Ok(([], []))
    else
      var n: nat := |cmds| - 1;
      var (data, indices) :- CollectSegments(bytes, cmds[..n]);
      match ParseSegment(n, cmds[n])
      case None => Ok((data, indices))
      case Some(seg) =>
        var contents :- SegmentContents(bytes, seg);
        var ns: seq<nat> := indices + [n];
        Ok((data + [contents], ns))
  }

  function SegmentRegions(cmds: seq<LoadCommand>): seq<Region>
    decreases |cmds|
  {
    if cmds == [] then []
    else
      var n := |cmds| - 1;
      var front := SegmentRegions(cmds[..n]);
      match ParseSegment(n, cmds[n])
      case None => front
      case Some(seg) =>
        if seg.filesize == 0 then front else front + [Region(seg.fileoff, seg.fileoff + seg.filesize)]
  }

  /** Header, command table and segments; overlaps are allowed. */
  function FileRegions(h: Header, cmds: seq<LoadCommand>): seq<Region> {
    [Region(0, HEADER_SIZE)]
    + (if h.sizeofcmds > 0 then [Region(HEADER_SIZE, HEADER_SIZE + h.sizeofcmds)] else [])
    + SegmentRegions(cmds)
  }

  function ParseBody(bytes: seq<byte>, h: Header): Result<File, Error>
    requires |bytes| >= HEADER_SIZE && h.sizeofcmds < U32
  {
    var cmds :- ParseCommands(bytes, h);
    var (data, indices) :- CollectSegments(bytes, cmds);
    SortedInside(bytes, h, cmds);
    var regions := SortByStart(FileRegions(h, cmds));
    Ok(File(h, cmds, data, indices, CutAll(bytes, Gaps(regions, 0, |bytes|)), |bytes|))
  }

  function Parse(bytes: seq<byte>): Result<File, Error> {
    var h :- ParseHeader(bytes);
    Pow256Values();
    ParseBody(bytes, h)
  }

  // ===== the writer, as a function =====

  function HeaderFields(h: Header): seq<Field> {
    [Field(0, 4, h.magic), Field(4, 4, h.cputype), Field(8, 4, h.cpusubtype), Field(12, 4, h.filetype),
     Field(16, 4, h.ncmds), Field(20, 4, h.sizeofcmds), Field(24, 4, h.flags), Field(28, 4, h.reserved)]
  }

  function HeaderBytes(h: Header): seq<byte> { FieldBytes(HeaderFields(h)) }

  /** A segment is copied back to the offset its command names. */
  function SegmentPatch(cmds: seq<LoadCommand>, index: nat, data: seq<byte>): seq<Patch> {
    if index >= |cmds| then []
    else
      match ParseSegment(index, cmds[index])
      case None => []
      case Some(seg) => if seg.filesize > 0 && data != [] then [Patch(seg.fileoff, data)] else []
  }

  function SegmentPatches(cmds: seq<LoadCommand>, data: seq<seq<byte>>, indices: seq<nat>): seq<Patch>
    requires |data| == |indices|
    decreases |data|
  {
    if data == [] then []
    else
      var n := |data| - 1;
      SegmentPatches(cmds, data[..n], indices[..n]) + SegmentPatch(cmds, indices[n], data[n])
  }

  function CommandPatch(c: LoadCommand, cursor: nat): seq<Patch> {
    [Patch(cursor, LE(c.cmd, 4)), Patch(cursor + 4, LE(c.cmdsize, 4)), Patch(cursor + 8, c.body)]
  }

  function CommandPatches(cmds: seq<LoadCommand>, cursor: nat): seq<Patch> {
    if cmds == [] then []
    else CommandPatch(cmds[0], cursor) + CommandPatches(cmds[1..], cursor + cmds[0].cmdsize)
  }

  /** The length of the command table. */
  function TotalSize(cmds: seq<LoadCommand>): nat {
    if cmds == [] then 0 else cmds[0].cmdsize + TotalSize(cmds[1..])
  }

  /** Everything `write_to_vec` writes: segments first, so that the parsed header and
      commands win wherever a segment covers them. */
  function Blocks(f: File): seq<Patch>
    requires |f.segmentData| == |f.segmentIndices|
  {
    SegmentPatches(f.commands, f.segmentData, f.segmentIndices) + [Patch(0, HeaderBytes(f.header))]
    + CommandPatches(f.commands, HEADER_SIZE) + f.padding
  }

  predicate Writable(f: File) {
    |f.segmentData| == |f.segmentIndices| && Fit(Blocks(f), f.size)
  }

  function Written(f: File): (out: seq<byte>)
    requires Writable(f)
    ensures |out| == f.size
  {
    PutAll(Zeros(f.size), Blocks(f))
  }

  // ===== regions stay inside the file =====

  lemma {:induction false} SegmentsInside(bytes: seq<byte>, cmds: seq<LoadCommand>)
    requires CollectSegments(bytes, cmds).Ok?
    ensures Within(SegmentRegions(cmds), |bytes|) && NonEmpty(SegmentRegions(cmds))
    decreases |cmds|
  {
    hide ParseSegment;
    if cmds != [] {
      SegmentsInside(bytes, cmds[..|cmds| - 1]);
    }
  }

  lemma RegionsInside(bytes: seq<byte>, h: Header, cmds: seq<LoadCommand>)
    requires HEADER_SIZE + h.sizeofcmds <= |bytes| && CollectSegments(bytes, cmds).Ok?
    ensures Within(FileRegions(h, cmds), |bytes|) && NonEmpty(FileRegions(h, cmds))
  {
    hide CollectSegments, SegmentRegions;
    SegmentsInside(bytes, cmds);
  }

  lemma GapsFit(raw: seq<Region>, n: nat)
    requires Within(raw, n) && NonEmpty(raw)
    ensures InFile(Gaps(SortByStart(raw), 0, n), n)
    ensures Within(SortByStart(raw), n) && NonEmpty(SortByStart(raw))
  {
    hide Gaps, SortedByStart;
    var rs := SortByStart(raw);
    SameElements(raw, rs);
    GapsIncreasing(rs, 0, n);
    var gs := Gaps(rs, 0, n);
    assert forall i :: 0 <= i < |gs| ==> gs[i] in gs;
  }

  lemma SortedInside(bytes: seq<byte>, h: Header, cmds: seq<LoadCommand>)
    requires |bytes| >= HEADER_SIZE && h.sizeofcmds < U32
    requires ParseCommands(bytes, h) == Ok(cmds) && CollectSegments(bytes, cmds).Ok?
    ensures var rs := SortByStart(FileRegions(h, cmds));
      && Within(rs, |bytes|) && NonEmpty(rs) && InFile(Gaps(rs, 0, |bytes|), |bytes|)
  {
    hide WalkCommands, CollectSegments, FileRegions, Gaps, SortByStart, Within, NonEmpty, InFile;
    RegionsInside(bytes, h, cmds);
    GapsFit(FileRegions(h, cmds), |bytes|);
  }

  // ===== every write restores the original bytes =====

  lemma HeaderRestores(bytes: seq<byte>)
    requires |bytes| >= HEADER_SIZE
    ensures HeaderBytes(ReadHeader(bytes)) == bytes[0..HEADER_SIZE]
  {
    var fs := HeaderFields(ReadHeader(bytes));
    LayoutOf(fs, 0, 32);
    assert Holds(bytes, fs[0]) && Holds(bytes, fs[1]) && Holds(bytes, fs[2]) && Holds(bytes, fs[3]);
    assert Holds(bytes, fs[4]) && Holds(bytes, fs[5]) && Holds(bytes, fs[6]) && Holds(bytes, fs[7]);
    FieldsRestore(fs, bytes, 0, 32);
  }

  lemma CommandRestores(bytes: seq<byte>, cursor: nat, c: LoadCommand)
    requires cursor + 8 <= cursor + c.cmdsize <= |bytes|
    requires c.cmd == ReadLE(bytes, cursor, 4) && c.cmdsize == ReadLE(bytes, cursor + 4, 4)
    requires c.body == bytes[cursor + 8..cursor + c.cmdsize]
    ensures RestoresAll(CommandPatch(c, cursor), bytes)
  {
    hide LE, FromLE;
    WriteOfRead(bytes[cursor..cursor + 4]);
    WriteOfRead(bytes[cursor + 4..cursor + 8]);
  }

  lemma {:induction false} CommandsRestore(bytes: seq<byte>, cursor: nat, n: nat, end: nat)
    requires end <= |bytes| && WalkCommands(bytes, cursor, n, end).Ok?
    ensures RestoresAll(CommandPatches(WalkCommands(bytes, cursor, n, end).value, cursor), bytes)
    decreases n
  {
    hide ReadLE, CommandPatch;
    if n > 0 {
      var cmds := WalkCommands(bytes, cursor, n, end).value;
      var c := cmds[0];
      CommandsRestore(bytes, cursor + c.cmdsize, n - 1, end);
      assert cmds[1..] == WalkCommands(bytes, cursor + c.cmdsize, n - 1, end).value;
      CommandRestores(bytes, cursor, c);
      RestoresAppend(CommandPatch(c, cursor), CommandPatches(cmds[1..], cursor + c.cmdsize), bytes);
    }
  }

  lemma CoveredAppend(ps: seq<Patch>, qs: seq<Patch>, i: int)
    ensures Covered(ps + qs, i) <==> Covered(ps, i) || Covered(qs, i)
  {
    if Covered(ps, i) {
      var k :| 0 <= k < |ps| && ps[k].Covers(i);
      assert (ps + qs)[k].Covers(i);
    }
    if Covered(qs, i) {
      var k :| 0 <= k < |qs| && qs[k].Covers(i);
      assert (ps + qs)[|ps| + k].Covers(i);
    }
    if Covered(ps + qs, i) {
      var k :| 0 <= k < |ps + qs| && (ps + qs)[k].Covers(i);
      if k < |ps| { assert ps[k].Covers(i); } else { assert qs[k - |ps|].Covers(i); }
    }
  }

  /** The commands tile the table. */
  lemma {:induction false} CommandsCover(bytes: seq<byte>, cursor: nat, n: nat, end: nat, i: nat)
    requires end <= |bytes| && WalkCommands(bytes, cursor, n, end).Ok? && cursor <= i < end
    ensures Covered(CommandPatches(WalkCommands(bytes, cursor, n, end).value, cursor), i)
    decreases n
  {
    hide LE, FromLE;
    if n > 0 {
      var cmds := WalkCommands(bytes, cursor, n, end).value;
      var c := cmds[0];
      var head := CommandPatch(c, cursor);
      assert cmds[1..] == WalkCommands(bytes, cursor + c.cmdsize, n - 1, end).value;
      if i < cursor + c.cmdsize {
        assert head[0].Covers(i) || head[1].Covers(i) || head[2].Covers(i);
        assert Covered(head, i);
      } else {
        CommandsCover(bytes, cursor + c.cmdsize, n - 1, end, i);
      }
      CoveredAppend(head, CommandPatches(cmds[1..], cursor + c.cmdsize), i);
    }
  }

  /** What was collected for each segment, and that no segment was missed. */
  predicate SegmentsCollected(bytes: seq<byte>, cmds: seq<LoadCommand>, data: seq<seq<byte>>, indices: seq<nat>) {
    && |data| == |indices|
    && (forall j :: 0 <= j < |data| ==>
          && indices[j] < |cmds| && ParseSegment(indices[j], cmds[indices[j]]).Some?
          && SegmentContents(bytes, ParseSegment(indices[j], cmds[indices[j]]).value) == Ok(data[j]))
    && (forall k :: 0 <= k < |cmds| && ParseSegment(k, cmds[k]).Some? ==> k in indices)
  }

  lemma {:induction false} CollectedSegments(bytes: seq<byte>, cmds: seq<LoadCommand>)
    requires CollectSegments(bytes, cmds).Ok?
    ensures var (data, indices) := CollectSegments(bytes, cmds).value; SegmentsCollected(bytes, cmds, data, indices)
    decreases |cmds|
  {
    hide ParseSegment, SegmentContents;
    if cmds != [] {
      var n := |cmds| - 1;
      CollectedSegments(bytes, cmds[..n]);
      var (data, indices) := CollectSegments(bytes, cmds).value;
      var (data', indices') := CollectSegments(bytes, cmds[..n]).value;
      forall k | 0 <= k < |cmds| && ParseSegment(k, cmds[k]).Some? ensures k in indices {
        if k < n {
          assert cmds[..n][k] == cmds[k];
          assert k in indices';
        }
      }
    }
  }

  lemma SegmentPatchRestores(bytes: seq<byte>, seg: Segment64, data: seq<byte>)
    requires SegmentContents(bytes, seg) == Ok(data)
    ensures seg.filesize > 0 <==> data != []
    ensures seg.filesize > 0 ==> Restores(Patch(seg.fileoff, data), bytes) && |data| == seg.filesize
  {}

  lemma {:induction false} SegmentsRestore(bytes: seq<byte>, cmds: seq<LoadCommand>, data: seq<seq<byte>>,
                                           indices: seq<nat>, m: nat)
    requires SegmentsCollected(bytes, cmds, data, indices) && m <= |data|
    ensures RestoresAll(SegmentPatches(cmds, data[..m], indices[..m]), bytes)
    decreases m
  {
    hide ParseSegment, SegmentContents, Restores;
    if m > 0 {
      var n := m - 1;
      SegmentsRestore(bytes, cmds, data, indices, n);
      assert data[..m][..n] == data[..n] && indices[..m][..n] == indices[..n];
      SegmentPatchRestores(bytes, ParseSegment(indices[n], cmds[indices[n]]).value, data[n]);
      RestoresAppend(SegmentPatches(cmds, data[..n], indices[..n]), SegmentPatch(cmds, indices[n], data[n]), bytes);
    }
  }

  lemma {:induction false} SegmentPatchListed(cmds: seq<LoadCommand>, data: seq<seq<byte>>, indices: seq<nat>, j: nat, i: int)
    requires j < |data| == |indices| && Covered(SegmentPatch(cmds, indices[j], data[j]), i)
    ensures Covered(SegmentPatches(cmds, data, indices), i)
    decreases |data|
  {
    hide ParseSegment, SegmentPatch, Covered;
    var n := |data| - 1;
    if j < n {
      SegmentPatchListed(cmds, data[..n], indices[..n], j, i);
    }
    CoveredAppend(SegmentPatches(cmds, data[..n], indices[..n]), SegmentPatch(cmds, indices[n], data[n]), i);
  }

  lemma {:induction false} RegionFromSegment(cmds: seq<LoadCommand>, r: Region) returns (k: nat)
    requires r in SegmentRegions(cmds)
    ensures k < |cmds| && ParseSegment(k, cmds[k]).Some?
    ensures var seg := ParseSegment(k, cmds[k]).value;
      seg.filesize > 0 && r == Region(seg.fileoff, seg.fileoff + seg.filesize)
    decreases |cmds|
  {
    hide ParseSegment;
    var n := |cmds| - 1;
    if r in SegmentRegions(cmds[..n]) {
      k := RegionFromSegment(cmds[..n], r);
    } else {
      k := n;
    }
  }

  lemma SegmentsCover(bytes: seq<byte>, cmds: seq<LoadCommand>, data: seq<seq<byte>>, indices: seq<nat>, r: Region, i: nat)
    requires SegmentsCollected(bytes, cmds, data, indices)
    requires r in SegmentRegions(cmds) && r.Has(i)
    ensures Covered(SegmentPatches(cmds, data, indices), i)
  {
    hide ParseSegment, SegmentContents;
    var k := RegionFromSegment(cmds, r);
    var j :| 0 <= j < |indices| && indices[j] == k;
    SegmentPatchRestores(bytes, ParseSegment(k, cmds[k]).value, data[j]);
    assert SegmentPatch(cmds, indices[j], data[j])[0].Covers(i);
    SegmentPatchListed(cmds, data, indices, j, i);
  }

  // ===== the main result =====

  /** The pieces a parse puts together. */
  predicate ParsedAs(bytes: seq<byte>, f: File) {
    && |bytes| == f.size >= HEADER_SIZE && f.header == ReadHeader(bytes) && f.header.sizeofcmds < U32
    && ParseCommands(bytes, f.header) == Ok(f.commands)
    && CollectSegments(bytes, f.commands) == Ok((f.segmentData, f.segmentIndices))
    && var gs := Gaps(SortByStart(FileRegions(f.header, f.commands)), 0, |bytes|);
    InFile(gs, |bytes|) && f.padding == CutAll(bytes, gs)
  }

  lemma ParsedParts(bytes: seq<byte>)
    requires Parse(bytes).Ok?
    ensures ParsedAs(bytes, Parse(bytes).value)
  {
    hide WalkCommands, CollectSegments, FileRegions, CutAll, Gaps, SortByStart, InFile, Within, NonEmpty;
    Pow256Values();
    var h := ParseHeader(bytes).value;
    SortedInside(bytes, h, ParseCommands(bytes, h).value);
    var v := CollectSegments(bytes, ParseCommands(bytes, h).value).value;
    assert v == (v.0, v.1);
  }

  lemma PaddingRestores(bytes: seq<byte>, gs: seq<Region>)
    requires InFile(gs, |bytes|)
    ensures RestoresAll(CutAll(bytes, gs), bytes)
  {}

  lemma BlocksRestore(bytes: seq<byte>, f: File)
    requires ParsedAs(bytes, f)
    ensures |f.segmentData| == |f.segmentIndices| && RestoresAll(Blocks(f), bytes)
  {
    hide WalkCommands, CollectSegments, CutAll, Gaps, SegmentPatches, CommandPatches, FileRegions, ReadHeader, HeaderBytes,
      SortByStart, InFile;
    var h := f.header;
    HeaderRestores(bytes);
    CommandsRestore(bytes, HEADER_SIZE, h.ncmds, HEADER_SIZE + h.sizeofcmds);
    CollectedSegments(bytes, f.commands);
    AllSegmentsRestore(bytes, f.commands, f.segmentData, f.segmentIndices);
    PaddingRestores(bytes, Gaps(SortByStart(FileRegions(h, f.commands)), 0, |bytes|));
    var segs, cmds := SegmentPatches(f.commands, f.segmentData, f.segmentIndices), CommandPatches(f.commands, HEADER_SIZE);
    var hp := [Patch(0, HeaderBytes(h))];
    assert Restores(hp[0], bytes);
    RestoresAppend(segs, hp, bytes);
    RestoresAppend(segs + hp, cmds, bytes);
    RestoresAppend(segs + hp + cmds, f.padding, bytes);
  }

  lemma AllSegmentsRestore(bytes: seq<byte>, cmds: seq<LoadCommand>, data: seq<seq<byte>>, indices: seq<nat>)
    requires SegmentsCollected(bytes, cmds, data, indices)
    ensures RestoresAll(SegmentPatches(cmds, data, indices), bytes)
  {
    hide SegmentPatches;
    SegmentsRestore(bytes, cmds, data, indices, |data|);
    assert data[..|data|] == data && indices[..|data|] == indices;
  }

  lemma PartsCover(f: File, i: int)
    requires |f.segmentData| == |f.segmentIndices|
    requires || Covered(SegmentPatches(f.commands, f.segmentData, f.segmentIndices), i)
             || Patch(0, HeaderBytes(f.header)).Covers(i)
             || Covered(CommandPatches(f.commands, HEADER_SIZE), i) || Covered(f.padding, i)
    ensures Covered(Blocks(f), i)
  {
    hide SegmentPatches, CommandPatches, HeaderBytes, Covered;
    var segs, cmds := SegmentPatches(f.commands, f.segmentData, f.segmentIndices), CommandPatches(f.commands, HEADER_SIZE);
    var hp := [Patch(0, HeaderBytes(f.header))];
    SingleCovers(hp[0], i);
    CoveredAppend(segs, hp, i);
    CoveredAppend(segs + hp, cmds, i);
    CoveredAppend(segs + hp + cmds, f.padding, i);
  }

  lemma SingleCovers(p: Patch, i: int)
    ensures Covered([p], i) <==> p.Covers(i)
  {
    assert [p][0] == p;
  }

  /** Every region of the file is rewritten by the segments, the header or the commands. */
  lemma RegionCovered(bytes: seq<byte>, f: File, r: Region, i: nat)
    requires ParsedAs(bytes, f) && r in FileRegions(f.header, f.commands) && r.Has(i)
    ensures |f.segmentData| == |f.segmentIndices| && Covered(Blocks(f), i)
  {
    hide WalkCommands, CollectSegments, SegmentPatches, CommandPatches, SegmentRegions, ReadHeader, HeaderBytes, Blocks, Covered,
      Gaps, CutAll, SortByStart, InFile;
    CollectedSegments(bytes, f.commands);
    if r in SegmentRegions(f.commands) {
      SegmentsCover(bytes, f.commands, f.segmentData, f.segmentIndices, r, i);
    } else if r == Region(0, HEADER_SIZE) {
      HeaderRestores(bytes);
    } else {
      CommandsCover(bytes, HEADER_SIZE, f.header.ncmds, HEADER_SIZE + f.header.sizeofcmds, i);
    }
    PartsCover(f, i);
  }

  lemma SortedRegion(raw: seq<Region>, i: int) returns (r: Region)
    requires InSome(SortByStart(raw), i)
    ensures r in raw && r.Has(i)
  {
    r :| r in SortByStart(raw) && r.Has(i);
    SameElements(raw, SortByStart(raw));
  }

  lemma BlocksCover(bytes: seq<byte>, f: File, i: nat)
    requires ParsedAs(bytes, f) && i < |bytes|
    ensures |f.segmentData| == |f.segmentIndices| && Covered(Blocks(f), i)
  {
    hide ParseCommands, CollectSegments, CutAll, Gaps, FileRegions, SortByStart, InFile, Blocks, Covered, InSome, ReadHeader;
    BlocksRestore(bytes, f);
    var raw := FileRegions(f.header, f.commands);
    GapsCover(SortByStart(raw), 0, |bytes|, i);
    if InSome(SortByStart(raw), i) {
      var r := SortedRegion(raw, i);
      RegionCovered(bytes, f, r, i);
    } else {
      PaddingCovers(bytes, Gaps(SortByStart(raw), 0, |bytes|), i);
      PartsCover(f, i);
    }
  }

  lemma PaddingCovers(bytes: seq<byte>, gs: seq<Region>, i: nat)
    requires InFile(gs, |bytes|) && InSome(gs, i)
    ensures Covered(CutAll(bytes, gs), i)
  {
    var g :| g in gs && g.Has(i);
    var k :| 0 <= k < |gs| && gs[k] == g;
    assert CutAll(bytes, gs)[k].Covers(i);
  }

  /** Every accepted file is written back byte for byte, and would be in any order of
      the writes, although the pieces may overlap. */
  lemma WriteOfParse(bytes: seq<byte>)
    requires Parse(bytes).Ok?
    ensures var f := Parse(bytes).value; Writable(f) && Written(f) == bytes
    ensures var f := Parse(bytes).value;
      forall qs: seq<Patch> :: multiset(qs) == multiset(Blocks(f)) ==>
        Fit(qs, f.size) && PutAll(Zeros(f.size), qs) == bytes
  {
    hide Parse, Blocks, ParsedAs;
    var f := Parse(bytes).value;
    ParsedParts(bytes);
    ParsedSize(bytes, f);
    BlocksRestore(bytes, f);
    forall i: nat | i < |bytes| ensures Covered(Blocks(f), i) { BlocksCover(bytes, f, i); }
    RestoreAll(Zeros(f.size), Blocks(f), bytes);
    forall qs: seq<Patch> | multiset(qs) == multiset(Blocks(f))
      ensures Fit(qs, f.size) && PutAll(Zeros(f.size), qs) == bytes
    {
      AnyOrder(Blocks(f), qs, bytes);
    }
  }

  lemma ParsedSize(bytes: seq<byte>, f: File)
    requires ParsedAs(bytes, f)
    ensures f.size == |bytes|
  {}

  lemma AnyOrder(ps: seq<Patch>, qs: seq<Patch>, target: seq<byte>)
    requires multiset(ps) == multiset(qs) && RestoresAll(ps, target)
    requires forall i :: 0 <= i < |target| ==> Covered(ps, i)
    ensures Fit(qs, |target|) && PutAll(Zeros(|target|), qs) == target
  {
    forall k | 0 <= k < |qs| ensures Restores(qs[k], target) {
      assert qs[k] in multiset(ps);
      var j :| 0 <= j < |ps| && ps[j] == qs[k];
    }
    forall i | 0 <= i < |target| ensures Covered(qs, i) {
      assert Covered(ps, i);
      var k :| 0 <= k < |ps| && ps[k].Covers(i);
      assert ps[k] in multiset(qs);
      var j :| 0 <= j < |qs| && qs[j] == ps[k];
    }
    RestoreAll(Zeros(|target|), qs, target);
  }
}
