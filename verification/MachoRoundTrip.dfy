/** The other direction for Mach-O: parts whose overlapping pieces agree are read back from
    what they write, and only those. */
module MachoRoundTrip {
  import opened Bytes
  import opened Outcome
  import opened Regions
  import opened MachoCommands
  import opened Macho

  // ===== pieces that agree =====

  function ByteAt(p: Patch, i: int): byte
    requires p.Covers(i)
  {
    p.data[i - p.at]
  }

  /** Wherever both write, they write the same byte. */
  ghost predicate Agree(p: Patch, q: Patch) {
    forall i :: p.Covers(i) && q.Covers(i) ==> ByteAt(p, i) == ByteAt(q, i)
  }

  ghost predicate AllAgree(ps: seq<Patch>) {
    forall j, k :: 0 <= j < |ps| && 0 <= k < |ps| ==> Agree(ps[j], ps[k])
  }

  lemma KeptByAgreeing(before: seq<byte>, p: Patch, last: Patch)
    requires Restores(p, before) && last.End() <= |before| && Agree(p, last)
    ensures Restores(p, Put(before, last))
  {
    var after := Put(before, last);
    forall i | 0 <= i < |p.data| ensures after[p.at..p.End()][i] == p.data[i] {
      assert before[p.at..p.End()][i] == before[p.at + i];
      assert after[p.at..p.End()][i] == after[p.at + i];
      assert p.Covers(p.at + i) && ByteAt(p, p.at + i) == p.data[i];
    }
  }

  /** Agreeing patches do not disturb one another, however they overlap. */
  lemma {:induction false} AgreeingRestored(s: seq<byte>, ps: seq<Patch>)
    requires Fit(ps, |s|) && AllAgree(ps)
    ensures RestoresAll(ps, PutAll(s, ps))
    decreases |ps|
  {
    hide Agree, Restores;
    if ps != [] {
      var front, last := ps[..|ps| - 1], ps[|ps| - 1];
      assert forall k :: 0 <= k < |front| ==> front[k] == ps[k];
      AgreeingRestored(s, front);
      var before := PutAll(s, front);
      forall k | 0 <= k < |ps| ensures Restores(ps[k], PutAll(s, ps)) {
        if k < |front| {
          assert Restores(front[k], before);
          KeptByAgreeing(before, ps[k], last);
        } else {
          PutRestores(before, last);
        }
      }
    }
  }

  lemma PutRestores(s: seq<byte>, p: Patch)
    requires p.End() <= |s|
    ensures Restores(p, Put(s, p))
  {}

  lemma RestoredAgree(ps: seq<Patch>, target: seq<byte>)
    requires RestoresAll(ps, target)
    ensures AllAgree(ps)
  {
    forall j, k | 0 <= j < |ps| && 0 <= k < |ps| ensures Agree(ps[j], ps[k]) {
      var p, q := ps[j], ps[k];
      assert Restores(p, target) && Restores(q, target);
      forall i | p.Covers(i) && q.Covers(i) ensures ByteAt(p, i) == ByteAt(q, i) {
        assert target[p.at..p.End()][i - p.at] == target[i] == target[q.at..q.End()][i - q.at];
      }
    }
  }

  // ===== consistent parts =====

  predicate HeaderValid(h: Header) {
    && FieldsFit(HeaderFields(h)) && h.magic == MH_MAGIC_64
    && (h.cputype == CPU_TYPE_X86_64 || h.cputype == CPU_TYPE_ARM64)
  }

  predicate CommandFits(c: LoadCommand) { c.cmd < U32 && c.cmdsize == 8 + |c.body| < U32 }

  /** The commands that describe a segment, in order. */
  function SegmentIndices(cmds: seq<LoadCommand>): seq<nat>
    decreases |cmds|
  {
    if cmds == [] then []
    else
      var n: nat := |cmds| - 1;
      SegmentIndices(cmds[..n]) + if ParseSegment(n, cmds[n]).Some? then [n] else []
  }

  /** The segment's data has the length its command states. */
  predicate DataFits(cmds: seq<LoadCommand>, index: nat, data: seq<byte>) {
    && index < |cmds| && ParseSegment(index, cmds[index]).Some?
    && |data| == ParseSegment(index, cmds[index]).value.filesize
  }

  predicate CommandsValid(f: File) {
    && |f.commands| == f.header.ncmds && TotalSize(f.commands) == f.header.sizeofcmds
    && forall c <- f.commands :: CommandFits(c)
  }

  predicate SegmentsValid(f: File) {
    && f.segmentIndices == SegmentIndices(f.commands) && |f.segmentData| == |f.segmentIndices|
    && forall j :: 0 <= j < |f.segmentData| ==> DataFits(f.commands, f.segmentIndices[j], f.segmentData[j])
  }

  function AllRegions(f: File): seq<Region> { FileRegions(f.header, f.commands) }

  predicate PaddingFillsGaps(f: File) {
    var gaps := Gaps(SortByStart(AllRegions(f)), 0, f.size);
    && |f.padding| == |gaps|
    && forall i :: 0 <= i < |gaps| ==> f.padding[i].at == gaps[i].start && f.padding[i].End() == gaps[i].end
  }

  /** Fields fit, counts and lengths match, regions lie in the file, padding is the gaps. */
  predicate Shaped(f: File) {
    && f.size < U64 && HeaderValid(f.header) && CommandsValid(f) && SegmentsValid(f)
    && Within(AllRegions(f), f.size) && PaddingFillsGaps(f)
  }

  ghost predicate Consistent(f: File) { Shaped(f) && AllAgree(Blocks(f)) }

  // ===== the pieces lie in the file =====

  lemma {:induction false} CommandsFit(cmds: seq<LoadCommand>, cursor: nat, n: nat)
    requires (forall c <- cmds :: CommandFits(c)) && cursor + TotalSize(cmds) <= n
    ensures Fit(CommandPatches(cmds, cursor), n)
    decreases |cmds|
  {
    hide LE;
    if cmds != [] {
      assert CommandFits(cmds[0]);
      CommandsFit(cmds[1..], cursor + cmds[0].cmdsize, n);
      FitAppend(CommandPatch(cmds[0], cursor), CommandPatches(cmds[1..], cursor + cmds[0].cmdsize), n);
    }
  }

  lemma {:induction false} SegmentRegionListed(cmds: seq<LoadCommand>, k: nat)
    requires k < |cmds| && ParseSegment(k, cmds[k]).Some? && ParseSegment(k, cmds[k]).value.filesize > 0
    ensures var seg := ParseSegment(k, cmds[k]).value;
      Region(seg.fileoff, seg.fileoff + seg.filesize) in SegmentRegions(cmds)
    decreases |cmds|
  {
    hide ParseSegment;
    var n := |cmds| - 1;
    if k < n {
      assert cmds[..n][k] == cmds[k];
      SegmentRegionListed(cmds[..n], k);
    }
  }

  lemma SegmentPatchFits(cmds: seq<LoadCommand>, index: nat, data: seq<byte>, n: nat)
    requires DataFits(cmds, index, data) && Within(SegmentRegions(cmds), n)
    ensures Fit(SegmentPatch(cmds, index, data), n)
  {
    hide ParseSegment, SegmentRegions;
    if ParseSegment(index, cmds[index]).value.filesize > 0 {
      SegmentRegionListed(cmds, index);
    }
  }

  lemma {:induction false} SegmentsFit(cmds: seq<LoadCommand>, data: seq<seq<byte>>, indices: seq<nat>, n: nat)
    requires |data| == |indices| && Within(SegmentRegions(cmds), n)
    requires forall j :: 0 <= j < |data| ==> DataFits(cmds, indices[j], data[j])
    ensures Fit(SegmentPatches(cmds, data, indices), n)
    decreases |data|
  {
    hide DataFits, SegmentRegions, SegmentPatch, Within;
    if data != [] {
      var m := |data| - 1;
      SegmentsFit(cmds, data[..m], indices[..m], n);
      SegmentPatchFits(cmds, indices[m], data[m], n);
      FitAppend(SegmentPatches(cmds, data[..m], indices[..m]), SegmentPatch(cmds, indices[m], data[m]), n);
    }
  }

  lemma HeaderLength(h: Header)
    ensures |HeaderBytes(h)| == HEADER_SIZE && Contiguous(HeaderFields(h), 0, HEADER_SIZE)
  {
    LayoutOf(HeaderFields(h), 0, 32);
  }

  lemma RegionsShape(f: File)
    requires Shaped(f)
    ensures HEADER_SIZE + f.header.sizeofcmds <= f.size && Within(SegmentRegions(f.commands), f.size)
    ensures NonEmpty(AllRegions(f))
  {
    hide SegmentRegions, HeaderValid, CommandsValid, SegmentsValid, PaddingFillsGaps;
    var rs := AllRegions(f);
    assert Region(0, HEADER_SIZE) in rs;
    assert f.header.sizeofcmds > 0 ==> Region(HEADER_SIZE, HEADER_SIZE + f.header.sizeofcmds) in rs;
    assert forall r <- SegmentRegions(f.commands) :: r in rs;
    SegmentRegionsNonEmpty(f.commands);
  }

  lemma {:induction false} SegmentRegionsNonEmpty(cmds: seq<LoadCommand>)
    ensures NonEmpty(SegmentRegions(cmds))
    decreases |cmds|
  {
    hide ParseSegment;
    if cmds != [] {
      SegmentRegionsNonEmpty(cmds[..|cmds| - 1]);
    }
  }

  lemma PaddingFits(f: File)
    requires Shaped(f)
    ensures var gaps := Gaps(SortByStart(AllRegions(f)), 0, f.size);
      InFile(gaps, f.size) && Fit(f.padding, f.size)
  {
    hide Gaps, SortByStart, AllRegions, HeaderValid, CommandsValid, SegmentsValid;
    RegionsShape(f);
    GapsFit(AllRegions(f), f.size);
  }

  lemma ShapedWritable(f: File)
    requires Shaped(f)
    ensures Writable(f)
  {
    hide SegmentPatches, CommandPatches, HeaderBytes, Within, PaddingFillsGaps, HeaderValid, TotalSize, DataFits, AllRegions;
    RegionsShape(f);
    PaddingFits(f);
    HeaderLength(f.header);
    CommandsFit(f.commands, HEADER_SIZE, f.size);
    SegmentsFit(f.commands, f.segmentData, f.segmentIndices, f.size);
    var segs, cmds := SegmentPatches(f.commands, f.segmentData, f.segmentIndices), CommandPatches(f.commands, HEADER_SIZE);
    var hp := [Patch(0, HeaderBytes(f.header))];
    FitAppend(segs, hp, f.size);
    FitAppend(segs + hp, cmds, f.size);
    FitAppend(segs + hp + cmds, f.padding, f.size);
  }

  // ===== reading the pieces back =====

  lemma MagicBytes(out: seq<byte>)
    requires |out| >= 4 && out[0..4] == LE(MH_MAGIC_64, 4)
    ensures ReadLE(out, 0, 4) == MH_MAGIC_64 && FromBE32(out) == 0xcffa_edfe
  {
    var v := MH_MAGIC_64;
    assert LE(v, 4) == [0xcf] + LE(0xfeedfa, 3) && LE(0xfeedfa, 3) == [0xfa] + LE(0xfeed, 2);
    assert LE(0xfeed, 2) == [0xed] + LE(0xfe, 1) && LE(0xfe, 1) == [0xfe] + LE(0, 0);
    assert out[0] == out[0..4][0] && out[1] == out[0..4][1] && out[2] == out[0..4][2] && out[3] == out[0..4][3];
    ReadOfWrite(v, 4);
    Pow256Values();
    FitsModulo(v, U32);
  }

  lemma HeaderReread(h: Header, out: seq<byte>)
    requires HeaderValid(h) && |out| >= HEADER_SIZE && out[0..HEADER_SIZE] == HeaderBytes(h) && |out| < U64
    ensures ParseHeader(out) == Ok(h)
  {
    hide FieldBytes, FromLE, LE;
    var fs := HeaderFields(h);
    HeaderLength(h);
    FieldReadsBack(fs, out, 0, HEADER_SIZE);
    assert Holds(out, fs[0]) && Holds(out, fs[1]) && Holds(out, fs[2]) && Holds(out, fs[3]);
    assert Holds(out, fs[4]) && Holds(out, fs[5]) && Holds(out, fs[6]) && Holds(out, fs[7]);
    assert ReadHeader(out) == h;
    FieldRestores(out, fs[0]);
    MagicBytes(out);
  }

  lemma CommandReread(c: LoadCommand, out: seq<byte>, cursor: nat)
    requires CommandFits(c) && RestoresAll(CommandPatch(c, cursor), out)
    ensures cursor + c.cmdsize <= |out| && ReadLE(out, cursor, 4) == c.cmd && ReadLE(out, cursor + 4, 4) == c.cmdsize
    ensures out[cursor + 8..cursor + c.cmdsize] == c.body
  {
    hide LE, FromLE;
    var ps := CommandPatch(c, cursor);
    assert Restores(ps[0], out) && Restores(ps[1], out) && Restores(ps[2], out);
    WordReads(out, cursor, c.cmd);
    WordReads(out, cursor + 4, c.cmdsize);
  }

  lemma {:induction false} CommandsReread(cmds: seq<LoadCommand>, out: seq<byte>, cursor: nat, end: nat)
    requires (forall c <- cmds :: CommandFits(c)) && RestoresAll(CommandPatches(cmds, cursor), out)
    requires cursor + TotalSize(cmds) == end <= |out|
    ensures WalkCommands(out, cursor, |cmds|, end) == Ok(cmds)
    decreases |cmds|
  {
    hide LE, FromLE, ReadLE, CommandPatch, RestoresAll;
    if cmds != [] {
      var c, rest := cmds[0], cmds[1..];
      assert CommandFits(c);
      RestoresAppend(CommandPatch(c, cursor), CommandPatches(rest, cursor + c.cmdsize), out);
      CommandReread(c, out, cursor);
      CommandsReread(rest, out, cursor + c.cmdsize, end);
      assert cmds == [c] + rest && LoadCommand(c.cmd, c.cmdsize, c.body) == c;
    }
  }

  lemma {:induction false} SegmentPatchRestored(cmds: seq<LoadCommand>, data: seq<seq<byte>>, indices: seq<nat>, out: seq<byte>, j: nat)
    requires j < |data| == |indices| && RestoresAll(SegmentPatches(cmds, data, indices), out)
    ensures RestoresAll(SegmentPatch(cmds, indices[j], data[j]), out)
    decreases |data|
  {
    hide SegmentPatch, RestoresAll;
    var n := |data| - 1;
    RestoresAppend(SegmentPatches(cmds, data[..n], indices[..n]), SegmentPatch(cmds, indices[n], data[n]), out);
    if j < n {
      SegmentPatchRestored(cmds, data[..n], indices[..n], out, j);
    }
  }

  lemma SegmentReread(cmds: seq<LoadCommand>, index: nat, data: seq<byte>, out: seq<byte>)
    requires DataFits(cmds, index, data) && RestoresAll(SegmentPatch(cmds, index, data), out) && |out| < U64
    ensures SegmentContents(out, ParseSegment(index, cmds[index]).value) == Ok(data)
  {
    hide ParseSegment;
    var seg := ParseSegment(index, cmds[index]).value;
    if seg.filesize > 0 {
      var p := SegmentPatch(cmds, index, data);
      assert p == [Patch(seg.fileoff, data)] && Restores(p[0], out);
    }
  }

  lemma {:induction false} SegmentsReread(cmds: seq<LoadCommand>, data: seq<seq<byte>>, out: seq<byte>, n: nat)
    requires n <= |cmds| && |data| == |SegmentIndices(cmds)| && |SegmentIndices(cmds[..n])| <= |data|
    requires SegmentIndices(cmds[..n]) == SegmentIndices(cmds)[..|SegmentIndices(cmds[..n])|]
    requires forall j :: 0 <= j < |data| ==>
      && SegmentIndices(cmds)[j] < |cmds| && ParseSegment(SegmentIndices(cmds)[j], cmds[SegmentIndices(cmds)[j]]).Some?
      && SegmentContents(out, ParseSegment(SegmentIndices(cmds)[j], cmds[SegmentIndices(cmds)[j]]).value) == Ok(data[j])
    ensures CollectSegments(out, cmds[..n]) == Ok((data[..|SegmentIndices(cmds[..n])|], SegmentIndices(cmds[..n])))
    decreases n
  {
    hide ParseSegment, SegmentContents;
    if n > 0 {
      var k: nat := n - 1;
      assert cmds[..n][..k] == cmds[..k];
      var done := |SegmentIndices(cmds[..k])|;
      IndicesStep(cmds, k);
      assert SegmentIndices(cmds[..k]) == SegmentIndices(cmds)[..done];
      SegmentsReread(cmds, data, out, k);
      if ParseSegment(k, cmds[k]).Some? {
        assert SegmentIndices(cmds)[done] == SegmentIndices(cmds[..n])[done] == k;
        assert data[..done + 1] == data[..done] + [data[done]];
      }
    }
  }

  lemma IndicesStep(cmds: seq<LoadCommand>, k: nat)
    requires k < |cmds|
    ensures SegmentIndices(cmds[..k + 1]) == SegmentIndices(cmds[..k]) + if ParseSegment(k, cmds[k]).Some? then [k] else []
  {
    hide ParseSegment;
    assert cmds[..k + 1][..k] == cmds[..k];
  }

  lemma AllSegmentsReread(f: File, out: seq<byte>)
    requires SegmentsValid(f) && |out| < U64
    requires RestoresAll(SegmentPatches(f.commands, f.segmentData, f.segmentIndices), out)
    ensures CollectSegments(out, f.commands) == Ok((f.segmentData, f.segmentIndices))
  {
    hide ParseSegment, SegmentContents, SegmentPatches, SegmentPatch, CollectSegments, SegmentIndices, RestoresAll;
    var cmds, data, indices := f.commands, f.segmentData, f.segmentIndices;
    forall j | 0 <= j < |data|
      ensures indices[j] < |cmds| && ParseSegment(indices[j], cmds[indices[j]]).Some?
      ensures SegmentContents(out, ParseSegment(indices[j], cmds[indices[j]]).value) == Ok(data[j])
    {
      assert DataFits(cmds, indices[j], data[j]);
      SegmentPatchRestored(cmds, data, indices, out, j);
      SegmentReread(cmds, indices[j], data[j], out);
    }
    assert cmds[..|cmds|] == cmds && indices[..|indices|] == indices && data[..|indices|] == data;
    SegmentsReread(cmds, data, out, |cmds|);
  }

  lemma PaddingReread(f: File, out: seq<byte>)
    requires Shaped(f) && |out| == f.size && RestoresAll(f.padding, out)
    ensures var gaps := Gaps(SortByStart(AllRegions(f)), 0, f.size);
      InFile(gaps, f.size) && CutAll(out, gaps) == f.padding
  {
    hide Gaps, SortByStart, AllRegions, HeaderValid, CommandsValid, SegmentsValid, Within;
    var gaps := Gaps(SortByStart(AllRegions(f)), 0, f.size);
    PaddingFits(f);
    forall i | 0 <= i < |gaps| ensures CutAll(out, gaps)[i] == f.padding[i] {
      assert Restores(f.padding[i], out);
    }
  }

  lemma BlockParts(f: File, out: seq<byte>)
    requires |f.segmentData| == |f.segmentIndices| && RestoresAll(Blocks(f), out)
    ensures RestoresAll(SegmentPatches(f.commands, f.segmentData, f.segmentIndices), out)
    ensures Restores(Patch(0, HeaderBytes(f.header)), out)
    ensures RestoresAll(CommandPatches(f.commands, HEADER_SIZE), out) && RestoresAll(f.padding, out)
  {
    hide SegmentPatches, CommandPatches, HeaderBytes, RestoresAll;
    var segs, cmds := SegmentPatches(f.commands, f.segmentData, f.segmentIndices), CommandPatches(f.commands, HEADER_SIZE);
    var hp := [Patch(0, HeaderBytes(f.header))];
    RestoresAppend(segs + hp + cmds, f.padding, out);
    RestoresAppend(segs + hp, cmds, out);
    RestoresAppend(segs, hp, out);
    SingleRestores(hp[0], out);
  }

  lemma SingleRestores(p: Patch, out: seq<byte>)
    ensures RestoresAll([p], out) <==> Restores(p, out)
  {
    assert [p][0] == p;
  }

  lemma BodyReread(f: File, out: seq<byte>)
    requires Shaped(f) && |out| == f.size >= HEADER_SIZE && f.header.sizeofcmds < U32
    requires ParseCommands(out, f.header) == Ok(f.commands)
    requires CollectSegments(out, f.commands) == Ok((f.segmentData, f.segmentIndices)) && RestoresAll(f.padding, out)
    ensures ParseBody(out, f.header) == Ok(f)
  {
    hide Shaped, ParseCommands, CollectSegments, RestoresAll, Gaps, SortByStart, FileRegions, CutAll, InFile, Within;
    PaddingReread(f, out);
  }

  lemma CommandTableReread(f: File, out: seq<byte>)
    requires Shaped(f) && |out| == f.size && RestoresAll(CommandPatches(f.commands, HEADER_SIZE), out)
    ensures |out| >= HEADER_SIZE && f.header.sizeofcmds < U32 && ParseCommands(out, f.header) == Ok(f.commands)
  {
    hide RestoresAll, CommandPatches, WalkCommands, SegmentsValid, PaddingFillsGaps, AllRegions, Within;
    RegionsShape(f);
    assert HeaderFields(f.header)[5] in HeaderFields(f.header);
    Pow256Values();
    CommandsReread(f.commands, out, HEADER_SIZE, HEADER_SIZE + f.header.sizeofcmds);
  }

  lemma RestoredParse(f: File, out: seq<byte>)
    requires Shaped(f) && |out| == f.size && |f.segmentData| == |f.segmentIndices| && RestoresAll(Blocks(f), out)
    ensures Parse(out) == Ok(f)
  {
    hide Blocks, RestoresAll, HeaderBytes, SegmentPatches, CommandPatches, ParseCommands, CollectSegments, ParseBody,
      PaddingFillsGaps, ParseHeader, AllRegions, CommandsValid, SegmentsValid, Within;
    BlockParts(f, out);
    HeaderLength(f.header);
    CommandTableReread(f, out);
    HeaderReread(f.header, out);
    AllSegmentsReread(f, out);
    BodyReread(f, out);
  }

  // ===== what a parse returns is consistent =====

  lemma ParsedHeader(bytes: seq<byte>)
    requires ParseHeader(bytes).Ok?
    ensures HeaderValid(ParseHeader(bytes).value)
  {
    hide FromLE, Pow256, FromBE32;
    var fs := HeaderFields(ParseHeader(bytes).value);
    assert Holds(bytes, fs[0]) && Holds(bytes, fs[1]) && Holds(bytes, fs[2]) && Holds(bytes, fs[3]);
    assert Holds(bytes, fs[4]) && Holds(bytes, fs[5]) && Holds(bytes, fs[6]) && Holds(bytes, fs[7]);
    HeldFieldsFit(fs, bytes);
  }

  lemma {:induction false} WalkedCommands(bytes: seq<byte>, cursor: nat, n: nat, end: nat)
    requires end <= |bytes| && WalkCommands(bytes, cursor, n, end).Ok?
    ensures var cmds := WalkCommands(bytes, cursor, n, end).value;
      && |cmds| == n && cursor + TotalSize(cmds) == end && forall c <- cmds :: CommandFits(c)
    decreases n
  {
    hide FromLE;
    Pow256Values();
    if n > 0 {
      var cmds := WalkCommands(bytes, cursor, n, end).value;
      WalkedCommands(bytes, cursor + cmds[0].cmdsize, n - 1, end);
      assert cmds[1..] == WalkCommands(bytes, cursor + cmds[0].cmdsize, n - 1, end).value;
      assert CommandFits(cmds[0]);
      assert forall c <- cmds :: c == cmds[0] || c in cmds[1..];
    }
  }

  lemma {:induction false} CollectedIndices(bytes: seq<byte>, cmds: seq<LoadCommand>)
    requires CollectSegments(bytes, cmds).Ok?
    ensures CollectSegments(bytes, cmds).value.1 == SegmentIndices(cmds)
    decreases |cmds|
  {
    hide ParseSegment, SegmentContents;
    if cmds != [] {
      CollectedIndices(bytes, cmds[..|cmds| - 1]);
    }
  }

  lemma ParsedSegments(bytes: seq<byte>, f: File)
    requires CollectSegments(bytes, f.commands) == Ok((f.segmentData, f.segmentIndices))
    ensures SegmentsValid(f)
  {
    hide ParseSegment, SegmentContents, CollectSegments, SegmentIndices;
    var cmds, data, indices := f.commands, f.segmentData, f.segmentIndices;
    CollectedIndices(bytes, cmds);
    CollectedSegments(bytes, cmds);
    forall j | 0 <= j < |data| ensures DataFits(cmds, indices[j], data[j]) {
      SegmentPatchRestores(bytes, ParseSegment(indices[j], cmds[indices[j]]).value, data[j]);
    }
  }

  lemma ParsedPadding(bytes: seq<byte>, f: File)
    requires ParsedAs(bytes, f)
    ensures PaddingFillsGaps(f)
  {
    hide ParseCommands, CollectSegments, Gaps, SortByStart, FileRegions, ReadHeader;
  }

  lemma ParsedShaped(bytes: seq<byte>)
    requires Parse(bytes).Ok? && |bytes| < U64
    ensures Shaped(Parse(bytes).value)
  {
    hide WalkCommands, CollectSegments, Gaps, SortByStart, FileRegions, CutAll, InFile, Within, PaddingFillsGaps, SegmentsValid,
      HeaderValid, TotalSize, CommandFits, ParseHeader, ReadHeader, NonEmpty;
    var f := Parse(bytes).value;
    ParsedParts(bytes);
    ParsedHeader(bytes);
    WalkedCommands(bytes, HEADER_SIZE, f.header.ncmds, HEADER_SIZE + f.header.sizeofcmds);
    ParsedSegments(bytes, f);
    RegionsInside(bytes, f.header, f.commands);
    ParsedPadding(bytes, f);
  }

  // ===== the theorems =====

  /** Parts of the right shape are read back from what they write exactly when their
      overlapping pieces agree. */
  lemma ReadsBackExactly(f: File)
    requires Shaped(f)
    ensures Writable(f) && (Parse(Written(f)) == Ok(f) <==> AllAgree(Blocks(f)))
  {
    hide Shaped, Parse, Blocks, AllAgree, RestoresAll;
    ShapedWritable(f);
    ShapedSegments(f);
    if AllAgree(Blocks(f)) {
      AgreeingRestored(Zeros(f.size), Blocks(f));
      RestoredParse(f, Written(f));
    }
    if Parse(Written(f)) == Ok(f) {
      ParsedParts(Written(f));
      BlocksRestore(Written(f), f);
      RestoredAgree(Blocks(f), Written(f));
    }
  }

  lemma ShapedSegments(f: File)
    requires Shaped(f)
    ensures |f.segmentData| == |f.segmentIndices|
  {
    hide PaddingFillsGaps, AllRegions;
  }

  lemma ParseOfWrite(f: File)
    requires |f.segmentData| == |f.segmentIndices| && Consistent(f)
    ensures Writable(f) && Parse(Written(f)) == Ok(f)
  {
    hide Shaped, Parse, AllAgree, Writable;
    ReadsBackExactly(f);
  }

  /** What the reader accepts are exactly the images of consistent parts. */
  lemma AcceptedExactly(bytes: seq<byte>)
    requires |bytes| < U64
    ensures Parse(bytes).Ok? <==> exists f :: Consistent(f) && Writable(f) && Written(f) == bytes
  {
    hide Parse, Shaped, AllAgree, Blocks, RestoresAll;
    if Parse(bytes).Ok? {
      var f := Parse(bytes).value;
      ParsedShaped(bytes);
      WriteOfParse(bytes);
      ReadsBackExactly(f);
      assert Consistent(f) && Writable(f) && Written(f) == bytes;
    }
    if f :| Consistent(f) && Writable(f) && Written(f) == bytes {
      ReadsBackExactly(f);
    }
  }
}
