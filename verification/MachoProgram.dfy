/** The Mach-O reader's and writer's loops, each proved to compute its specification. */
module MachoProgram {
  import opened Bytes
  import opened Outcome
  import opened Regions
  import opened MachoCommands
  import opened Macho

  /** `parse_load_commands`: a cursor walks the table, which it must end exactly. */
  method WalkTable(bytes: seq<byte>, h: Header) returns (r: Result<seq<LoadCommand>, Error>)
    requires h.sizeofcmds < U32
    ensures r == ParseCommands(bytes, h)
  {
    hide FromLE;
    var end := HEADER_SIZE + h.sizeofcmds;
    var fits := EnsureLen(bytes, HEADER_SIZE, h.sizeofcmds);
    if fits.Err? {
      return Err(fits.error);
    }
    var cmds: seq<LoadCommand> := [];
    var cursor: nat := HEADER_SIZE;
    ghost var goal := WalkCommands(bytes, HEADER_SIZE, h.ncmds, end);
    PrependNone(goal);
    for i := 0 to h.ncmds
      invariant goal == Prepend(cmds, WalkCommands(bytes, cursor, h.ncmds - i, end))
    {
      if cursor + 8 > end {
        return Err(LoadCmdOverrun(cursor, end));
      }
      var cmd, cmdsize := ReadLE(bytes, cursor, 4), ReadLE(bytes, cursor + 4, 4);
      if cmdsize < 8 {
        return Err(BadLoadCmdSize(cursor, cmdsize));
      }
      var next := cursor + cmdsize;
      if next > end {
        return Err(LoadCmdOverrun(next, end));
      }
      var c := LoadCommand(cmd, cmdsize, bytes[cursor + 8..next]);
      PrependStep(cmds, c, WalkCommands(bytes, next, h.ncmds - i - 1, end));
      cmds := cmds + [c];
      cursor := next;
    }
    if cursor != end {
      return Err(LoadCmdOverrun(cursor, end));
    }
    assert cmds + [] == cmds;
    r := Ok(cmds);
  }

  ghost function Prepend(cmds: seq<LoadCommand>, r: Result<seq<LoadCommand>, Error>): Result<seq<LoadCommand>, Error> {
    if r.Err? then r else Ok(cmds + r.value)
  }

  lemma PrependNone(r: Result<seq<LoadCommand>, Error>)
    ensures Prepend([], r) == r
  {
    if r.Ok? {
      assert [] + r.value == r.value;
    }
  }

  lemma PrependStep(cmds: seq<LoadCommand>, c: LoadCommand, r: Result<seq<LoadCommand>, Error>)
    ensures Prepend(cmds, Prepend([c], r)) == Prepend(cmds + [c], r)
  {
    if r.Ok? {
      assert cmds + ([c] + r.value) == cmds + [c] + r.value;
    }
  }

  lemma CollectStep(bytes: seq<byte>, cmds: seq<LoadCommand>, i: nat)
    requires i < |cmds| && CollectSegments(bytes, cmds[..i]).Ok?
    ensures var (data, indices) := CollectSegments(bytes, cmds[..i]).value;
      match ParseSegment(i, cmds[i])
      case None => CollectSegments(bytes, cmds[..i + 1]) == Ok((data, indices))
      case Some(seg) =>
        if SegmentContents(bytes, seg).Err? then
          CollectSegments(bytes, cmds[..i + 1]) == Err(SegmentContents(bytes, seg).error)
        else
          CollectSegments(bytes, cmds[..i + 1]) == Ok((data + [SegmentContents(bytes, seg).value], indices + [i]))
  {
    hide ParseSegment, SegmentContents;
    assert cmds[..i + 1][..i] == cmds[..i];
    var v := CollectSegments(bytes, cmds[..i]).value;
    assert v == (v.0, v.1);
  }

  lemma {:induction false} CollectErrorSticks(bytes: seq<byte>, cmds: seq<LoadCommand>, i: nat)
    requires i <= |cmds| && CollectSegments(bytes, cmds[..i]).Err?
    ensures CollectSegments(bytes, cmds) == CollectSegments(bytes, cmds[..i])
    decreases |cmds| - i
  {
    hide ParseSegment, SegmentContents;
    if i == |cmds| {
      assert cmds[..i] == cmds;
    } else {
      assert cmds[..i + 1][..i] == cmds[..i];
      CollectErrorSticks(bytes, cmds, i + 1);
    }
  }

  /** `collect_segment_data`. */
  method CollectData(bytes: seq<byte>, cmds: seq<LoadCommand>) returns (r: Result<(seq<seq<byte>>, seq<nat>), Error>)
    ensures r == CollectSegments(bytes, cmds)
  {
    hide ParseSegment, CollectSegments;
    var data: seq<seq<byte>>, indices: seq<nat> := [], [];
    CollectNone(bytes, cmds);
    for i := 0 to |cmds|
      invariant CollectSegments(bytes, cmds[..i]) == Ok((data, indices))
    {
      CollectStep(bytes, cmds, i);
      var seg := ParseSegment(i, cmds[i]);
      if seg.Some? {
        var contents := SegmentContents(bytes, seg.value);
        if contents.Err? {
          CollectErrorSticks(bytes, cmds, i + 1);
          return Err(contents.error);
        }
        data, indices := data + [contents.value], indices + [i];
      }
    }
    assert cmds[..|cmds|] == cmds;
    r := Ok((data, indices));
  }

  lemma CollectNone(bytes: seq<byte>, cmds: seq<LoadCommand>)
    ensures CollectSegments(bytes, cmds[..0]) == Ok(([], []))
  {}

  /** `MachoFile::parse`. */
  method ParseFile(bytes: seq<byte>) returns (r: Result<File, Error>)
    ensures r == Parse(bytes)
  {
    hide CollectSegments, CutAll, Gaps, SortByStart, FileRegions, WalkCommands, Within, NonEmpty, InFile;
    var header := ParseHeader(bytes);
    if header.Err? {
      return Err(header.error);
    }
    Pow256Values();
    var h := header.value;
    var cmds := WalkTable(bytes, h);
    if cmds.Err? {
      return Err(cmds.error);
    }
    var segs := CollectData(bytes, cmds.value);
    if segs.Err? {
      return Err(segs.error);
    }
    SortedInside(bytes, h, cmds.value);
    var regions := SortByStart(FileRegions(h, cmds.value));
    Ordered(regions);
    var padding := ComputePadding(bytes, regions);
    r := Ok(File(h, cmds.value, segs.value.0, segs.value.1, padding, |bytes|));
  }

  lemma Ordered(rs: seq<Region>)
    requires NonEmpty(rs)
    ensures forall r <- rs :: r.start <= r.end
  {}

  // ===== the writer =====

  /** One load command at `cursor`: its prefix rebuilt, its body verbatim. */
  method WriteCommand(c: LoadCommand, out: array<byte>, cursor: nat, ghost s: seq<byte>, ghost done: seq<Patch>)
    requires |s| == out.Length && Fit(done, |s|) && Fit(CommandPatch(c, cursor), |s|) && out[..] == PutAll(s, done)
    modifies out
    ensures Fit(done + CommandPatch(c, cursor), |s|) && out[..] == PutAll(s, done + CommandPatch(c, cursor))
  {
    WritePatches(CommandPatch(c, cursor), out, s, done);
  }

  lemma {:induction false} CommandPatchesAt(cmds: seq<LoadCommand>, cursor: nat, i: nat)
    requires i < |cmds|
    ensures CommandPatches(cmds[..i + 1], cursor)
      == CommandPatches(cmds[..i], cursor) + CommandPatch(cmds[i], cursor + TotalSize(cmds[..i]))
    ensures TotalSize(cmds[..i + 1]) == TotalSize(cmds[..i]) + cmds[i].cmdsize
    decreases i
  {
    hide CommandPatch;
    var all := cmds[..i + 1];
    if i == 0 {
      assert all[1..] == [] && cmds[..0] == [];
    } else {
      CommandPatchesAt(cmds[1..], cursor + cmds[0].cmdsize, i - 1);
      assert all[1..] == cmds[1..][..i] && cmds[..i][1..] == cmds[1..][..i - 1];
    }
  }

  lemma {:induction false} CommandPatchesPrefix(cmds: seq<LoadCommand>, cursor: nat, i: nat)
    requires i <= |cmds|
    ensures CommandPatches(cmds[..i], cursor) <= CommandPatches(cmds, cursor)
    decreases |cmds| - i
  {
    if i == |cmds| {
      assert cmds[..i] == cmds;
    } else {
      CommandPatchesAt(cmds, cursor, i);
      CommandPatchesPrefix(cmds, cursor, i + 1);
    }
  }

  lemma FitPrefix(ps: seq<Patch>, qs: seq<Patch>, n: nat)
    requires ps <= qs && Fit(qs, n)
    ensures Fit(ps, n)
  {
    forall k | 0 <= k < |ps| ensures ps[k].End() <= n { assert qs[k] == ps[k]; }
  }

  /** The load-command loop of `write_to_vec`. */
  method WriteCommands(cmds: seq<LoadCommand>, out: array<byte>, ghost s: seq<byte>, ghost done: seq<Patch>)
    requires |s| == out.Length && Fit(done, |s|) && Fit(CommandPatches(cmds, HEADER_SIZE), |s|)
    requires out[..] == PutAll(s, done)
    modifies out
    ensures Fit(done + CommandPatches(cmds, HEADER_SIZE), |s|)
    ensures out[..] == PutAll(s, done + CommandPatches(cmds, HEADER_SIZE))
  {
    hide PutAll, Fit, CommandPatch, CommandPatches;
    var cursor := HEADER_SIZE;
    NoCommands(cmds);
    assert done + [] == done;
    for i := 0 to |cmds|
      invariant cursor == HEADER_SIZE + TotalSize(cmds[..i])
      invariant Fit(done + CommandPatches(cmds[..i], HEADER_SIZE), |s|)
      invariant out[..] == PutAll(s, done + CommandPatches(cmds[..i], HEADER_SIZE))
    {
      ghost var sofar, one := CommandPatches(cmds[..i], HEADER_SIZE), CommandPatch(cmds[i], cursor);
      CommandPatchesAt(cmds, HEADER_SIZE, i);
      CommandPatchesPrefix(cmds, HEADER_SIZE, i + 1);
      FitPrefix(sofar + one, CommandPatches(cmds, HEADER_SIZE), |s|);
      FitAppend(sofar, one, |s|);
      WriteCommand(cmds[i], out, cursor, s, done + sofar);
      assert done + sofar + one == done + (sofar + one);
      cursor := cursor + cmds[i].cmdsize;
    }
    assert cmds[..|cmds|] == cmds;
  }

  lemma NoCommands(cmds: seq<LoadCommand>)
    ensures CommandPatches(cmds[..0], HEADER_SIZE) == [] && TotalSize(cmds[..0]) == 0
  {}

  lemma SegmentPatchesAt(cmds: seq<LoadCommand>, data: seq<seq<byte>>, indices: seq<nat>, i: nat)
    requires i < |data| == |indices|
    ensures SegmentPatches(cmds, data[..i + 1], indices[..i + 1])
      == SegmentPatches(cmds, data[..i], indices[..i]) + SegmentPatch(cmds, indices[i], data[i])
  {
    hide SegmentPatch;
    assert data[..i + 1][..i] == data[..i] && indices[..i + 1][..i] == indices[..i];
  }

  lemma {:induction false} SegmentPatchesPrefix(cmds: seq<LoadCommand>, data: seq<seq<byte>>, indices: seq<nat>, i: nat)
    requires i <= |data| == |indices|
    ensures SegmentPatches(cmds, data[..i], indices[..i]) <= SegmentPatches(cmds, data, indices)
    decreases |data| - i
  {
    hide SegmentPatch;
    if i == |data| {
      assert data[..i] == data && indices[..i] == indices;
    } else {
      SegmentPatchesAt(cmds, data, indices, i);
      SegmentPatchesPrefix(cmds, data, indices, i + 1);
    }
  }

  lemma NoSegments(cmds: seq<LoadCommand>, data: seq<seq<byte>>, indices: seq<nat>)
    requires |data| == |indices|
    ensures SegmentPatches(cmds, data[..0], indices[..0]) == []
  {}

  /** The segment loop of `write_to_vec`. */
  method WriteSegments(f: File, out: array<byte>, ghost s: seq<byte>)
    requires |f.segmentData| == |f.segmentIndices| && |s| == out.Length && out[..] == s
    requires Fit(SegmentPatches(f.commands, f.segmentData, f.segmentIndices), |s|)
    modifies out
    ensures out[..] == PutAll(s, SegmentPatches(f.commands, f.segmentData, f.segmentIndices))
  {
    hide PutAll, Fit, SegmentPatches, SegmentPatch;
    NoSegments(f.commands, f.segmentData, f.segmentIndices);
    PutAllNone(s);
    ghost var all := SegmentPatches(f.commands, f.segmentData, f.segmentIndices);
    for i := 0 to |f.segmentData|
      invariant Fit(SegmentPatches(f.commands, f.segmentData[..i], f.segmentIndices[..i]), |s|)
      invariant out[..] == PutAll(s, SegmentPatches(f.commands, f.segmentData[..i], f.segmentIndices[..i]))
    {
      ghost var sofar := SegmentPatches(f.commands, f.segmentData[..i], f.segmentIndices[..i]);
      var one := SegmentPatch(f.commands, f.segmentIndices[i], f.segmentData[i]);
      SegmentPatchesAt(f.commands, f.segmentData, f.segmentIndices, i);
      SegmentPatchesPrefix(f.commands, f.segmentData, f.segmentIndices, i + 1);
      FitPrefix(sofar + one, all, |s|);
      FitAppend(sofar, one, |s|);
      WritePatches(one, out, s, sofar);
    }
    assert f.segmentData[..|f.segmentData|] == f.segmentData;
    assert f.segmentIndices[..|f.segmentData|] == f.segmentIndices;
  }

  lemma HeaderLayout(h: Header)
    ensures Contiguous(HeaderFields(h), 0, HEADER_SIZE) && |HeaderBytes(h)| == HEADER_SIZE
  {
    LayoutOf(HeaderFields(h), 0, 32);
  }

  /** `MachoFile::write_to_vec`. */
  method WriteToVec(f: File) returns (out: array<byte>)
    requires Writable(f)
    ensures fresh(out) && out[..] == Written(f)
  {
    hide PutAll, Fit, SegmentPatches, CommandPatches, HeaderFields, Put, HeaderBytes;
    out := new byte[f.size](_ => 0);
    ghost var s := Zeros(f.size);
    assert out[..] == s;
    ghost var segs := SegmentPatches(f.commands, f.segmentData, f.segmentIndices);
    ghost var hp, cmds := [Patch(0, HeaderBytes(f.header))], CommandPatches(f.commands, HEADER_SIZE);
    FitAppend(segs + hp + cmds, f.padding, f.size);
    FitAppend(segs + hp, cmds, f.size);
    FitAppend(segs, hp, f.size);
    FitOne(hp[0], f.size);
    HeaderLayout(f.header);
    WriteSegments(f, out, s);
    PutAllStep(s, segs, hp[0]);
    WriteHeader(f.header, out);
    WriteCommands(f.commands, out, s, segs + hp);
    WritePatches(f.padding, out, s, segs + hp + cmds);
  }

  lemma FitOne(p: Patch, n: nat)
    ensures Fit([p], n) <==> p.End() <= n
  {
    assert [p][0] == p;
  }

  method WriteHeader(h: Header, out: array<byte>)
    requires HEADER_SIZE <= out.Length
    modifies out
    ensures |HeaderBytes(h)| == HEADER_SIZE && out[..] == Put(old(out[..]), Patch(0, HeaderBytes(h)))
  {
    HeaderLayout(h);
    WriteFields(out, 0, HeaderFields(h), 0, HEADER_SIZE);
  }

  /** Reading a file and writing it again, as the program does it, changes nothing. */
  method RoundTrip(bytes: seq<byte>) returns (out: array<byte>, accepted: bool)
    ensures accepted <==> Parse(bytes).Ok?
    ensures accepted ==> out[..] == bytes
  {
    hide Parse, Written, Writable;
    var r := ParseFile(bytes);
    accepted := r.Ok?;
    if accepted {
      WriteOfParse(bytes);
      out := WriteToVec(r.value);
    } else {
      out := new byte[0];
    }
  }
}
