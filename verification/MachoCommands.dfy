/** Load commands of a 64-bit little-endian Mach-O file: the segment descriptor with
    its sections, and the structured bodies that have a variable-length part. */
module MachoCommands {
  import opened Bytes
  import opened Outcome

  const LC_SEGMENT_64: nat := 0x19

  datatype LoadCommand = LoadCommand(cmd: nat, cmdsize: nat, body: seq<byte>)

  // ===== LC_SEGMENT_64 =====

  datatype Section64 = Section64(sectname: seq<byte>, segname: seq<byte>, addr: nat, size: nat,
                                 offset: nat, align: nat, reloff: nat, nreloc: nat, flags: nat,
                                 reserved1: nat, reserved2: nat, reserved3: nat)

  datatype Segment64 = Segment64(cmdIndex: nat, segname: seq<byte>, vmaddr: nat, vmsize: nat,
                                 fileoff: nat, filesize: nat, maxprot: nat, initprot: nat,
                                 nsects: nat, flags: nat, sections: seq<Section64>)

  function ReadSection(s: seq<byte>): Section64
    requires |s| == 80
  {
    Section64(s[0..16], s[16..32], ReadLE(s, 32, 8), ReadLE(s, 40, 8), ReadLE(s, 48, 4),
              ReadLE(s, 52, 4), ReadLE(s, 56, 4), ReadLE(s, 60, 4), ReadLE(s, 64, 4),
              ReadLE(s, 68, 4), ReadLE(s, 72, 4), ReadLE(s, 76, 4))
  }

  function ReadSections(body: seq<byte>, n: nat): (r: seq<Section64>)
    requires 64 + 80 * n <= |body|
    ensures |r| == n
  {
    if n == 0 then []
    else ReadSections(body, n - 1) + [ReadSection(body[64 + 80 * (n - 1)..64 + 80 * n])]
  }

  /** `Segment64::parse`: `None` for another command or a body too short for its sections. */
  function ParseSegment(index: nat, cmd: LoadCommand): Option<Segment64> {
    var b := cmd.body;
    if cmd.cmd != LC_SEGMENT_64 || |b| < 64 || |b| < 64 + 80 * ReadLE(b, 56, 4) then None
    else
      Some(Segment64(index, b[0..16], ReadLE(b, 16, 8), ReadLE(b, 24, 8), ReadLE(b, 32, 8),
                     ReadLE(b, 40, 8), ReadLE(b, 48, 4), ReadLE(b, 52, 4), ReadLE(b, 56, 4),
                     ReadLE(b, 60, 4), ReadSections(b, ReadLE(b, 56, 4))))
  }

  function SectionFields(s: Section64): seq<Field> {
    [Field(32, 8, s.addr), Field(40, 8, s.size), Field(48, 4, s.offset), Field(52, 4, s.align),
     Field(56, 4, s.reloff), Field(60, 4, s.nreloc), Field(64, 4, s.flags),
     Field(68, 4, s.reserved1), Field(72, 4, s.reserved2), Field(76, 4, s.reserved3)]
  }

  function SegmentFields(s: Segment64): seq<Field> {
    [Field(16, 8, s.vmaddr), Field(24, 8, s.vmsize), Field(32, 8, s.fileoff), Field(40, 8, s.filesize),
     Field(48, 4, s.maxprot), Field(52, 4, s.initprot), Field(56, 4, s.nsects), Field(60, 4, s.flags)]
  }

  function SectionBytes(s: Section64): seq<byte> { s.sectname + s.segname + FieldBytes(SectionFields(s)) }

  function SectionsBytes(ss: seq<Section64>): seq<byte>
    decreases |ss|
  {
    if ss == [] then [] else SectionsBytes(ss[..|ss| - 1]) + SectionBytes(ss[|ss| - 1])
  }

  /** `Segment64::write_to_body`. */
  function SegmentBody(s: Segment64): seq<byte> {
    s.segname + FieldBytes(SegmentFields(s)) + SectionsBytes(s.sections)
  }

  lemma LayoutOf(fs: seq<Field>, from: nat, to: nat)
    requires fs != [] && fs[0].at == from && fs[|fs| - 1].at + fs[|fs| - 1].width == to
    requires forall i :: 0 < i < |fs| ==> fs[i].at == fs[i - 1].at + fs[i - 1].width
    ensures Contiguous(fs, from, to) && from <= to && |FieldBytes(fs)| == to - from
  {
    ContiguousSteps(fs, from, to);
    FieldBytesLength(fs, from, to);
  }

  lemma SectionHolds(s: seq<byte>)
    requires |s| == 80
    ensures forall i :: 0 <= i < |SectionFields(ReadSection(s))| ==> Holds(s, SectionFields(ReadSection(s))[i])
  {
    var fs := SectionFields(ReadSection(s));
    assert Holds(s, fs[0]) && Holds(s, fs[1]) && Holds(s, fs[2]) && Holds(s, fs[3]) && Holds(s, fs[4]);
    assert Holds(s, fs[5]) && Holds(s, fs[6]) && Holds(s, fs[7]) && Holds(s, fs[8]) && Holds(s, fs[9]);
  }

  lemma SectionWriteOfRead(s: seq<byte>)
    requires |s| == 80
    ensures SectionBytes(ReadSection(s)) == s
  {
    var fs := SectionFields(ReadSection(s));
    LayoutOf(fs, 32, 80);
    SectionHolds(s);
    FieldsRestore(fs, s, 32, 80);
    assert s == s[0..16] + s[16..32] + s[32..80];
  }

  predicate SectionFits(s: Section64) { |s.sectname| == 16 && |s.segname| == 16 && FieldsFit(SectionFields(s)) }

  lemma SectionReadOfWrite(x: Section64)
    requires SectionFits(x)
    ensures |SectionBytes(x)| == 80 && ReadSection(SectionBytes(x)) == x
  {
    var fs, s := SectionFields(x), SectionBytes(x);
    LayoutOf(fs, 32, 80);
    assert s[0..16] == x.sectname && s[16..32] == x.segname && s[32..80] == FieldBytes(fs);
    FieldReadsBack(fs, s, 32, 80);
    assert Holds(s, fs[0]) && Holds(s, fs[1]) && Holds(s, fs[2]) && Holds(s, fs[3]) && Holds(s, fs[4]);
    assert Holds(s, fs[5]) && Holds(s, fs[6]) && Holds(s, fs[7]) && Holds(s, fs[8]) && Holds(s, fs[9]);
  }

  lemma {:induction false} SectionsRestore(body: seq<byte>, n: nat)
    requires 64 + 80 * n <= |body|
    ensures SectionsBytes(ReadSections(body, n)) == body[64..64 + 80 * n]
  {
    hide ReadSection, SectionBytes;
    if n > 0 {
      SectionsRestore(body, n - 1);
      SectionWriteOfRead(body[64 + 80 * (n - 1)..64 + 80 * n]);
      var ss := ReadSections(body, n);
      assert ss[..n - 1] == ReadSections(body, n - 1);
      assert body[64..64 + 80 * n] == body[64..64 + 80 * (n - 1)] + body[64 + 80 * (n - 1)..64 + 80 * n];
    }
  }

  lemma {:induction false} SectionsLength(ss: seq<Section64>)
    requires forall s <- ss :: SectionFits(s)
    ensures |SectionsBytes(ss)| == 80 * |ss|
    decreases |ss|
  {
    hide SectionFits, SectionBytes;
    if ss != [] {
      SectionsLength(ss[..|ss| - 1]);
      assert ss[|ss| - 1] in ss;
      SectionReadOfWrite(ss[|ss| - 1]);
    }
  }

  lemma {:induction false} SectionsReread(body: seq<byte>, ss: seq<Section64>)
    requires forall s <- ss :: SectionFits(s)
    requires 64 + 80 * |ss| <= |body| && body[64..64 + 80 * |ss|] == SectionsBytes(ss)
    ensures ReadSections(body, |ss|) == ss
    decreases |ss|
  {
    hide SectionFits, ReadSection, SectionBytes;
    if ss != [] {
      var n := |ss|;
      var front, last := ss[..n - 1], ss[n - 1];
      SectionsLength(front);
      assert last in ss;
      SectionReadOfWrite(last);
      assert body[64..64 + 80 * (n - 1)] == body[64..64 + 80 * n][..80 * (n - 1)] == SectionsBytes(front);
      assert body[64 + 80 * (n - 1)..64 + 80 * n] == body[64..64 + 80 * n][80 * (n - 1)..] == SectionBytes(last);
      SectionsReread(body, front);
    }
  }

  lemma SegmentHolds(index: nat, cmd: LoadCommand)
    requires ParseSegment(index, cmd).Some?
    ensures var fs := SegmentFields(ParseSegment(index, cmd).value);
      forall i :: 0 <= i < |fs| ==> Holds(cmd.body, fs[i])
  {
    hide ReadSections;
    var b, fs := cmd.body, SegmentFields(ParseSegment(index, cmd).value);
    assert Holds(b, fs[0]) && Holds(b, fs[1]) && Holds(b, fs[2]) && Holds(b, fs[3]);
    assert Holds(b, fs[4]) && Holds(b, fs[5]) && Holds(b, fs[6]) && Holds(b, fs[7]);
  }

  /** Writing a parsed segment gives back its descriptor and its sections. */
  lemma SegmentWriteOfRead(index: nat, cmd: LoadCommand)
    requires ParseSegment(index, cmd).Some?
    ensures var s := ParseSegment(index, cmd).value;
      64 + 80 * s.nsects <= |cmd.body| && SegmentBody(s) == cmd.body[..64 + 80 * s.nsects]
  {
    hide ReadSections;
    var b, s := cmd.body, ParseSegment(index, cmd).value;
    var fs := SegmentFields(s);
    LayoutOf(fs, 16, 64);
    SegmentHolds(index, cmd);
    FieldsRestore(fs, b, 16, 64);
    SectionsRestore(b, s.nsects);
    assert b[..64 + 80 * s.nsects] == b[0..16] + b[16..64] + b[64..64 + 80 * s.nsects];
  }

  predicate SegmentFits(s: Segment64) {
    && |s.segname| == 16 && FieldsFit(SegmentFields(s)) && |s.sections| == s.nsects
    && forall x <- s.sections :: SectionFits(x)
  }

  /** A well-formed segment is read back from its body, whatever follows the body. */
  lemma SegmentReadOfWrite(s: Segment64, tail: seq<byte>)
    requires SegmentFits(s)
    ensures ParseSegment(s.cmdIndex, LoadCommand(LC_SEGMENT_64, 8 + |SegmentBody(s) + tail|, SegmentBody(s) + tail)) == Some(s)
  {
    hide SectionFits, ReadSections, SectionsBytes;
    var fs, b := SegmentFields(s), SegmentBody(s) + tail;
    LayoutOf(fs, 16, 64);
    SectionsLength(s.sections);
    assert b[0..16] == s.segname && b[16..64] == FieldBytes(fs);
    assert b[64..64 + 80 * |s.sections|] == SectionsBytes(s.sections);
    FieldReadsBack(fs, b, 16, 64);
    assert Holds(b, fs[0]) && Holds(b, fs[1]) && Holds(b, fs[2]) && Holds(b, fs[3]);
    assert Holds(b, fs[4]) && Holds(b, fs[5]) && Holds(b, fs[6]) && Holds(b, fs[7]);
    SectionsReread(b, s.sections);
  }

  // ===== bodies that end in a NUL-padded name =====

  /** The bytes up to the first NUL, or all of them. */
  function NameLength(s: seq<byte>): (n: nat)
    ensures n <= |s| && 0 !in s[..n] && (n < |s| ==> s[n] == 0)
  {
    if s == [] || s[0] == 0 then 0
    else
      var n := NameLength(s[1..]);
      assert s[..1 + n] == [s[0]] + s[1..][..n];
      1 + n
  }

  lemma {:induction false} NameLengthUnique(name: seq<byte>, pad: seq<byte>)
    requires 0 !in name && (pad != [] ==> pad[0] == 0)
    ensures NameLength(name + pad) == |name|
    decreases |name|
  {
    if name == [] {
      assert name + pad == pad;
    } else {
      assert name[0] in name;
      assert (name + pad)[1..] == name[1..] + pad;
      NameLengthUnique(name[1..], pad);
    }
  }

  /** Decoding either rejects the body, yields a value, or stops on a slice whose
      start lies after its end. */
  datatype Decoded<+T> = Panics | Rejected | Decoded(value: T)

  datatype Dylinker = Dylinker(offset: nat, name: seq<byte>, pad: seq<byte>)

  predicate AllZero(s: seq<byte>) { forall i :: 0 <= i < |s| ==> s[i] == 0 }

  function DecodeDylinker(body: seq<byte>): Decoded<Dylinker> {
    if |body| < 4 then Rejected
    else
      var offset := ReadLE(body, 0, 4);
      if offset < 8 || offset - 8 > |body| then Rejected
      else
        var at := offset - 8;
        var tail := body[at..];
        var nul := NameLength(tail);
        if at < 4 then Panics
        else if !AllZero(body[4..at]) then Rejected
        else Decoded(Dylinker(offset, tail[..nul], tail[nul..]))
  }

  function NameStart(offset: nat): nat { if offset < 8 then 0 else offset - 8 }

  /** A zeroed body with a fixed head at 0, a name at `at` and padding behind it,
      written in that order. */
  function NamedBody(head: seq<byte>, at: nat, name: seq<byte>, pad: seq<byte>): seq<byte>
    requires |head| <= at + |name| + |pad|
  {
    var s := Put(Zeros(at + |name| + |pad|), Patch(0, head));
    Put(Put(s, Patch(at, name)), Patch(at + |name|, pad))
  }

  lemma NamedBodyParts(head: seq<byte>, at: nat, name: seq<byte>, pad: seq<byte>)
    requires |head| <= at
    ensures NamedBody(head, at, name, pad) == head + Zeros(at - |head|) + (name + pad)
  {
    var s := NamedBody(head, at, name, pad);
    var t := head + Zeros(at - |head|) + (name + pad);
    assert |s| == |t|;
    forall i | 0 <= i < |s| ensures s[i] == t[i] {}
  }

  /** A decoded body is its head, zeros, and the tail. */
  lemma BodyParts(body: seq<byte>, head: nat, at: nat)
    requires head <= at <= |body| && AllZero(body[head..at])
    ensures body == body[0..head] + Zeros(at - head) + body[at..]
  {
    assert body[head..at] == Zeros(at - head);
    assert body == body[0..head] + body[head..at] + body[at..];
  }

  function EncodeDylinker(x: Dylinker): seq<byte>
    requires NameStart(x.offset) + |x.name| + |x.pad| >= 4
  {
    NamedBody(LE(x.offset, 4), NameStart(x.offset), x.name, x.pad)
  }

  /** The decoder stops on exactly the bodies whose name would start inside the
      offset word itself. */
  lemma DylinkerPanics(body: seq<byte>)
    ensures DecodeDylinker(body).Panics? <==> |body| >= 4 && 8 <= ReadLE(body, 0, 4) < 12
  {}

  lemma DylinkerEncodeOfDecode(body: seq<byte>)
    requires DecodeDylinker(body).Decoded?
    ensures NameStart(DecodeDylinker(body).value.offset) >= 4
    ensures EncodeDylinker(DecodeDylinker(body).value) == body
  {
    hide NamedBody;
    var x := DecodeDylinker(body).value;
    var at := NameStart(x.offset);
    WriteOfRead(body[0..4]);
    BodyParts(body, 4, at);
    NamedBodyParts(LE(x.offset, 4), at, x.name, x.pad);
    assert body[at..] == x.name + x.pad;
  }

  /** The layouts the encoder is meant for: a name without NUL behind the fixed part. */
  predicate DylinkerFits(x: Dylinker) {
    12 <= x.offset < U32 && 0 !in x.name && (x.pad != [] ==> x.pad[0] == 0)
  }

  lemma DylinkerDecodeOfEncode(x: Dylinker)
    requires DylinkerFits(x)
    ensures DecodeDylinker(EncodeDylinker(x)) == Decoded(x)
  {
    hide NamedBody;
    var at, s := NameStart(x.offset), EncodeDylinker(x);
    NamedBodyParts(LE(x.offset, 4), at, x.name, x.pad);
    assert s[0..4] == LE(x.offset, 4);
    ReadOfWrite(x.offset, 4);
    Pow256Values();
    FitsModulo(x.offset, U32);
    assert s[4..at] == Zeros(at - 4);
    assert s[at..] == x.name + x.pad;
    NameLengthUnique(x.name, x.pad);
    assert (x.name + x.pad)[..|x.name|] == x.name && (x.name + x.pad)[|x.name|..] == x.pad;
  }

  datatype Dylib = Dylib(offset: nat, timestamp: nat, current: nat, compat: nat,
                         name: seq<byte>, pad: seq<byte>)

  function DylibFields(x: Dylib): seq<Field> {
    [Field(0, 4, x.offset), Field(4, 4, x.timestamp), Field(8, 4, x.current), Field(12, 4, x.compat)]
  }

  function DecodeDylib(body: seq<byte>): Option<Dylib> {
    if |body| < 16 then None
    else
      var offset := ReadLE(body, 0, 4);
      if offset < 8 || offset - 8 > |body| || offset - 8 < 16 then None
      else
        var at := offset - 8;
        if !AllZero(body[16..at]) then None
        else
          var tail := body[at..];
          var nul := NameLength(tail);
          Some(Dylib(offset, ReadLE(body, 4, 4), ReadLE(body, 8, 4), ReadLE(body, 12, 4),
                     tail[..nul], tail[nul..]))
  }

  function EncodeDylib(x: Dylib): seq<byte>
    requires NameStart(x.offset) + |x.name| + |x.pad| >= 16
  {
    DylibLayout(x);
    NamedBody(FieldBytes(DylibFields(x)), NameStart(x.offset), x.name, x.pad)
  }

  lemma DylibLayout(x: Dylib)
    ensures Contiguous(DylibFields(x), 0, 16) && |FieldBytes(DylibFields(x))| == 16
  {
    LayoutOf(DylibFields(x), 0, 16);
  }

  lemma DylibEncodeOfDecode(body: seq<byte>)
    requires DecodeDylib(body).Some?
    ensures NameStart(DecodeDylib(body).value.offset) >= 16
    ensures EncodeDylib(DecodeDylib(body).value) == body
  {
    hide NamedBody, FieldBytes;
    var x := DecodeDylib(body).value;
    var at, fs := NameStart(x.offset), DylibFields(x);
    DylibLayout(x);
    assert Holds(body, fs[0]) && Holds(body, fs[1]) && Holds(body, fs[2]) && Holds(body, fs[3]);
    FieldsRestore(fs, body, 0, 16);
    BodyParts(body, 16, at);
    NamedBodyParts(FieldBytes(fs), at, x.name, x.pad);
    assert body[at..] == x.name + x.pad;
  }

  predicate DylibFits(x: Dylib) {
    && 24 <= x.offset && FieldsFit(DylibFields(x))
    && 0 !in x.name && (x.pad != [] ==> x.pad[0] == 0)
  }

  lemma DylibDecodeOfEncode(x: Dylib)
    requires DylibFits(x)
    ensures DecodeDylib(EncodeDylib(x)) == Some(x)
  {
    hide NamedBody, FieldBytes;
    var at, fs, s := NameStart(x.offset), DylibFields(x), EncodeDylib(x);
    DylibLayout(x);
    NamedBodyParts(FieldBytes(fs), at, x.name, x.pad);
    assert s[0..16] == FieldBytes(fs);
    FieldReadsBack(fs, s, 0, 16);
    assert Holds(s, fs[0]) && Holds(s, fs[1]) && Holds(s, fs[2]) && Holds(s, fs[3]);
    assert s[16..at] == Zeros(at - 16);
    assert s[at..] == x.name + x.pad;
    NameLengthUnique(x.name, x.pad);
    assert (x.name + x.pad)[..|x.name|] == x.name && (x.name + x.pad)[|x.name|..] == x.pad;
  }

  // ===== LC_BUILD_VERSION =====

  datatype Tool = Tool(tool: nat, version: nat)

  datatype BuildVersion = BuildVersion(platform: nat, minos: nat, sdk: nat, tools: seq<Tool>)

  function ReadTools(body: seq<byte>, n: nat): (r: seq<Tool>)
    requires 16 + 8 * n <= |body|
    ensures |r| == n
  {
    if n == 0 then []
    else ReadTools(body, n - 1) + [Tool(ReadLE(body, 16 + 8 * (n - 1), 4), ReadLE(body, 16 + 8 * (n - 1) + 4, 4))]
  }

  function DecodeBuildVersion(body: seq<byte>): Option<BuildVersion> {
    if |body| < 16 || |body| != 16 + 8 * ReadLE(body, 12, 4) then None
    else Some(BuildVersion(ReadLE(body, 0, 4), ReadLE(body, 4, 4), ReadLE(body, 8, 4),
                           ReadTools(body, ReadLE(body, 12, 4))))
  }

  function ToolsBytes(ts: seq<Tool>): (r: seq<byte>)
    ensures |r| == 8 * |ts|
    decreases |ts|
  {
    if ts == [] then []
    else ToolsBytes(ts[..|ts| - 1]) + LE(ts[|ts| - 1].tool, 4) + LE(ts[|ts| - 1].version, 4)
  }

  /** The tool count is recovered from the list. */
  function EncodeBuildVersion(x: BuildVersion): seq<byte> {
    LE(x.platform, 4) + LE(x.minos, 4) + LE(x.sdk, 4) + LE(|x.tools|, 4) + ToolsBytes(x.tools)
  }

  /** The last of `n` tools, as read and as written. */
  lemma LastTool(body: seq<byte>, n: nat)
    requires n > 0 && 16 + 8 * n <= |body|
    ensures var at := 16 + 8 * (n - 1);
      ToolsBytes(ReadTools(body, n)) == ToolsBytes(ReadTools(body, n - 1)) + body[at..at + 4] + body[at + 4..at + 8]
  {
    hide LE, FromLE;
    var at := 16 + 8 * (n - 1);
    WriteOfRead(body[at..at + 4]);
    WriteOfRead(body[at + 4..at + 8]);
    assert ReadTools(body, n)[..n - 1] == ReadTools(body, n - 1);
  }

  lemma {:induction false} ToolsRestore(body: seq<byte>, n: nat)
    requires 16 + 8 * n <= |body|
    ensures ToolsBytes(ReadTools(body, n)) == body[16..16 + 8 * n]
  {
    hide ToolsBytes, ReadTools;
    if n == 0 {
      assert ToolsBytes(ReadTools(body, 0)) == [] by { NoTools(body); }
    } else {
      var at := 16 + 8 * (n - 1);
      ToolsRestore(body, n - 1);
      LastTool(body, n);
      assert body[16..16 + 8 * n] == body[16..at] + body[at..at + 4] + body[at + 4..at + 8];
    }
  }

  lemma NoTools(body: seq<byte>)
    requires 16 <= |body|
    ensures ToolsBytes(ReadTools(body, 0)) == []
  {}

  lemma BuildVersionEncodeOfDecode(body: seq<byte>)
    requires DecodeBuildVersion(body).Some?
    ensures EncodeBuildVersion(DecodeBuildVersion(body).value) == body
  {
    hide ReadTools, ToolsBytes;
    var n := ReadLE(body, 12, 4);
    WriteOfRead(body[0..4]);
    WriteOfRead(body[4..8]);
    WriteOfRead(body[8..12]);
    WriteOfRead(body[12..16]);
    ToolsRestore(body, n);
    assert body == body[0..4] + body[4..8] + body[8..12] + body[12..16] + body[16..16 + 8 * n];
  }

  lemma ToolSlices(body: seq<byte>, at: nat, front: seq<byte>, a: seq<byte>, b: seq<byte>)
    requires 16 <= at && at + 8 <= |body| && |front| == at - 16 && |a| == 4 && |b| == 4
    requires body[16..at + 8] == front + a + b
    ensures body[16..at] == front && body[at..at + 4] == a && body[at + 4..at + 8] == b
  {
    var all := body[16..at + 8];
    assert body[16..at] == all[..at - 16];
    var last := all[at - 16..];
    assert last == a + b && last == body[at..at + 8];
    assert body[at..at + 4] == last[..4];
    assert body[at + 4..at + 8] == last[4..];
  }

  lemma WordReads(body: seq<byte>, at: nat, v: nat)
    requires v < U32 && at + 4 <= |body| && body[at..at + 4] == LE(v, 4)
    ensures ReadLE(body, at, 4) == v
  {
    ReadOfWrite(v, 4);
    Pow256Values();
    FitsModulo(v, U32);
  }

  lemma {:induction false} ToolsReread(body: seq<byte>, ts: seq<Tool>)
    requires forall t <- ts :: t.tool < U32 && t.version < U32
    requires 16 + 8 * |ts| <= |body| && body[16..16 + 8 * |ts|] == ToolsBytes(ts)
    ensures ReadTools(body, |ts|) == ts
    decreases |ts|
  {
    hide LE, FromLE, ReadLE;
    if ts != [] {
      var n := |ts|;
      var at, t, front := 16 + 8 * (n - 1), ts[n - 1], ts[..n - 1];
      assert t in ts;
      assert forall x <- front :: x in ts;
      ToolSlices(body, at, ToolsBytes(front), LE(t.tool, 4), LE(t.version, 4));
      WordReads(body, at, t.tool);
      WordReads(body, at + 4, t.version);
      ToolsReread(body, front);
    }
  }

  predicate BuildVersionFits(x: BuildVersion) {
    && x.platform < U32 && x.minos < U32 && x.sdk < U32 && |x.tools| < U32
    && forall t <- x.tools :: t.tool < U32 && t.version < U32
  }

  lemma BuildVersionDecodeOfEncode(x: BuildVersion)
    requires BuildVersionFits(x)
    ensures DecodeBuildVersion(EncodeBuildVersion(x)) == Some(x)
  {
    hide LE, FromLE, ReadTools, ToolsBytes;
    var s := EncodeBuildVersion(x);
    assert s[0..4] == LE(x.platform, 4) && s[4..8] == LE(x.minos, 4);
    assert s[8..12] == LE(x.sdk, 4) && s[12..16] == LE(|x.tools|, 4);
    assert s[16..16 + 8 * |x.tools|] == ToolsBytes(x.tools);
    ReadOfWrite(x.platform, 4);
    ReadOfWrite(x.minos, 4);
    ReadOfWrite(x.sdk, 4);
    ReadOfWrite(|x.tools|, 4);
    Pow256Values();
    ToolsReread(s, x.tools);
  }

  // ===== fixed records of 32-bit words =====

  datatype Symtab = Symtab(symoff: nat, nsyms: nat, stroff: nat, strsize: nat)

  function SymtabFields(x: Symtab): seq<Field> {
    [Field(0, 4, x.symoff), Field(4, 4, x.nsyms), Field(8, 4, x.stroff), Field(12, 4, x.strsize)]
  }

  /** `LcSymtab::decode`. */
  function DecodeSymtab(body: seq<byte>): Option<Symtab> {
    if |body| != 16 then None
    else
      Some(Symtab(ReadLE(body, 0, 4), ReadLE(body, 4, 4), ReadLE(body, 8, 4), ReadLE(body, 12, 4)))
  }

  /** `LcSymtab::encode`. */
  function EncodeSymtab(x: Symtab): seq<byte> { FieldBytes(SymtabFields(x)) }

  lemma SymtabLayout(x: Symtab)
    ensures Contiguous(SymtabFields(x), 0, 16) && |EncodeSymtab(x)| == 16
  {
    LayoutOf(SymtabFields(x), 0, 16);
  }

  lemma SymtabHolds(s: seq<byte>)
    requires |s| == 16
    ensures var fs := SymtabFields(DecodeSymtab(s).value); forall i :: 0 <= i < |fs| ==> Holds(s, fs[i])
  {
    hide FromLE;
    var fs := SymtabFields(DecodeSymtab(s).value);
    assert Holds(s, fs[0]) && Holds(s, fs[1]) && Holds(s, fs[2]) && Holds(s, fs[3]);
  }

  lemma SymtabEncodeOfDecode(body: seq<byte>)
    requires DecodeSymtab(body).Some?
    ensures EncodeSymtab(DecodeSymtab(body).value) == body
  {
    hide FieldBytes, DecodeSymtab, SymtabFields;
    assert |body| == 16 by { SymtabSize(body); }
    var x := DecodeSymtab(body).value;
    SymtabLayout(x);
    SymtabHolds(body);
    FieldsRestore(SymtabFields(x), body, 0, 16);
    assert body[0..16] == body;
  }

  lemma SymtabSize(body: seq<byte>)
    ensures DecodeSymtab(body).Some? <==> |body| == 16
  {}

  /** The record is what its fields hold. */
  lemma SymtabDetermined(x: Symtab, s: seq<byte>)
    requires |s| == 16 && forall i :: 0 <= i < |SymtabFields(x)| ==> Holds(s, SymtabFields(x)[i])
    ensures DecodeSymtab(s) == Some(x)
  {
    hide FromLE;
    var fs := SymtabFields(x);
    assert Holds(s, fs[0]) && Holds(s, fs[1]) && Holds(s, fs[2]) && Holds(s, fs[3]);
  }

  lemma SymtabDecodeOfEncode(x: Symtab)
    requires FieldsFit(SymtabFields(x))
    ensures DecodeSymtab(EncodeSymtab(x)) == Some(x)
  {
    hide FieldBytes, DecodeSymtab, SymtabFields, FieldsFit;
    var s := EncodeSymtab(x);
    SymtabLayout(x);
    assert s[0..16] == s;
    FieldReadsBack(SymtabFields(x), s, 0, 16);
    SymtabDetermined(x, s);
  }

  datatype Dysymtab = Dysymtab(ilocalsym: nat, nlocalsym: nat, iextdefsym: nat, nextdefsym: nat,
                               iundefsym: nat, nundefsym: nat, tocoff: nat, ntoc: nat, modtaboff: nat,
                               nmodtab: nat, extrefsymoff: nat, nextrefsyms: nat, indirectsymoff: nat,
                               nindirectsyms: nat, extreloff: nat, nextrel: nat, locreloff: nat, nlocrel: nat)

  function DysymtabFields(x: Dysymtab): seq<Field> {
    [Field(0, 4, x.ilocalsym), Field(4, 4, x.nlocalsym), Field(8, 4, x.iextdefsym), Field(12, 4, x.nextdefsym),
     Field(16, 4, x.iundefsym), Field(20, 4, x.nundefsym), Field(24, 4, x.tocoff), Field(28, 4, x.ntoc),
     Field(32, 4, x.modtaboff), Field(36, 4, x.nmodtab), Field(40, 4, x.extrefsymoff),
     Field(44, 4, x.nextrefsyms), Field(48, 4, x.indirectsymoff), Field(52, 4, x.nindirectsyms),
     Field(56, 4, x.extreloff), Field(60, 4, x.nextrel), Field(64, 4, x.locreloff), Field(68, 4, x.nlocrel)]
  }

  /** `LcDysymtab::decode`. */
  function DecodeDysymtab(body: seq<byte>): Option<Dysymtab> {
    if |body| != 72 then None
    else
      Some(Dysymtab(ReadLE(body, 0, 4), ReadLE(body, 4, 4), ReadLE(body, 8, 4), ReadLE(body, 12, 4),
                    ReadLE(body, 16, 4), ReadLE(body, 20, 4), ReadLE(body, 24, 4), ReadLE(body, 28, 4),
                    ReadLE(body, 32, 4), ReadLE(body, 36, 4), ReadLE(body, 40, 4), ReadLE(body, 44, 4),
                    ReadLE(body, 48, 4), ReadLE(body, 52, 4), ReadLE(body, 56, 4), ReadLE(body, 60, 4),
                    ReadLE(body, 64, 4), ReadLE(body, 68, 4)))
  }

  /** `LcDysymtab::encode`. */
  function EncodeDysymtab(x: Dysymtab): seq<byte> { FieldBytes(DysymtabFields(x)) }

  lemma DysymtabLayout(x: Dysymtab)
    ensures Contiguous(DysymtabFields(x), 0, 72) && |EncodeDysymtab(x)| == 72
  {
    LayoutOf(DysymtabFields(x), 0, 72);
  }

  lemma DysymtabHolds(s: seq<byte>)
    requires |s| == 72
    ensures var fs := DysymtabFields(DecodeDysymtab(s).value); forall i :: 0 <= i < |fs| ==> Holds(s, fs[i])
  {
    hide FromLE;
    var fs := DysymtabFields(DecodeDysymtab(s).value);
    assert Holds(s, fs[0]) && Holds(s, fs[1]) && Holds(s, fs[2]) && Holds(s, fs[3]);
    assert Holds(s, fs[4]) && Holds(s, fs[5]) && Holds(s, fs[6]) && Holds(s, fs[7]);
    assert Holds(s, fs[8]) && Holds(s, fs[9]) && Holds(s, fs[10]) && Holds(s, fs[11]);
    assert Holds(s, fs[12]) && Holds(s, fs[13]) && Holds(s, fs[14]) && Holds(s, fs[15]);
    assert Holds(s, fs[16]) && Holds(s, fs[17]);
  }

  lemma DysymtabEncodeOfDecode(body: seq<byte>)
    requires DecodeDysymtab(body).Some?
    ensures EncodeDysymtab(DecodeDysymtab(body).value) == body
  {
    hide FieldBytes, DecodeDysymtab, DysymtabFields;
    assert |body| == 72 by { DysymtabSize(body); }
    var x := DecodeDysymtab(body).value;
    DysymtabLayout(x);
    DysymtabHolds(body);
    FieldsRestore(DysymtabFields(x), body, 0, 72);
    assert body[0..72] == body;
  }

  lemma DysymtabSize(body: seq<byte>)
    ensures DecodeDysymtab(body).Some? <==> |body| == 72
  {}

  /** The record is what its fields hold. */
  lemma DysymtabDetermined(x: Dysymtab, s: seq<byte>)
    requires |s| == 72 && forall i :: 0 <= i < |DysymtabFields(x)| ==> Holds(s, DysymtabFields(x)[i])
    ensures DecodeDysymtab(s) == Some(x)
  {
    hide FromLE;
    var fs := DysymtabFields(x);
    assert Holds(s, fs[0]) && Holds(s, fs[1]) && Holds(s, fs[2]) && Holds(s, fs[3]);
    assert Holds(s, fs[4]) && Holds(s, fs[5]) && Holds(s, fs[6]) && Holds(s, fs[7]);
    assert Holds(s, fs[8]) && Holds(s, fs[9]) && Holds(s, fs[10]) && Holds(s, fs[11]);
    assert Holds(s, fs[12]) && Holds(s, fs[13]) && Holds(s, fs[14]) && Holds(s, fs[15]);
    assert Holds(s, fs[16]) && Holds(s, fs[17]);
  }

  lemma DysymtabDecodeOfEncode(x: Dysymtab)
    requires FieldsFit(DysymtabFields(x))
    ensures DecodeDysymtab(EncodeDysymtab(x)) == Some(x)
  {
    hide FieldBytes, DecodeDysymtab, DysymtabFields, FieldsFit;
    var s := EncodeDysymtab(x);
    DysymtabLayout(x);
    assert s[0..72] == s;
    FieldReadsBack(DysymtabFields(x), s, 0, 72);
    DysymtabDetermined(x, s);
  }

  datatype LinkeditData = LinkeditData(dataoff: nat, datasize: nat)

  function LinkeditDataFields(x: LinkeditData): seq<Field> {
    [Field(0, 4, x.dataoff), Field(4, 4, x.datasize)]
  }

  /** `LcLinkeditData::decode`. */
  function DecodeLinkeditData(body: seq<byte>): Option<LinkeditData> {
    if |body| != 8 then None
    else
      Some(LinkeditData(ReadLE(body, 0, 4), ReadLE(body, 4, 4)))
  }

  /** `LcLinkeditData::encode`. */
  function EncodeLinkeditData(x: LinkeditData): seq<byte> { FieldBytes(LinkeditDataFields(x)) }

  lemma LinkeditDataLayout(x: LinkeditData)
    ensures Contiguous(LinkeditDataFields(x), 0, 8) && |EncodeLinkeditData(x)| == 8
  {
    LayoutOf(LinkeditDataFields(x), 0, 8);
  }

  lemma LinkeditDataHolds(s: seq<byte>)
    requires |s| == 8
    ensures var fs := LinkeditDataFields(DecodeLinkeditData(s).value); forall i :: 0 <= i < |fs| ==> Holds(s, fs[i])
  {
    hide FromLE;
    var fs := LinkeditDataFields(DecodeLinkeditData(s).value);
    assert Holds(s, fs[0]) && Holds(s, fs[1]);
  }

  lemma LinkeditDataEncodeOfDecode(body: seq<byte>)
    requires DecodeLinkeditData(body).Some?
    ensures EncodeLinkeditData(DecodeLinkeditData(body).value) == body
  {
    hide FieldBytes, DecodeLinkeditData, LinkeditDataFields;
    assert |body| == 8 by { LinkeditDataSize(body); }
    var x := DecodeLinkeditData(body).value;
    LinkeditDataLayout(x);
    LinkeditDataHolds(body);
    FieldsRestore(LinkeditDataFields(x), body, 0, 8);
    assert body[0..8] == body;
  }

  lemma LinkeditDataSize(body: seq<byte>)
    ensures DecodeLinkeditData(body).Some? <==> |body| == 8
  {}

  /** The record is what its fields hold. */
  lemma LinkeditDataDetermined(x: LinkeditData, s: seq<byte>)
    requires |s| == 8 && forall i :: 0 <= i < |LinkeditDataFields(x)| ==> Holds(s, LinkeditDataFields(x)[i])
    ensures DecodeLinkeditData(s) == Some(x)
  {
    hide FromLE;
    var fs := LinkeditDataFields(x);
    assert Holds(s, fs[0]) && Holds(s, fs[1]);
  }

  lemma LinkeditDataDecodeOfEncode(x: LinkeditData)
    requires FieldsFit(LinkeditDataFields(x))
    ensures DecodeLinkeditData(EncodeLinkeditData(x)) == Some(x)
  {
    hide FieldBytes, DecodeLinkeditData, LinkeditDataFields, FieldsFit;
    var s := EncodeLinkeditData(x);
    LinkeditDataLayout(x);
    assert s[0..8] == s;
    FieldReadsBack(LinkeditDataFields(x), s, 0, 8);
    LinkeditDataDetermined(x, s);
  }
}
