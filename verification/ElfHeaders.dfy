/** The ELF header, program headers and section headers of both classes, always held
    in their 64-bit shape, with the reader and the writer of each on-disk layout. */
module ElfHeaders {
  import opened Bytes

  datatype Class = Elf32 | Elf64

  const EI_NIDENT: nat := 16
  const ELF_MAGIC: seq<byte> := [0x7f, 0x45, 0x4c, 0x46]
  const SHT_NOBITS: nat := 8

  datatype Ehdr = Ehdr(ident: seq<byte>, etype: nat, machine: nat, version: nat, entry: nat,
                       phoff: nat, shoff: nat, flags: nat, ehsize: nat, phentsize: nat,
                       phnum: nat, shentsize: nat, shnum: nat, shstrndx: nat)

  /** A table entry: a program header or a section header. */
  datatype Entry =
    | Phdr(ptype: nat, pflags: nat, poffset: nat, vaddr: nat, paddr: nat,
           filesz: nat, memsz: nat, palign: nat)
    | Shdr(name: nat, stype: nat, sflags: nat, addr: nat, offset: nat,
           size: nat, link: nat, info: nat, addralign: nat, entsize: nat)

  datatype Kind = PhKind | ShKind

  type Section = e: Entry | e.Shdr? witness Shdr(0, 0, 0, 0, 0, 0, 0, 0, 0, 0)

  function EhdrSize(c: Class): nat { if c.Elf32? then 52 else 64 }

  function EntrySize(k: Kind, c: Class): nat {
    match (k, c)
    case (PhKind, Elf32) => 32
    case (PhKind, Elf64) => 56
    case (ShKind, Elf32) => 40
    case (ShKind, Elf64) => 64
  }

  predicate OccupiesFile(sh: Section) { sh.stype != SHT_NOBITS && sh.size > 0 }

  // ----- reading -----

  function ReadEhdr(c: Class, s: seq<byte>): Ehdr
    requires |s| >= EhdrSize(c)
  {
    match c
    case Elf64 =>
      Ehdr(s[..EI_NIDENT], ReadLE(s, 16, 2), ReadLE(s, 18, 2), ReadLE(s, 20, 4), ReadLE(s, 24, 8),
           ReadLE(s, 32, 8), ReadLE(s, 40, 8), ReadLE(s, 48, 4), ReadLE(s, 52, 2), ReadLE(s, 54, 2),
           ReadLE(s, 56, 2), ReadLE(s, 58, 2), ReadLE(s, 60, 2), ReadLE(s, 62, 2))
    case Elf32 =>
      Ehdr(s[..EI_NIDENT], ReadLE(s, 16, 2), ReadLE(s, 18, 2), ReadLE(s, 20, 4), ReadLE(s, 24, 4),
           ReadLE(s, 28, 4), ReadLE(s, 32, 4), ReadLE(s, 36, 4), ReadLE(s, 40, 2), ReadLE(s, 42, 2),
           ReadLE(s, 44, 2), ReadLE(s, 46, 2), ReadLE(s, 48, 2), ReadLE(s, 50, 2))
  }

  /** Field order of the 32-bit program header differs: its flags come after the sizes. */
  function ReadEntry(k: Kind, c: Class, s: seq<byte>): (e: Entry)
    requires |s| == EntrySize(k, c)
    ensures k.PhKind? <==> e.Phdr?
  {
    match (k, c)
    case (PhKind, Elf64) =>
      Phdr(ReadLE(s, 0, 4), ReadLE(s, 4, 4), ReadLE(s, 8, 8), ReadLE(s, 16, 8),
           ReadLE(s, 24, 8), ReadLE(s, 32, 8), ReadLE(s, 40, 8), ReadLE(s, 48, 8))
    case (PhKind, Elf32) =>
      Phdr(ReadLE(s, 0, 4), ReadLE(s, 24, 4), ReadLE(s, 4, 4), ReadLE(s, 8, 4),
           ReadLE(s, 12, 4), ReadLE(s, 16, 4), ReadLE(s, 20, 4), ReadLE(s, 28, 4))
    case (ShKind, Elf64) =>
      Shdr(ReadLE(s, 0, 4), ReadLE(s, 4, 4), ReadLE(s, 8, 8), ReadLE(s, 16, 8), ReadLE(s, 24, 8),
           ReadLE(s, 32, 8), ReadLE(s, 40, 4), ReadLE(s, 44, 4), ReadLE(s, 48, 8), ReadLE(s, 56, 8))
    case (ShKind, Elf32) =>
      Shdr(ReadLE(s, 0, 4), ReadLE(s, 4, 4), ReadLE(s, 8, 4), ReadLE(s, 12, 4), ReadLE(s, 16, 4),
           ReadLE(s, 20, 4), ReadLE(s, 24, 4), ReadLE(s, 28, 4), ReadLE(s, 32, 4), ReadLE(s, 36, 4))
  }

  // ----- writing -----

  function EhdrFields(c: Class, h: Ehdr): seq<Field> {
    match c
    case Elf64 =>
      [Field(16, 2, h.etype), Field(18, 2, h.machine), Field(20, 4, h.version), Field(24, 8, h.entry),
       Field(32, 8, h.phoff), Field(40, 8, h.shoff), Field(48, 4, h.flags), Field(52, 2, h.ehsize),
       Field(54, 2, h.phentsize), Field(56, 2, h.phnum), Field(58, 2, h.shentsize),
       Field(60, 2, h.shnum), Field(62, 2, h.shstrndx)]
    case Elf32 =>
      [Field(16, 2, h.etype), Field(18, 2, h.machine), Field(20, 4, h.version), Field(24, 4, h.entry),
       Field(28, 4, h.phoff), Field(32, 4, h.shoff), Field(36, 4, h.flags), Field(40, 2, h.ehsize),
       Field(42, 2, h.phentsize), Field(44, 2, h.phnum), Field(46, 2, h.shentsize),
       Field(48, 2, h.shnum), Field(50, 2, h.shstrndx)]
  }

  function EntryFields(c: Class, e: Entry): seq<Field> {
    match (e, c)
    case (Phdr(ty, fl, off, va, pa, fs, ms, al), Elf64) =>
      [Field(0, 4, ty), Field(4, 4, fl), Field(8, 8, off), Field(16, 8, va),
       Field(24, 8, pa), Field(32, 8, fs), Field(40, 8, ms), Field(48, 8, al)]
    case (Phdr(ty, fl, off, va, pa, fs, ms, al), Elf32) =>
      [Field(0, 4, ty), Field(4, 4, off), Field(8, 4, va), Field(12, 4, pa),
       Field(16, 4, fs), Field(20, 4, ms), Field(24, 4, fl), Field(28, 4, al)]
    case (Shdr(nm, ty, fl, ad, off, sz, li, inf, al, es), Elf64) =>
      [Field(0, 4, nm), Field(4, 4, ty), Field(8, 8, fl), Field(16, 8, ad), Field(24, 8, off),
       Field(32, 8, sz), Field(40, 4, li), Field(44, 4, inf), Field(48, 8, al), Field(56, 8, es)]
    case (Shdr(nm, ty, fl, ad, off, sz, li, inf, al, es), Elf32) =>
      [Field(0, 4, nm), Field(4, 4, ty), Field(8, 4, fl), Field(12, 4, ad), Field(16, 4, off),
       Field(20, 4, sz), Field(24, 4, li), Field(28, 4, inf), Field(32, 4, al), Field(36, 4, es)]
  }

  function KindOf(e: Entry): Kind { if e.Phdr? then PhKind else ShKind }

  function EhdrBytes(c: Class, h: Ehdr): seq<byte> { h.ident + FieldBytes(EhdrFields(c, h)) }

  function EntryBytes(c: Class, e: Entry): seq<byte> { FieldBytes(EntryFields(c, e)) }

  predicate EhdrFits(c: Class, h: Ehdr) { |h.ident| == EI_NIDENT && FieldsFit(EhdrFields(c, h)) }

  predicate EntryFits(c: Class, e: Entry) { FieldsFit(EntryFields(c, e)) }

  lemma EhdrLayout(c: Class, h: Ehdr)
    ensures Contiguous(EhdrFields(c, h), 16, EhdrSize(c))
    ensures |FieldBytes(EhdrFields(c, h))| == EhdrSize(c) - 16
  {
    var fs := EhdrFields(c, h);
    assert forall i :: 0 < i < |fs| ==> fs[i].at == fs[i - 1].at + fs[i - 1].width;
    ContiguousSteps(fs, 16, EhdrSize(c));
    FieldBytesLength(fs, 16, EhdrSize(c));
  }

  lemma EntryLayout(c: Class, e: Entry)
    ensures Contiguous(EntryFields(c, e), 0, EntrySize(KindOf(e), c))
    ensures |EntryBytes(c, e)| == EntrySize(KindOf(e), c)
  {
    var fs := EntryFields(c, e);
    assert forall i :: 0 < i < |fs| ==> fs[i].at == fs[i - 1].at + fs[i - 1].width;
    ContiguousSteps(fs, 0, EntrySize(KindOf(e), c));
    FieldBytesLength(fs, 0, EntrySize(KindOf(e), c));
  }

  // ----- the two directions of each codec -----

  lemma EhdrHolds(c: Class, s: seq<byte>)
    requires |s| >= EhdrSize(c)
    ensures forall i :: 0 <= i < |EhdrFields(c, ReadEhdr(c, s))| ==> Holds(s, EhdrFields(c, ReadEhdr(c, s))[i])
  {
    hide FromLE, Pow256;
    var fs := EhdrFields(c, ReadEhdr(c, s));
    assert Holds(s, fs[0]) && Holds(s, fs[1]) && Holds(s, fs[2]) && Holds(s, fs[3]);
    assert Holds(s, fs[4]) && Holds(s, fs[5]) && Holds(s, fs[6]) && Holds(s, fs[7]);
    assert Holds(s, fs[8]) && Holds(s, fs[9]) && Holds(s, fs[10]) && Holds(s, fs[11]) && Holds(s, fs[12]);
  }

  lemma EhdrWriteOfRead(c: Class, s: seq<byte>)
    requires |s| >= EhdrSize(c)
    ensures EhdrBytes(c, ReadEhdr(c, s)) == s[..EhdrSize(c)]
    ensures EhdrFits(c, ReadEhdr(c, s))
  {
    var h := ReadEhdr(c, s);
    var fs := EhdrFields(c, h);
    EhdrLayout(c, h);
    EhdrHolds(c, s);
    FieldsRestore(fs, s, 16, EhdrSize(c));
    assert s[..EhdrSize(c)] == s[..16] + s[16..EhdrSize(c)];
    HeldFieldsFit(fs, s);
  }

  lemma EntryHolds(k: Kind, c: Class, s: seq<byte>)
    requires |s| == EntrySize(k, c)
    ensures forall i :: 0 <= i < |EntryFields(c, ReadEntry(k, c, s))| ==> Holds(s, EntryFields(c, ReadEntry(k, c, s))[i])
  {
    hide FromLE, Pow256;
    var fs := EntryFields(c, ReadEntry(k, c, s));
    assert Holds(s, fs[0]) && Holds(s, fs[1]) && Holds(s, fs[2]) && Holds(s, fs[3]);
    assert Holds(s, fs[4]) && Holds(s, fs[5]) && Holds(s, fs[6]) && Holds(s, fs[7]);
    if k.ShKind? {
      assert Holds(s, fs[8]) && Holds(s, fs[9]);
    }
  }

  lemma EntryWriteOfRead(k: Kind, c: Class, s: seq<byte>)
    requires |s| == EntrySize(k, c)
    ensures EntryBytes(c, ReadEntry(k, c, s)) == s
    ensures EntryFits(c, ReadEntry(k, c, s))
  {
    var e := ReadEntry(k, c, s);
    EntryLayout(c, e);
    EntryHolds(k, c, s);
    FieldsRestore(EntryFields(c, e), s, 0, |s|);
    assert s[0..|s|] == s;
    HeldFieldsFit(EntryFields(c, e), s);
  }

  /** A header is determined by its identification bytes and the fields it holds. */
  lemma EhdrDetermined(c: Class, h: Ehdr, s: seq<byte>)
    requires |s| >= EhdrSize(c) && s[..16] == h.ident
    requires forall i :: 0 <= i < |EhdrFields(c, h)| ==> Holds(s, EhdrFields(c, h)[i])
    ensures ReadEhdr(c, s) == h
  {
    var fs := EhdrFields(c, h);
    assert Holds(s, fs[0]) && Holds(s, fs[1]) && Holds(s, fs[2]) && Holds(s, fs[3]);
    assert Holds(s, fs[4]) && Holds(s, fs[5]) && Holds(s, fs[6]) && Holds(s, fs[7]);
    assert Holds(s, fs[8]) && Holds(s, fs[9]) && Holds(s, fs[10]) && Holds(s, fs[11]) && Holds(s, fs[12]);
  }

  lemma EhdrReadOfWrite(c: Class, h: Ehdr, s: seq<byte>)
    requires EhdrFits(c, h) && |s| >= EhdrSize(c)
    requires s[..EhdrSize(c)] == EhdrBytes(c, h)
    ensures ReadEhdr(c, s) == h
  {
    var fs := EhdrFields(c, h);
    EhdrLayout(c, h);
    assert s[..16] == s[..EhdrSize(c)][..16] == h.ident;
    assert s[16..EhdrSize(c)] == s[..EhdrSize(c)][16..] == FieldBytes(fs);
    FieldReadsBack(fs, s, 16, EhdrSize(c));
    EhdrDetermined(c, h, s);
  }

  lemma EntryDetermined(c: Class, e: Entry, s: seq<byte>)
    requires |s| == EntrySize(KindOf(e), c)
    requires forall i :: 0 <= i < |EntryFields(c, e)| ==> Holds(s, EntryFields(c, e)[i])
    ensures ReadEntry(KindOf(e), c, s) == e
  {
    var fs := EntryFields(c, e);
    assert Holds(s, fs[0]) && Holds(s, fs[1]) && Holds(s, fs[2]) && Holds(s, fs[3]);
    assert Holds(s, fs[4]) && Holds(s, fs[5]) && Holds(s, fs[6]) && Holds(s, fs[7]);
    if e.Shdr? {
      assert Holds(s, fs[8]) && Holds(s, fs[9]);
    }
  }

  lemma EntryReadOfWrite(c: Class, e: Entry)
    requires EntryFits(c, e)
    ensures |EntryBytes(c, e)| == EntrySize(KindOf(e), c)
    ensures ReadEntry(KindOf(e), c, EntryBytes(c, e)) == e
  {
    var fs, s := EntryFields(c, e), EntryBytes(c, e);
    EntryLayout(c, e);
    assert s[0..|s|] == s;
    FieldReadsBack(fs, s, 0, |s|);
    EntryDetermined(c, e, s);
  }

  /** `Ehdr64::write`: the identification bytes, then every field at its offset. */
  method WriteEhdr(c: Class, h: Ehdr, out: array<byte>)
    requires |h.ident| == EI_NIDENT && EhdrSize(c) <= out.Length
    modifies out
    ensures |EhdrBytes(c, h)| == EhdrSize(c)
    ensures out[..] == Put(old(out[..]), Patch(0, EhdrBytes(c, h)))
  {
    EhdrLayout(c, h);
    CopyInto(out, 0, h.ident);
    WriteFields(out, 0, EhdrFields(c, h), 16, EhdrSize(c));
    PutJoin(old(out[..]), 0, h.ident, FieldBytes(EhdrFields(c, h)));
  }

  /** `Phdr64::write` and `Shdr64::write` into the entry's slice of the file. */
  method WriteEntry(c: Class, e: Entry, out: array<byte>, base: nat)
    requires base + EntrySize(KindOf(e), c) <= out.Length
    modifies out
    ensures |EntryBytes(c, e)| == EntrySize(KindOf(e), c)
    ensures out[..] == Put(old(out[..]), Patch(base, EntryBytes(c, e)))
  {
    EntryLayout(c, e);
    WriteFields(out, base, EntryFields(c, e), 0, EntrySize(KindOf(e), c));
  }
}
