/** The in-memory filesystem's files and positioned handles, and why any interleaving of
    operations behaves like zero-filled byte functions with one position per open. */
module VirtualFs {
  import opened Bytes
  import opened Outcome
  import opened Paths
  import opened Directories

  const HANDLE_BASE: nat := 0x6800_0000
  const I64_END: nat := 0x8000_0000_0000_0000

  datatype Access = Read | Write | ReadWrite {
    predicate AllowsRead() { Read? || ReadWrite? }
    predicate AllowsWrite() { Write? || ReadWrite? }
  }

  datatype FileHandle = FileHandle(path: string, pos: u64, access: Access)

  datatype Vfs = Vfs(files: Files, open: map<u32, FileHandle>, nextHandle: u32)

  datatype Op = Insert(path: string, bytes: seq<byte>)
              | Remove(path: string)
              | Truncate(path: string, len: u64)
              | Open(path: string, access: Access)
              | Close(h: u32)
              | ReadAt(h: u32, count: nat)
              | WriteAt(h: u32, data: seq<byte>)
              | Seek(h: u32, to: u64)
              | SeekHandle(h: u32, off: i32, whence: nat)
              | Size(h: u32)

  /** `Panic` is a write or resize past the largest length a vector can have. */
  datatype Reply = Nothing | Handle(h: u32) | Flag(b: bool) | Data(bytes: seq<byte>) | Number(n: nat) | Panic

  // ===== the operations =====

  /** `resize` with zeroes. */
  function Resized(file: seq<byte>, n: nat): (r: seq<byte>)
    ensures |r| == n
  {
    if n <= |file| then file[..n] else file + Zeros(n - |file|)
  }

  /** The file after `data` is written at `pos`. */
  function Overwritten(file: seq<byte>, pos: nat, data: seq<byte>): (r: seq<byte>)
    ensures |r| == if pos + |data| > |file| then pos + |data| else |file|
  {
    var room := if pos + |data| > |file| then Resized(file, pos + |data|) else file;
    room[..pos] + data + room[pos + |data|..]
  }

  function HandleOf(serial: nat): u32 { (HANDLE_BASE + serial) % U32 }

  function AsI64(x: int): int {
    var w := x % U64;
    if w < I64_END then w else w - U64
  }

  /** `(base as i64 + off).max(0) as u64`, the sum wrapping. */
  function SeekPos(base: u64, off: i32): u64 {
    var sum := AsI64(base + off);
    if sum > 0 then sum else 0
  }

  /** Where a seek of that kind counts from: start, current position, or end. */
  function SeekBase(pos: u64, size: Option<nat>, whence: nat): Option<nat> {
    if whence == 1 then Some(pos) else if whence == 2 then size else Some(0)
  }

  function DoOpen(s: Vfs, path: string, access: Access): (Vfs, Reply) {
    var key := Normalize(path);
    if key !in s.files && !access.AllowsWrite() then (s, Nothing)
    else
      var h := HandleOf(s.nextHandle);
      (Vfs(if key in s.files then s.files else s.files[key := []],
           s.open[h := FileHandle(key, 0, access)],
           (s.nextHandle + 1) % U32), Handle(h))
  }

  function DoRead(s: Vfs, h: u32, len: nat): (Vfs, Reply) {
    if h !in s.open || !s.open[h].access.AllowsRead() || s.open[h].path !in s.files then (s, Nothing)
    else
      var fh := s.open[h];
      var file := s.files[fh.path];
      if fh.pos >= |file| then (s, Data([]))
      else
        var n := if len <= |file| - fh.pos then len else |file| - fh.pos;
        (s.(open := s.open[h := fh.(pos := (fh.pos + n) % U64)]), Data(file[fh.pos..fh.pos + n]))
  }

  function DoWrite(s: Vfs, h: u32, data: seq<byte>): (Vfs, Reply) {
    if h !in s.open || !s.open[h].access.AllowsWrite() || s.open[h].path !in s.files then (s, Nothing)
    else
      var fh := s.open[h];
      if fh.pos + |data| >= I64_END then (s, Panic)
      else
        (s.(files := s.files[fh.path := Overwritten(s.files[fh.path], fh.pos, data)],
            open := s.open[h := fh.(pos := fh.pos + |data|)]), Number(|data|))
  }

  function SizeOf(s: Vfs, h: u32): Option<nat> {
    if h in s.open && s.open[h].path in s.files then Some(|s.files[s.open[h].path]|) else None
  }

  function DoSeekHandle(s: Vfs, h: u32, off: i32, whence: nat): (Vfs, Reply) {
    if h !in s.open then (s, Nothing)
    else
      match SeekBase(s.open[h].pos, SizeOf(s, h), whence)
      case None => (s, Nothing)
      case Some(base) =>
        var pos := SeekPos(base % U64, off);
        (s.(open := s.open[h := s.open[h].(pos := pos)]), Number(pos))
  }

  /** One call. */
  function Step(s: Vfs, op: Op): (Vfs, Reply) {
    match op
    case Insert(path, bytes) => (s.(files := s.files[Normalize(path) := bytes]), Nothing)
    case Remove(path) => (s.(files := s.files - {Normalize(path)}), Flag(Normalize(path) in s.files))
    case Truncate(path, len) =>
      var key := Normalize(path);
      if key !in s.files then (s, Flag(false))
      else if len >= I64_END then (s, Panic)
      else (s.(files := s.files[key := Resized(s.files[key], len)]), Flag(true))
    case Open(path, access) => DoOpen(s, path, access)
    case Close(h) => (s.(open := s.open - {h}), Flag(h in s.open))
    case ReadAt(h, len) => DoRead(s, h, len)
    case WriteAt(h, data) => DoWrite(s, h, data)
    case Seek(h, to) =>
      if h !in s.open then (s, Nothing)
      else (s.(open := s.open[h := s.open[h].(pos := to)]), Number(to))
    case SeekHandle(h, off, whence) => DoSeekHandle(s, h, off, whence)
    case Size(h) => (s, match SizeOf(s, h) case None => Nothing case Some(n) => Number(n))
  }

  const EMPTY: Vfs := Vfs(map[], map[], 0)

  // ===== the simple model =====

  /** A file as a byte for every position, zero from `size` on. */
  datatype Sparse = Sparse(size: nat, at: nat -> byte)

  /** Handles are numbered by the open that made them; `opens` counts these. */
  datatype Model = Model(files: map<string, Sparse>, live: map<nat, FileHandle>, opens: nat)

  const NO_FILES: Model := Model(map[], map[], 0)

  function Serial(h: u32): nat { (h - HANDLE_BASE) % U32 }

  ghost function ModelWrite(f: Sparse, pos: nat, data: seq<byte>): Sparse {
    Sparse(if pos + |data| > f.size then pos + |data| else f.size,
           (i: nat) => if pos <= i < pos + |data| then data[i - pos] else f.at(i))
  }

  function ByteBelow(f: Sparse, n: nat, i: nat): byte { if i < n then f.at(i) else 0 }

  ghost function ModelResize(f: Sparse, n: nat): Sparse {
    Sparse(n, (i: nat) => ByteBelow(f, n, i))
  }

  ghost function ModelBytes(bytes: seq<byte>): Sparse {
    Sparse(|bytes|, (i: nat) => if i < |bytes| then bytes[i] else 0)
  }

  ghost function ModelStep(m: Model, op: Op): (Model, Reply) {
    match op
    case Insert(path, bytes) => (m.(files := m.files[Normalize(path) := ModelBytes(bytes)]), Nothing)
    case Remove(path) => (m.(files := m.files - {Normalize(path)}), Flag(Normalize(path) in m.files))
    case Truncate(path, len) =>
      var key := Normalize(path);
      if key !in m.files then (m, Flag(false))
      else if len >= I64_END then (m, Panic)
      else (m.(files := m.files[key := ModelResize(m.files[key], len)]), Flag(true))
    case Open(path, access) =>
      var key := Normalize(path);
      if key !in m.files && !access.AllowsWrite() then (m, Nothing)
      else (Model(if key in m.files then m.files else m.files[key := ModelBytes([])],
                  m.live[m.opens := FileHandle(key, 0, access)], m.opens + 1), Handle(HandleOf(m.opens)))
    case Close(h) => (m.(live := m.live - {Serial(h)}), Flag(Serial(h) in m.live))
    case ReadAt(h, len) => ModelRead(m, Serial(h), len)
    case WriteAt(h, data) =>
      var k := Serial(h);
      if k !in m.live || !m.live[k].access.AllowsWrite() || m.live[k].path !in m.files then (m, Nothing)
      else
        var fh := m.live[k];
        if fh.pos + |data| >= I64_END then (m, Panic)
        else (m.(files := m.files[fh.path := ModelWrite(m.files[fh.path], fh.pos, data)],
                 live := m.live[k := fh.(pos := fh.pos + |data|)]), Number(|data|))
    case Seek(h, to) =>
      if Serial(h) !in m.live then (m, Nothing)
      else (m.(live := m.live[Serial(h) := m.live[Serial(h)].(pos := to)]), Number(to))
    case SeekHandle(h, off, whence) => ModelSeek(m, Serial(h), off, whence)
    case Size(h) => (m, match ModelSize(m, Serial(h)) case None => Nothing case Some(n) => Number(n))
  }

  ghost function ModelSeek(m: Model, k: nat, off: i32, whence: nat): (Model, Reply) {
    if k !in m.live then (m, Nothing)
    else
      match SeekBase(m.live[k].pos, ModelSize(m, k), whence)
      case None => (m, Nothing)
      case Some(base) =>
        var pos := SeekPos(base % U64, off);
        (m.(live := m.live[k := m.live[k].(pos := pos)]), Number(pos))
  }

  ghost function ModelSize(m: Model, k: nat): Option<nat> {
    if k in m.live && m.live[k].path in m.files then Some(m.files[m.live[k].path].size) else None
  }

  ghost function ModelRead(m: Model, k: nat, len: nat): (Model, Reply) {
    if k !in m.live || !m.live[k].access.AllowsRead() || m.live[k].path !in m.files then (m, Nothing)
    else
      var fh, f := m.live[k], m.files[m.live[k].path];
      if fh.pos >= f.size then (m, Data([]))
      else
        var n := if len <= f.size - fh.pos then len else f.size - fh.pos;
        (m.(live := m.live[k := fh.(pos := (fh.pos + n) % U64)]),
         Data(seq<byte>(n, i requires 0 <= i < n => f.at(fh.pos + i))))
  }

  // ===== refinement =====

  ghost predicate Represents(bytes: seq<byte>, f: Sparse) {
    && |bytes| == f.size
    && (forall i :: 0 <= i < |bytes| ==> bytes[i] == f.at(i))
    && (forall i :: i >= |bytes| ==> f.at(i) == 0)
  }

  ghost predicate SameFiles(files: Files, model: map<string, Sparse>) {
    files.Keys == model.Keys && forall p :: p in files ==> Represents(files[p], model[p])
  }

  ghost predicate SameHandles(open: map<u32, FileHandle>, live: map<nat, FileHandle>) {
    forall h: u32 :: (h in open <==> Serial(h) in live) && (h in open ==> open[h] == live[Serial(h)])
  }

  ghost predicate Refines(s: Vfs, m: Model) {
    && SameFiles(s.files, m.files) && SameHandles(s.open, m.live)
    && (forall k :: k in m.live ==> k < m.opens)
    && s.nextHandle == m.opens % U32
  }

  /** Byte by byte: data where it was written, what was there before, zero in the gap. */
  lemma OverwrittenAt(file: seq<byte>, pos: nat, data: seq<byte>, i: nat)
    requires i < |Overwritten(file, pos, data)|
    ensures Overwritten(file, pos, data)[i] ==
      if pos <= i < pos + |data| then data[i - pos] else if i < |file| then file[i] else 0
  {}

  lemma WriteRefines(file: seq<byte>, f: Sparse, pos: nat, data: seq<byte>)
    requires Represents(file, f)
    ensures Represents(Overwritten(file, pos, data), ModelWrite(f, pos, data))
  {
    hide Overwritten;
    var r := Overwritten(file, pos, data);
    forall i | 0 <= i < |r| ensures r[i] == ModelWrite(f, pos, data).at(i) {
      OverwrittenAt(file, pos, data, i);
    }
  }

  lemma ResizeRefines(file: seq<byte>, f: Sparse, n: nat)
    requires Represents(file, f)
    ensures Represents(Resized(file, n), ModelResize(f, n))
  {}

  lemma SerialOfHandle(k: nat)
    requires k < U32
    ensures Serial(HandleOf(k)) == k
  {}

  lemma HandleOfSerial(h: u32)
    ensures HandleOf(Serial(h)) == h
  {}

  /** Two opens give the same handle exactly when they are a multiple of 2^32 apart. */
  lemma HandlesCollide(i: nat, j: nat)
    ensures HandleOf(i) == HandleOf(j) <==> (i - j) % U32 == 0
  {
    var a, b := HANDLE_BASE + i, HANDLE_BASE + j;
    if a % U32 == b % U32 {
      assert i - j == U32 * (a / U32 - b / U32);
    }
    if (i - j) % U32 == 0 {
      assert a == b + U32 * ((i - j) / U32);
    }
  }

  lemma OneHandle(open: map<u32, FileHandle>, live: map<nat, FileHandle>, h: u32, fh: FileHandle)
    requires SameHandles(open, live)
    ensures SameHandles(open[h := fh], live[Serial(h) := fh])
    ensures SameHandles(open - {h}, live - {Serial(h)})
  {
    hide Serial, HandleOf;
    forall x: u32 ensures Serial(x) == Serial(h) ==> x == h {
      HandleOfSerial(x);
      HandleOfSerial(h);
    }
  }

  lemma OneFile(files: Files, model: map<string, Sparse>, p: string, bytes: seq<byte>, f: Sparse)
    requires SameFiles(files, model) && Represents(bytes, f)
    ensures SameFiles(files[p := bytes], model[p := f])
  {
    hide Represents;
  }

  // ===== one call =====

  lemma FilesMatch(s: Vfs, m: Model, p: string)
    requires SameFiles(s.files, m.files)
    ensures p in s.files <==> p in m.files
    ensures p in s.files ==> Represents(s.files[p], m.files[p])
  {
    hide Represents;
  }

  lemma OpenRefines(s: Vfs, m: Model, path: string, access: Access)
    requires Refines(s, m) && m.opens < U32
    ensures Refines(DoOpen(s, path, access).0, ModelStep(m, Open(path, access)).0)
    ensures DoOpen(s, path, access).1 == ModelStep(m, Open(path, access)).1
  {
    hide Normalize, SameFiles, SameHandles, HandleOf, Serial;
    var key := Normalize(path);
    FilesMatch(s, m, key);
    assert s.nextHandle == m.opens;
    SerialOfHandle(m.opens);
    OneHandle(s.open, m.live, HandleOf(m.opens), FileHandle(key, 0, access));
    assert Represents([], ModelBytes([]));
    OneFile(s.files, m.files, key, [], ModelBytes([]));
  }

  lemma HandleMatch(s: Vfs, m: Model, h: u32)
    requires SameHandles(s.open, m.live)
    ensures (h in s.open <==> Serial(h) in m.live) && (h in s.open ==> s.open[h] == m.live[Serial(h)])
  {}

  lemma ReadRefines(s: Vfs, m: Model, h: u32, count: nat)
    requires Refines(s, m)
    ensures Refines(DoRead(s, h, count).0, ModelRead(m, Serial(h), count).0)
    ensures DoRead(s, h, count).1 == ModelRead(m, Serial(h), count).1
  {
    hide SameFiles, SameHandles, Serial;
    HandleMatch(s, m, h);
    if h in s.open {
      var fh := s.open[h];
      FilesMatch(s, m, fh.path);
      OneHandle(s.open, m.live, h, DoRead(s, h, count).0.open[h]);
    }
  }

  lemma WriteAtRefines(s: Vfs, m: Model, h: u32, data: seq<byte>)
    requires Refines(s, m)
    ensures Refines(DoWrite(s, h, data).0, ModelStep(m, WriteAt(h, data)).0)
    ensures DoWrite(s, h, data).1 == ModelStep(m, WriteAt(h, data)).1
  {
    hide SameFiles, SameHandles, Serial, Overwritten, ModelWrite, Represents;
    HandleMatch(s, m, h);
    if h in s.open {
      var fh := s.open[h];
      FilesMatch(s, m, fh.path);
      if fh.path in s.files && fh.pos + |data| < I64_END {
        WriteRefines(s.files[fh.path], m.files[fh.path], fh.pos, data);
        OneFile(s.files, m.files, fh.path, Overwritten(s.files[fh.path], fh.pos, data), ModelWrite(m.files[fh.path], fh.pos, data));
        OneHandle(s.open, m.live, h, fh.(pos := fh.pos + |data|));
      }
    }
  }

  lemma SeekRefines(s: Vfs, m: Model, h: u32, off: i32, whence: nat)
    requires Refines(s, m)
    ensures Refines(DoSeekHandle(s, h, off, whence).0, ModelSeek(m, Serial(h), off, whence).0)
    ensures DoSeekHandle(s, h, off, whence).1 == ModelSeek(m, Serial(h), off, whence).1
    ensures SizeOf(s, h) == ModelSize(m, Serial(h))
  {
    hide SameFiles, SameHandles, Serial, SeekPos;
    HandleMatch(s, m, h);
    if h in s.open {
      FilesMatch(s, m, s.open[h].path);
      OneHandle(s.open, m.live, h, DoSeekHandle(s, h, off, whence).0.open[h]);
    }
  }

  lemma RemoveFile(files: Files, model: map<string, Sparse>, p: string)
    requires SameFiles(files, model)
    ensures SameFiles(files - {p}, model - {p})
  {
    hide Represents;
  }

  /** Every call answers as the model does and stays in step with it. */
  lemma StepRefines(s: Vfs, m: Model, op: Op)
    requires Refines(s, m) && (op.Open? ==> m.opens < U32)
    ensures Refines(Step(s, op).0, ModelStep(m, op).0)
    ensures Step(s, op).1 == ModelStep(m, op).1
  {
    hide Normalize, SameFiles, SameHandles, Serial, DoOpen, DoRead, DoWrite, DoSeekHandle, ModelRead, ModelSeek, Represents, Resized, ModelResize;
    match op
    case Insert(path, bytes) =>
      BytesRefine(bytes);
      OneFile(s.files, m.files, Normalize(path), bytes, ModelBytes(bytes));
    case Remove(path) =>
      FilesMatch(s, m, Normalize(path));
      RemoveFile(s.files, m.files, Normalize(path));
    case Truncate(path, len) =>
      var key := Normalize(path);
      FilesMatch(s, m, key);
      if key in s.files {
        ResizeRefines(s.files[key], m.files[key], len);
        OneFile(s.files, m.files, key, Resized(s.files[key], len), ModelResize(m.files[key], len));
      }
    case Open(path, access) => OpenRefines(s, m, path, access);
    case Close(h) =>
      HandleMatch(s, m, h);
      OneHandle(s.open, m.live, h, FileHandle("", 0, Read));
    case ReadAt(h, count) => ReadRefines(s, m, h, count);
    case WriteAt(h, data) => WriteAtRefines(s, m, h, data);
    case Seek(h, to) =>
      HandleMatch(s, m, h);
      if h in s.open {
        OneHandle(s.open, m.live, h, s.open[h].(pos := to));
      }
    case SeekHandle(h, off, whence) => SeekRefines(s, m, h, off, whence);
    case Size(h) => SeekRefines(s, m, h, 0, 0);
  }

  lemma BytesRefine(bytes: seq<byte>)
    ensures Represents(bytes, ModelBytes(bytes))
  {}

  // ===== whole runs =====

  function Run(s: Vfs, ops: seq<Op>): (Vfs, seq<Reply>)
    decreases |ops|
  {
    if ops == [] then (s, [])
    else
      var (s1, r) := Step(s, ops[0]);
      var (s2, rs) := Run(s1, ops[1..]);
      (s2, [r] + rs)
  }

  ghost function ModelRun(m: Model, ops: seq<Op>): (Model, seq<Reply>)
    decreases |ops|
  {
    if ops == [] then (m, [])
    else
      var (m1, r) := ModelStep(m, ops[0]);
      var (m2, rs) := ModelRun(m1, ops[1..]);
      (m2, [r] + rs)
  }

  lemma {:induction false} OpensGrow(m: Model, ops: seq<Op>)
    ensures m.opens <= ModelRun(m, ops).0.opens
    decreases |ops|
  {
    if ops != [] {
      hide Normalize, ModelRun, ModelRead, ModelSeek;
      OpensGrow(ModelStep(m, ops[0]).0, ops[1..]);
      ModelRunStep(m, ops);
    }
  }

  lemma ModelRunStep(m: Model, ops: seq<Op>)
    requires ops != []
    ensures ModelRun(m, ops).0 == ModelRun(ModelStep(m, ops[0]).0, ops[1..]).0
    ensures ModelRun(m, ops).1 == [ModelStep(m, ops[0]).1] + ModelRun(ModelStep(m, ops[0]).0, ops[1..]).1
  {
    hide ModelStep;
  }

  lemma RunStep(s: Vfs, ops: seq<Op>)
    requires ops != []
    ensures Run(s, ops).0 == Run(Step(s, ops[0]).0, ops[1..]).0
    ensures Run(s, ops).1 == [Step(s, ops[0]).1] + Run(Step(s, ops[0]).0, ops[1..]).1
  {
    hide Step;
  }

  lemma OpenCounts(m: Model, op: Op)
    requires op.Open?
    ensures ModelStep(m, op).0.opens == m.opens + 1 || (ModelStep(m, op).0 == m && ModelStep(m, op).1 == Nothing)
  {
    hide Normalize;
  }

  /** Any interleaving of calls, over any number of handles, answers exactly as the model
      does, for as long as at most 2^32 opens succeed. */
  lemma {:induction false} RunRefines(s: Vfs, m: Model, ops: seq<Op>)
    requires Refines(s, m) && ModelRun(m, ops).0.opens <= U32
    ensures Run(s, ops).1 == ModelRun(m, ops).1
    ensures Refines(Run(s, ops).0, ModelRun(m, ops).0)
    decreases |ops|
  {
    hide Refines, Step, ModelStep, Run, ModelRun;
    if ops == [] {
      assert Run(s, ops) == (s, []) && ModelRun(m, ops) == (m, []) by { RunNothing(s, m); }
    } else {
      RunStep(s, ops);
      ModelRunStep(m, ops);
      var m1 := ModelStep(m, ops[0]).0;
      OpensGrow(m1, ops[1..]);
      if ops[0].Open? {
        OpenCounts(m, ops[0]);
      }
      if ops[0].Open? && m.opens >= U32 {
        FailedOpenRefines(s, m, ops[0]);
      } else {
        StepRefines(s, m, ops[0]);
      }
      RunRefines(Step(s, ops[0]).0, m1, ops[1..]);
    }
  }

  lemma RunNothing(s: Vfs, m: Model)
    ensures Run(s, []) == (s, []) && ModelRun(m, []) == (m, [])
  {}

  /** An open that fails changes nothing on either side. */
  lemma FailedOpenRefines(s: Vfs, m: Model, op: Op)
    requires Refines(s, m) && op.Open? && ModelStep(m, op).0 == m && ModelStep(m, op).1 == Nothing
    ensures Step(s, op) == (s, Nothing)
  {
    hide Normalize, SameHandles;
    FilesMatch(s, m, Normalize(op.path));
  }

  /** One call more at the end. */
  lemma {:induction false} RunSnoc(s: Vfs, ops: seq<Op>, op: Op)
    ensures var (m, rs) := Run(s, ops);
      Run(s, ops + [op]) == (Step(m, op).0, rs + [Step(m, op).1])
    decreases |ops|
  {
    hide Step;
    if ops == [] {
      assert ops + [op] == [op] && [op][1..] == [];
      RunStep(s, [op]);
      var r := Step(s, op).1;
      assert [r] + [] == [] + [r];
    } else {
      var s1 := Step(s, ops[0]).0;
      assert (ops + [op])[1..] == ops[1..] + [op];
      RunSnoc(s1, ops[1..], op);
      RunStep(s, ops);
      RunStep(s, ops + [op]);
      var (m, rs) := Run(s1, ops[1..]);
      var first, last := Step(s, ops[0]).1, Step(m, op).1;
      assert [first] + (rs + [last]) == ([first] + rs) + [last];
    }
  }

  /** From the empty filesystem. */
  lemma FreshRuns(ops: seq<Op>)
    requires ModelRun(NO_FILES, ops).0.opens <= U32
    ensures Run(EMPTY, ops).1 == ModelRun(NO_FILES, ops).1
  {
    hide Run, ModelRun;
    RunRefines(EMPTY, NO_FILES, ops);
  }

  // ===== what a call leaves alone =====

  /** The handle a call works through. */
  function Through(op: Op): Option<u32> {
    match op
    case Close(h) => Some(h)
    case ReadAt(h, _) => Some(h)
    case WriteAt(h, _) => Some(h)
    case Seek(h, _) => Some(h)
    case SeekHandle(h, _, _) => Some(h)
    case Size(h) => Some(h)
    case _ => None
  }

  /** A call through a handle touches no other handle and, if it writes, only the file that
      handle names; without write access it changes no file, without read access it reads
      none, and a handle nobody holds does nothing. */
  lemma HandleFrame(s: Vfs, op: Op)
    requires Through(op).Some?
    ensures var (r, h) := (Step(s, op).0, Through(op).value);
      && r.nextHandle == s.nextHandle
      && (forall x :: x != h ==> (x in r.open <==> x in s.open) && (x in s.open ==> r.open[x] == s.open[x]))
      && r.files.Keys == s.files.Keys
      && (forall p :: p in s.files && r.files[p] != s.files[p] ==>
            op.WriteAt? && h in s.open && s.open[h].access.AllowsWrite() && p == s.open[h].path)
      && (h !in s.open ==> r == s)
      && (h in s.open && h in r.open ==> r.open[h].path == s.open[h].path && r.open[h].access == s.open[h].access)
      && (Step(s, op).1.Data? ==> h in s.open && s.open[h].access.AllowsRead())
  {
    hide Overwritten;
  }

  predicate KeysNormal(s: Vfs) { AllNormal(s.files) && forall h :: h in s.open ==> Normal(s.open[h].path) }

  /** Every key ever stored is in normal form, which is what `readdir` relies on. */
  lemma StepKeepsNormal(s: Vfs, op: Op)
    requires KeysNormal(s)
    ensures KeysNormal(Step(s, op).0)
  {
    hide Normal, Normalize, Overwritten, Resized;
    match op
    case Insert(path, _) => NormalizeNormal(path);
    case Open(path, _) => NormalizeNormal(path);
    case _ =>
  }

  lemma {:induction false} RunKeepsNormal(s: Vfs, ops: seq<Op>)
    requires KeysNormal(s)
    ensures KeysNormal(Run(s, ops).0)
    decreases |ops|
  {
    hide KeysNormal, Step, Run;
    if ops == [] {
      assert Run(s, ops) == (s, []) by { RunNothing(s, NO_FILES); }
    } else {
      RunStep(s, ops);
      StepKeepsNormal(s, ops[0]);
      RunKeepsNormal(Step(s, ops[0]).0, ops[1..]);
    }
  }

  /** A relative seek lands where the sum says, or at zero below it, exactly when the sum
      fits in 63 bits. */
  lemma SeekExact(base: u64, off: i32)
    ensures SeekPos(base, off) == (if base + off > 0 then base + off else 0) <==> base + off < I64_END
  {
    var sum := base + off;
    assert sum < 0 ==> sum % U64 == sum + U64;
    assert 0 <= sum < U64 ==> sum % U64 == sum;
    assert sum >= U64 ==> sum % U64 == sum - U64;
  }

  /** Reading back what was just written, and zero in any gap below it. */
  lemma ReadBack(s: Vfs, h: u32, data: seq<byte>)
    requires h in s.open && s.open[h].access.ReadWrite? && s.open[h].path in s.files
    requires s.open[h].pos + |data| < I64_END
    ensures var (pos, size) := (s.open[h].pos, |s.files[s.open[h].path]|);
      var w := Step(s, WriteAt(h, data)).0;
      && Step(Step(w, Seek(h, pos)).0, ReadAt(h, |data|)).1 == Data(data)
      && (size < pos ==> Step(Step(w, Seek(h, size)).0, ReadAt(h, pos - size)).1 == Data(Zeros(pos - size)))
  {
    hide Overwritten;
    var pos, file := s.open[h].pos, s.files[s.open[h].path];
    var after := Overwritten(file, pos, data);
    assert after[pos..pos + |data|] == data by {
      forall i | 0 <= i < |data| ensures after[pos + i] == data[i] { OverwrittenAt(file, pos, data, pos + i); }
    }
    if |file| < pos {
      assert after[|file|..pos] == Zeros(pos - |file|) by {
        forall i | |file| <= i < pos ensures after[i] == 0 { OverwrittenAt(file, pos, data, i); }
      }
    }
  }
}
