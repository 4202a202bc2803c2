/** The filesystem object: maps updated in place, each call proved against `VirtualFs.Step`. */
module VirtualFsProgram {
  import opened Bytes
  import opened Paths
  import opened Directories
  import V = VirtualFs

  class VirtualDisk {
    var files: Files
    var open: map<u32, V.FileHandle>
    var nextHandle: u32

    ghost function View(): V.Vfs
      reads this
    {
      V.Vfs(files, open, nextHandle)
    }

    constructor ()
      ensures View() == V.EMPTY && V.KeysNormal(View())
    {
      files := map[];
      open := map[];
      nextHandle := 0;
    }

    method Insert(path: string, bytes: seq<byte>)
      modifies this
      ensures View() == V.Step(old(View()), V.Insert(path, bytes)).0
    {
      var key := NormalizePath(path);
      files := files[key := bytes];
    }

    method Remove(path: string) returns (r: V.Reply)
      modifies this
      ensures (View(), r) == V.Step(old(View()), V.Remove(path))
    {
      hide Normalize;
      var key := NormalizePath(path);
      r := V.Flag(key in files);
      files := files - {key};
    }

    /** `truncate`. */
    method Truncate(path: string, len: u64) returns (r: V.Reply)
      modifies this
      ensures (View(), r) == V.Step(old(View()), V.Truncate(path, len))
    {
      hide Normalize;
      var key := NormalizePath(path);
      if key !in files {
        return V.Flag(false);
      }
      if len >= V.I64_END {
        return V.Panic;
      }
      files := files[key := V.Resized(files[key], len)];
      r := V.Flag(true);
    }

    /** `open`: creates for writing, refuses to read what is not there. */
    method Open(path: string, access: V.Access) returns (r: V.Reply)
      modifies this
      ensures (View(), r) == V.Step(old(View()), V.Open(path, access))
    {
      hide Normalize;
      var key := NormalizePath(path);
      var present := key in files;
      if !present {
        if !access.AllowsWrite() {
          return V.Nothing;
        }
        files := files[key := []];
      }
      var handle := (V.HANDLE_BASE + nextHandle) % U32;
      nextHandle := (nextHandle + 1) % U32;
      open := open[handle := V.FileHandle(key, 0, access)];
      r := V.Handle(handle);
    }

    method Close(h: u32) returns (r: V.Reply)
      modifies this
      ensures (View(), r) == V.Step(old(View()), V.Close(h))
    {
      r := V.Flag(h in open);
      open := open - {h};
    }

    /** `read_handle`; the bytes are what is copied into the caller's buffer. */
    method ReadHandle(h: u32, count: nat) returns (r: V.Reply)
      modifies this
      ensures (View(), r) == V.Step(old(View()), V.ReadAt(h, count))
    {
      if h !in open {
        return V.Nothing;
      }
      var fh := open[h];
      if !fh.access.AllowsRead() {
        return V.Nothing;
      }
      if fh.path !in files {
        return V.Nothing;
      }
      var file := files[fh.path];
      if fh.pos >= |file| {
        return V.Data([]);
      }
      var n := if count <= |file| - fh.pos then count else |file| - fh.pos;
      open := open[h := fh.(pos := (fh.pos + n) % U64)];
      r := V.Data(file[fh.pos..fh.pos + n]);
    }

    /** `write_handle`. */
    method WriteHandle(h: u32, data: seq<byte>) returns (r: V.Reply)
      modifies this
      ensures (View(), r) == V.Step(old(View()), V.WriteAt(h, data))
    {
      if h !in open {
        return V.Nothing;
      }
      var fh := open[h];
      if !fh.access.AllowsWrite() {
        return V.Nothing;
      }
      if fh.path !in files {
        return V.Nothing;
      }
      if fh.pos + |data| >= V.I64_END {
        return V.Panic;
      }
      var file := files[fh.path];
      if fh.pos + |data| > |file| {
        file := V.Resized(file, fh.pos + |data|);
      }
      file := file[..fh.pos] + data + file[fh.pos + |data|..];
      files := files[fh.path := file];
      open := open[h := fh.(pos := fh.pos + |data|)];
      r := V.Number(|data|);
    }

    method Seek(h: u32, to: u64) returns (r: V.Reply)
      modifies this
      ensures (View(), r) == V.Step(old(View()), V.Seek(h, to))
    {
      if h !in open {
        return V.Nothing;
      }
      open := open[h := open[h].(pos := to)];
      r := V.Number(to);
    }

    /** `seek_handle`. */
    method SeekHandle(h: u32, off: i32, whence: nat) returns (r: V.Reply)
      modifies this
      ensures (View(), r) == V.Step(old(View()), V.SeekHandle(h, off, whence))
    {
      var base: nat := 0;
      if whence == 1 {
        if h !in open {
          return V.Nothing;
        }
        base := open[h].pos;
      } else if whence == 2 {
        if h !in open || open[h].path !in files {
          return V.Nothing;
        }
        base := |files[open[h].path]|;
      }
      var pos := V.SeekPos(base % U64, off);
      if h !in open {
        return V.Nothing;
      }
      open := open[h := open[h].(pos := pos)];
      r := V.Number(pos);
    }

    /** One call, whichever it is. */
    method Perform(op: V.Op) returns (r: V.Reply)
      modifies this
      ensures (View(), r) == V.Step(old(View()), op)
    {
      hide V.DoOpen, V.DoRead, V.DoWrite, V.DoSeekHandle, Normalize;
      match op
      case Insert(path, bytes) =>
        Insert(path, bytes);
        r := V.Nothing;
      case Remove(path) => r := Remove(path);
      case Truncate(path, len) => r := Truncate(path, len);
      case Open(path, access) => r := Open(path, access);
      case Close(h) => r := Close(h);
      case ReadAt(h, count) => r := ReadHandle(h, count);
      case WriteAt(h, data) => r := WriteHandle(h, data);
      case Seek(h, to) => r := Seek(h, to);
      case SeekHandle(h, off, whence) => r := SeekHandle(h, off, whence);
      case Size(h) =>
        r := if h in open && open[h].path in files then V.Number(|files[open[h].path]|) else V.Nothing;
    }

    /** A list of calls on the object: it answers, and ends, as the model of byte functions
        and positions does, for as long as at most 2^32 opens succeed. */
    method PerformAll(ops: seq<V.Op>, ghost m: V.Model) returns (replies: seq<V.Reply>)
      modifies this
      ensures (View(), replies) == V.Run(old(View()), ops)
      ensures V.Refines(old(View()), m) && V.ModelRun(m, ops).0.opens <= U32 ==>
        replies == V.ModelRun(m, ops).1 && V.Refines(View(), V.ModelRun(m, ops).0)
    {
      hide V.Step, V.Run, V.ModelRun, V.Refines;
      ghost var before := View();
      replies := [];
      assert ops[..0] == [] && V.Run(before, []) == (before, []) by { V.RunNothing(before, m); }
      for i := 0 to |ops|
        invariant V.Run(before, ops[..i]) == (View(), replies)
      {
        V.RunSnoc(before, ops[..i], ops[i]);
        assert ops[..i + 1] == ops[..i] + [ops[i]];
        var r := Perform(ops[i]);
        replies := replies + [r];
      }
      assert ops[..|ops|] == ops;
      if V.Refines(before, m) && V.ModelRun(m, ops).0.opens <= U32 {
        V.RunRefines(before, m, ops);
      }
    }
  }
}
