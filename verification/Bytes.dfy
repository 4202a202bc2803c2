/** Bytes, little-endian fields, and in-place patches of a byte buffer.
    Both container formats are written as a list of patches over a zeroed buffer. */
module Bytes {
  type byte = x: int | 0 <= x < 256
  type u32 = x: int | 0 <= x < U32 witness 0
  type u64 = x: int | 0 <= x < U64 witness 0
  type i32 = x: int | -0x8000_0000 <= x < 0x8000_0000 witness 0

  const U16: nat := 0x1_0000
  const U32: nat := 0x1_0000_0000
  const U64: nat := 0x1_0000_0000_0000_0000

  function Pow256(n: nat): (r: nat)
    ensures r > 0
  {
    if n == 0 then 1 else 256 * Pow256(n - 1)
  }

  lemma Pow256Values()
    ensures Pow256(2) == U16 && Pow256(4) == U32 && Pow256(8) == U64
  {
    assert Pow256(2) == 0x1_0000;
    assert Pow256(4) == 0x1_0000 * Pow256(2);
    assert Pow256(6) == 0x1_0000 * Pow256(4);
    assert Pow256(8) == 0x1_0000 * Pow256(6);
  }

  /** `from_le_bytes`. */
  function FromLE(s: seq<byte>): (r: nat)
    ensures r < Pow256(|s|)
  {
    if s == [] then 0 else s[0] + 256 * FromLE(s[1..])
  }

  /** The `n`-byte little-endian integer at `at`. */
  function ReadLE(s: seq<byte>, at: nat, n: nat): (r: nat)
    requires at + n <= |s|
    ensures r < Pow256(n)
  {
    FromLE(s[at..at + n])
  }

  /** The low `n` bytes of `v`, least significant first: a cast to the narrower
      type followed by `to_le_bytes`. */
  function LE(v: nat, n: nat): (r: seq<byte>)
    ensures |r| == n
  {
    if n == 0 then [] else [v % 256] + LE(v / 256, n - 1)
  }

  lemma {:induction false} WriteOfRead(s: seq<byte>)
    ensures LE(FromLE(s), |s|) == s
  {
    if s != [] {
      WriteOfRead(s[1..]);
      LowByte(s[0], FromLE(s[1..]));
      assert s == [s[0]] + s[1..];
    }
  }

  lemma LowByte(b: byte, x: nat)
    ensures (b + 256 * x) % 256 == b && (b + 256 * x) / 256 == x
  {}

  lemma {:induction false} ReadOfWrite(v: nat, n: nat)
    ensures FromLE(LE(v, n)) == v % Pow256(n)
  {
    if n > 0 {
      ReadOfWrite(v / 256, n - 1);
      assert LE(v, n)[1..] == LE(v / 256, n - 1);
      ModSplit(v, Pow256(n - 1));
    }
  }

  lemma ModSplit(v: nat, m: nat)
    requires m > 0
    ensures v % (256 * m) == v % 256 + 256 * ((v / 256) % m)
  {
    var q, r := (v / 256) / m, (v / 256) % m;
    assert v / 256 == q * m + r;
    var low := v % 256 + 256 * r;
    assert v == 256 * (q * m + r) + v % 256;
    assert v == q * (256 * m) + low by { MulShuffle(q, m); }
    assert low < 256 * m;
    ModUnique(v, 256 * m, q, low);
  }

  lemma MulShuffle(q: int, m: int)
    ensures 256 * (q * m) == q * (256 * m)
  {}

  lemma ModUnique(v: nat, d: nat, q: nat, r: nat)
    requires d > 0 && v == q * d + r && r < d
    ensures v % d == r && v / d == q
  {
    var k := v / d - q;
    assert k * d == r - v % d by { MulDistribute(v / d, q, d); }
    if k >= 1 { MulMonotone(1, k, d); }
    if k <= -1 { MulMonotone(k, -1, d); }
    assert k == 0;
  }

  lemma MulDistribute(a: int, b: int, d: int)
    ensures (a - b) * d == a * d - b * d
  {}

  lemma MulMonotone(a: int, b: int, d: nat)
    requires a <= b
    ensures a * d <= b * d
  {}

  // ----- records laid out as fixed-width fields -----

  /** One integer field of an on-disk record: offset, width and value. */
  datatype Field = Field(at: nat, width: nat, value: nat)

  /** The fields follow each other without gap or overlap from `from` to `to`. */
  predicate Contiguous(fs: seq<Field>, from: nat, to: nat)
    decreases |fs|
  {
    if fs == [] then from == to
    else
      && fs[|fs| - 1].at + fs[|fs| - 1].width == to
      && Contiguous(fs[..|fs| - 1], from, fs[|fs| - 1].at)
  }

  /** The record `s` stores the field's value. */
  predicate Holds(s: seq<byte>, f: Field) {
    f.at + f.width <= |s| && ReadLE(s, f.at, f.width) == f.value
  }

  function FieldBytes(fs: seq<Field>): (r: seq<byte>)
    decreases |fs|
  {
    if fs == [] then []
    else FieldBytes(fs[..|fs| - 1]) + LE(fs[|fs| - 1].value, fs[|fs| - 1].width)
  }

  /** A pairwise form of `Contiguous` that is easy to establish for a literal layout. */
  lemma {:induction false} ContiguousSteps(fs: seq<Field>, from: nat, to: nat)
    requires fs != []
    requires fs[0].at == from && fs[|fs| - 1].at + fs[|fs| - 1].width == to
    requires forall i :: 0 < i < |fs| ==> fs[i].at == fs[i - 1].at + fs[i - 1].width
    ensures Contiguous(fs, from, to)
    decreases |fs|
  {
    var front := fs[..|fs| - 1];
    if front != [] {
      ContiguousSteps(front, from, fs[|fs| - 1].at);
    }
  }

  lemma {:induction false} FieldBytesLength(fs: seq<Field>, from: nat, to: nat)
    requires Contiguous(fs, from, to)
    ensures from <= to && |FieldBytes(fs)| == to - from
    decreases |fs|
  {
    if fs != [] {
      FieldBytesLength(fs[..|fs| - 1], from, fs[|fs| - 1].at);
    }
  }

  /** Writing back what was read from every field restores the record. */
  lemma {:induction false} FieldsRestore(fs: seq<Field>, s: seq<byte>, from: nat, to: nat)
    requires Contiguous(fs, from, to) && from <= to <= |s|
    requires forall i :: 0 <= i < |fs| ==> Holds(s, fs[i])
    ensures FieldBytes(fs) == s[from..to]
    decreases |fs|
  {
    hide LE, FromLE, Holds;
    if fs != [] {
      var last := fs[|fs| - 1];
      var front := fs[..|fs| - 1];
      FieldBytesLength(front, from, last.at);
      assert forall i :: 0 <= i < |front| ==> front[i] == fs[i];
      FieldsRestore(front, s, from, last.at);
      FieldRestores(s, last);
      assert s[from..to] == s[from..last.at] + s[last.at..to];
    }
  }

  lemma FieldRestores(s: seq<byte>, f: Field)
    requires Holds(s, f)
    ensures f.at + f.width <= |s| && LE(f.value, f.width) == s[f.at..f.at + f.width]
  {
    hide LE, FromLE;
    WriteOfRead(s[f.at..f.at + f.width]);
  }

  /** Reading a field of a written record gives its value, truncated to the field. */
  lemma {:induction false} FieldsRead(fs: seq<Field>, s: seq<byte>, from: nat, to: nat, k: nat)
    requires Contiguous(fs, from, to) && from <= to <= |s| && k < |fs|
    requires s[from..to] == FieldBytes(fs)
    ensures fs[k].at + fs[k].width <= |s|
    ensures ReadLE(s, fs[k].at, fs[k].width) == fs[k].value % Pow256(fs[k].width)
    decreases |fs|
  {
    var last := fs[|fs| - 1];
    var front := fs[..|fs| - 1];
    FieldBytesLength(front, from, last.at);
    FieldBytesLength(fs, from, to);
    assert s[from..last.at] == s[from..to][..last.at - from] == FieldBytes(front);
    assert s[last.at..to] == s[from..to][last.at - from..] == LE(last.value, last.width);
    if k == |fs| - 1 {
      ReadOfWrite(last.value, last.width);
    } else {
      FieldsRead(front, s, from, last.at, k);
    }
  }

  // ----- patches -----

  /** Every value fits the width of its field. */
  predicate FieldsFit(fs: seq<Field>) {
    forall f <- fs :: f.value < Pow256(f.width)
  }

  lemma HeldFieldsFit(fs: seq<Field>, s: seq<byte>)
    requires forall i :: 0 <= i < |fs| ==> Holds(s, fs[i])
    ensures FieldsFit(fs)
  {}

  lemma FitsModulo(v: nat, m: nat)
    requires v < m
    ensures v % m == v
  {}

  /** Each field of a layout whose values fit reads back exactly. */
  lemma FieldReadsBack(fs: seq<Field>, s: seq<byte>, from: nat, to: nat)
    requires Contiguous(fs, from, to) && from <= to <= |s| && s[from..to] == FieldBytes(fs)
    requires FieldsFit(fs)
    ensures forall i :: 0 <= i < |fs| ==> Holds(s, fs[i])
  {
    forall i | 0 <= i < |fs| ensures Holds(s, fs[i]) {
      FieldsRead(fs, s, from, to, i);
      assert fs[i] in fs;
      FitsModulo(fs[i].value, Pow256(fs[i].width));
    }
  }

  /** Overwrite `|data|` bytes at offset `at`. */
  datatype Patch = Patch(at: nat, data: seq<byte>) {
    function End(): nat { at + |data| }
    predicate Covers(i: int) { at <= i < End() }
  }

  function Put(s: seq<byte>, p: Patch): (r: seq<byte>)
    requires p.End() <= |s|
    ensures |r| == |s|
    ensures forall i :: 0 <= i < |s| ==> r[i] == if p.Covers(i) then p.data[i - p.at] else s[i]
  {
    s[..p.at] + p.data + s[p.End()..]
  }

  predicate Fit(ps: seq<Patch>, n: nat) {
    forall k :: 0 <= k < |ps| ==> ps[k].End() <= n
  }

  /** The patches applied one after the other. */
  function PutAll(s: seq<byte>, ps: seq<Patch>): (r: seq<byte>)
    requires Fit(ps, |s|)
    ensures |r| == |s|
    decreases |ps|
  {
    if ps == [] then s else Put(PutAll(s, ps[..|ps| - 1]), ps[|ps| - 1])
  }

  function Zeros(n: nat): (r: seq<byte>)
    ensures |r| == n
  {
    seq(n, _ => 0)
  }

  predicate Covered(ps: seq<Patch>, i: int) {
    exists k :: 0 <= k < |ps| && ps[k].Covers(i)
  }

  /** The patch writes exactly what `target` already holds there. */
  predicate Restores(p: Patch, target: seq<byte>) {
    p.End() <= |target| && target[p.at..p.End()] == p.data
  }

  predicate RestoresAll(ps: seq<Patch>, target: seq<byte>) {
    forall k :: 0 <= k < |ps| ==> Restores(ps[k], target)
  }

  predicate Disjoint(ps: seq<Patch>) {
    forall j, k :: 0 <= j < k < |ps| ==> ps[j].End() <= ps[k].at || ps[k].End() <= ps[j].at
  }

  /** Restoring patches, however they overlap and in whatever order they come,
      turn every covered byte into the target's byte and leave the others. */
  lemma {:induction false} RestoreEffect(s: seq<byte>, ps: seq<Patch>, target: seq<byte>)
    requires |s| == |target| && RestoresAll(ps, target)
    ensures Fit(ps, |s|)
    ensures forall i :: 0 <= i < |s| ==>
      PutAll(s, ps)[i] == if Covered(ps, i) then target[i] else s[i]
    decreases |ps|
  {
    if ps != [] {
      var front, last := ps[..|ps| - 1], ps[|ps| - 1];
      RestoreEffect(s, front, target);
      assert Fit(ps, |s|);
      forall i | 0 <= i < |s|
        ensures PutAll(s, ps)[i] == if Covered(ps, i) then target[i] else s[i]
      {
        if last.Covers(i) {
          assert ps[|ps| - 1].Covers(i);
          assert target[last.at..last.End()][i - last.at] == target[i];
        } else if Covered(front, i) {
          var k :| 0 <= k < |front| && front[k].Covers(i);
          assert ps[k].Covers(i);
        } else {
          assert forall k :: 0 <= k < |front| ==> front[k] == ps[k];
          assert !Covered(ps, i);
        }
      }
    }
  }

  lemma RestoreAll(s: seq<byte>, ps: seq<Patch>, target: seq<byte>)
    requires |s| == |target| && RestoresAll(ps, target)
    requires forall i :: 0 <= i < |target| ==> Covered(ps, i)
    ensures Fit(ps, |s|) && PutAll(s, ps) == target
  {
    RestoreEffect(s, ps, target);
  }

  /** Disjoint patches do not disturb one another: the result shows every one of them. */
  lemma {:induction false} DisjointRestored(s: seq<byte>, ps: seq<Patch>)
    requires Fit(ps, |s|) && Disjoint(ps)
    ensures RestoresAll(ps, PutAll(s, ps))
    decreases |ps|
  {
    if ps != [] {
      var front, last := ps[..|ps| - 1], ps[|ps| - 1];
      DisjointRestored(s, front);
      var before, after := PutAll(s, front), PutAll(s, ps);
      forall k | 0 <= k < |ps|
        ensures Restores(ps[k], after)
      {
        var p := ps[k];
        if k < |front| {
          assert Restores(front[k], before);
          assert after[p.at..p.End()] == before[p.at..p.End()];
        } else {
          assert after[p.at..p.End()] == p.data;
        }
      }
    }
  }

  /** The order in which disjoint patches are applied does not matter. */
  lemma OrderIrrelevant(s: seq<byte>, ps: seq<Patch>, qs: seq<Patch>)
    requires Fit(ps, |s|) && Disjoint(ps) && multiset(ps) == multiset(qs)
    ensures Fit(qs, |s|) && PutAll(s, qs) == PutAll(s, ps)
  {
    var r := PutAll(s, ps);
    DisjointRestored(s, ps);
    RestoreEffect(s, ps, r);
    forall k | 0 <= k < |qs| ensures Restores(qs[k], r) {
      assert qs[k] in multiset(ps);
      var j :| 0 <= j < |ps| && ps[j] == qs[k];
    }
    RestoreEffect(s, qs, r);
    forall i | 0 <= i < |s| ensures PutAll(s, qs)[i] == r[i] {
      if Covered(ps, i) {
        var k :| 0 <= k < |ps| && ps[k].Covers(i);
        assert ps[k] in multiset(qs);
        var j :| 0 <= j < |qs| && qs[j] == ps[k];
      }
    }
  }

  /** Two patches that touch at their ends act as one. */
  lemma PutJoin(s: seq<byte>, at: nat, a: seq<byte>, b: seq<byte>)
    requires at + |a| + |b| <= |s|
    ensures Put(Put(s, Patch(at, a)), Patch(at + |a|, b)) == Put(s, Patch(at, a + b))
  {}

  /** `copy_from_slice` into `out[at..at + data.len()]`. */
  method CopyInto(out: array<byte>, at: nat, data: seq<byte>)
    requires at + |data| <= out.Length
    modifies out
    ensures out[..] == Put(old(out[..]), Patch(at, data))
  {
    for i := 0 to |data|
      invariant forall k :: 0 <= k < out.Length ==>
        out[k] == if at <= k < at + i then data[k - at] else old(out[k])
    {
      out[at + i] := data[i];
    }
  }

  /** Write a record's fields at their offsets from `base`. */
  method WriteFields(out: array<byte>, base: nat, fs: seq<Field>, ghost from: nat, ghost to: nat)
    requires Contiguous(fs, from, to) && base + to <= out.Length
    modifies out
    ensures from <= to && |FieldBytes(fs)| == to - from
    ensures out[..] == Put(old(out[..]), Patch(base + from, FieldBytes(fs)))
    decreases |fs|
  {
    FieldBytesLength(fs, from, to);
    if fs != [] {
      var last := fs[|fs| - 1];
      FieldBytesLength(fs[..|fs| - 1], from, last.at);
      WriteFields(out, base, fs[..|fs| - 1], from, last.at);
      CopyInto(out, base + last.at, LE(last.value, last.width));
      PutJoin(old(out[..]), base + from, FieldBytes(fs[..|fs| - 1]), LE(last.value, last.width));
    }
  }

  lemma FitAppend(ps: seq<Patch>, qs: seq<Patch>, n: nat)
    ensures Fit(ps + qs, n) <==> Fit(ps, n) && Fit(qs, n)
  {
    if Fit(ps + qs, n) {
      forall k | 0 <= k < |ps| ensures ps[k].End() <= n { assert (ps + qs)[k] == ps[k]; }
      forall k | 0 <= k < |qs| ensures qs[k].End() <= n { assert (ps + qs)[|ps| + k] == qs[k]; }
    }
  }

  lemma RestoresAppend(ps: seq<Patch>, qs: seq<Patch>, s: seq<byte>)
    ensures RestoresAll(ps + qs, s) <==> RestoresAll(ps, s) && RestoresAll(qs, s)
  {
    if RestoresAll(ps + qs, s) {
      forall k | 0 <= k < |ps| ensures Restores(ps[k], s) { assert (ps + qs)[k] == ps[k]; }
      forall k | 0 <= k < |qs| ensures Restores(qs[k], s) { assert (ps + qs)[|ps| + k] == qs[k]; }
    }
  }

  lemma PutAllNone(s: seq<byte>)
    ensures Fit([], |s|) && PutAll(s, []) == s
  {}

  lemma PutAllStep(s: seq<byte>, ps: seq<Patch>, p: Patch)
    requires Fit(ps, |s|) && p.End() <= |s|
    ensures Fit(ps + [p], |s|) && PutAll(s, ps + [p]) == Put(PutAll(s, ps), p)
  {
    assert (ps + [p])[..|ps|] == ps;
  }

  /** Write patches one after the other. */
  method WritePatches(ps: seq<Patch>, out: array<byte>, ghost s: seq<byte>, ghost done: seq<Patch>)
    requires Fit(done, |s|) && Fit(ps, |s|) && |s| == out.Length && out[..] == PutAll(s, done)
    modifies out
    ensures Fit(done + ps, |s|) && out[..] == PutAll(s, done + ps)
  {
    hide PutAll, Put;
    assert done + ps[..0] == done;
    for i := 0 to |ps|
      invariant Fit(done + ps[..i], |s|) && out[..] == PutAll(s, done + ps[..i])
    {
      PutAllStep(s, done + ps[..i], ps[i]);
      CopyInto(out, ps[i].at, ps[i].data);
      assert done + ps[..i] + [ps[i]] == done + ps[..i + 1];
    }
    assert ps[..|ps|] == ps;
  }
}
