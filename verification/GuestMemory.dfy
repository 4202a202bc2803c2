/** Guest memory as the scheduler sees it: bytes with read and write permission, and
    32-bit words read and written one byte at a time with wrapping addresses. */
module GuestMemory {
  import opened Bytes
  import opened Outcome

  datatype Cell = Cell(value: byte, readable: bool, writable: bool)

  type Memory = map<u32, Cell>

  function Plus(a: u32, k: nat): u32 { (a + k) % U32 }

  function Load8(m: Memory, a: u32): Option<byte> {
    if a in m && m[a].readable then Some(m[a].value) else None
  }

  function Store8(m: Memory, a: u32, v: byte): Option<Memory> {
    if a in m && m[a].writable then Some(m[a := m[a].(value := v)]) else None
  }

  /** `load32`: faults when any of the four bytes does. */
  function Load32(m: Memory, a: u32): Option<u32> {
    var b0 :- Load8(m, a);
    var b1 :- Load8(m, Plus(a, 1));
    var b2 :- Load8(m, Plus(a, 2));
    var b3 :- Load8(m, Plus(a, 3));
    Some(Word([b0, b1, b2, b3]))
  }

  function Word(bytes: seq<byte>): u32
    requires |bytes| == 4
  {
    Pow256Values();
    FromLE(bytes)
  }

  /** `store32`: a fault part-way leaves the earlier bytes written. */
  function Store32(m: Memory, a: u32, v: u32): (r: (Memory, bool)) {
    var bytes := LE(v, 4);
    match Store8(m, a, bytes[0])
    case None => (m, false)
    case Some(m0) =>
      match Store8(m0, Plus(a, 1), bytes[1])
      case None => (m0, false)
      case Some(m1) =>
        match Store8(m1, Plus(a, 2), bytes[2])
        case None => (m1, false)
        case Some(m2) =>
          match Store8(m2, Plus(a, 3), bytes[3])
          case None => (m2, false)
          case Some(m3) => (m3, true)
  }

  lemma WordOfBytes(v: u32)
    ensures Word(LE(v, 4)) == v
  {
    ReadOfWrite(v, 4);
    Pow256Values();
    assert v % U32 == v;
  }

  /** After a store that succeeds the word reads as the stored value, or not at all. */
  lemma StoreThenLoad(m: Memory, a: u32, v: u32)
    requires Store32(m, a, v).1
    ensures Load32(Store32(m, a, v).0, a) in {None, Some(v)}
  {
    hide FromLE, LE;
    var n := Store32(m, a, v).0;
    var bytes := LE(v, 4);
    assert Plus(a, 1) != a && Plus(a, 2) != a && Plus(a, 3) != a;
    assert Plus(a, 1) != Plus(a, 2) && Plus(a, 1) != Plus(a, 3) && Plus(a, 2) != Plus(a, 3);
    assert n[a].value == bytes[0] && n[Plus(a, 1)].value == bytes[1];
    assert n[Plus(a, 2)].value == bytes[2] && n[Plus(a, 3)].value == bytes[3];
    if Load32(n, a).Some? {
      assert [bytes[0], bytes[1], bytes[2], bytes[3]] == bytes;
      WordOfBytes(v);
    }
  }
}
