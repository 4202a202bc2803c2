/** Compiler metadata in EVM bytecode: the trailer at the end of the code, and the
    backward scan for a Vyper trailer followed by data. */
module EvmMetadata {
  import opened Bytes
  import opened Outcome
  import opened Cbor

  datatype Metadata = Metadata(offset: nat, end: nat, value: Cbor)

  /** Depth-first search for a text key in any nested map. */
  function FindKey(v: Cbor, key: seq<byte>): Option<Cbor>
    decreases v, 1, 0
  {
    match v
    case Map(entries) => FindInEntries(v, 0, key)
    case Array(items) => FindInItems(v, 0, key)
    case _ => None
  }

  function FindInEntries(v: Cbor, i: nat, key: seq<byte>): Option<Cbor>
    requires v.Map?
    decreases v, 0, |v.entries| - i
  {
    if i >= |v.entries| then None
    else
      var e := v.entries[i];
      assert e in v.entries;
      var here := if e.0 == Text(key) then Some(e.1) else FindKey(e.1, key);
      if here.Some? then here else FindInEntries(v, i + 1, key)
  }

  function FindInItems(v: Cbor, i: nat, key: seq<byte>): Option<Cbor>
    requires v.Array?
    decreases v, 0, |v.items| - i
  {
    if i >= |v.items| then None
    else
      var here := FindKey(v.items[i], key);
      if here.Some? then here else FindInItems(v, i + 1, key)
  }

  /** Some map nested in arrays and map values has `key` as a text key. */
  predicate HasKey(v: Cbor, key: seq<byte>)
    decreases v
  {
    match v
    case Map(entries) =>
      exists i :: 0 <= i < |entries| && (entries[i].0 == Text(key) || HasKey(entries[i].1, key))
    case Array(items) => exists i :: 0 <= i < |items| && HasKey(items[i], key)
    case _ => false
  }

  lemma {:induction false} FindKeyExact(v: Cbor, key: seq<byte>)
    ensures FindKey(v, key).Some? <==> HasKey(v, key)
    decreases v, 1, 0
  {
    match v
    case Map(entries) => FindInEntriesExact(v, 0, key);
    case Array(items) => FindInItemsExact(v, 0, key);
    case _ =>
  }

  lemma {:induction false} FindInEntriesExact(v: Cbor, i: nat, key: seq<byte>)
    requires v.Map? && i <= |v.entries|
    ensures FindInEntries(v, i, key).Some? <==>
      exists j :: i <= j < |v.entries| && (v.entries[j].0 == Text(key) || HasKey(v.entries[j].1, key))
    decreases v, 0, |v.entries| - i
  {
    hide FindKey, HasKey;
    if i < |v.entries| {
      assert v.entries[i] in v.entries;
      FindKeyExact(v.entries[i].1, key);
      FindInEntriesExact(v, i + 1, key);
    }
  }

  lemma {:induction false} FindInItemsExact(v: Cbor, i: nat, key: seq<byte>)
    requires v.Array? && i <= |v.items|
    ensures FindInItems(v, i, key).Some? <==> exists j :: i <= j < |v.items| && HasKey(v.items[j], key)
    decreases v, 0, |v.items| - i
  {
    hide FindKey, HasKey;
    if i < |v.items| {
      FindKeyExact(v.items[i], key);
      FindInItemsExact(v, i + 1, key);
    }
  }

  predicate Mentions(v: Cbor, keys: seq<seq<byte>>) {
    exists k :: k in keys && FindKey(v, k).Some?
  }

  const VYPER: seq<byte> := [0x76, 0x79, 0x70, 0x65, 0x72]

  /** "solc", "vyper", "ipfs", "bzzr0", "bzzr1", "experimental". */
  const KNOWN: seq<seq<byte>> := [
    [0x73, 0x6f, 0x6c, 0x63], VYPER, [0x69, 0x70, 0x66, 0x73],
    [0x62, 0x7a, 0x7a, 0x72, 0x30], [0x62, 0x7a, 0x7a, 0x72, 0x31],
    [0x65, 0x78, 0x70, 0x65, 0x72, 0x69, 0x6d, 0x65, 0x6e, 0x74, 0x61, 0x6c]]

  /** The length word at the end. */
  function Stated(code: seq<byte>): nat
    requires |code| >= 2
  {
    var high: int, low: int := code[|code| - 2], code[|code| - 1];
    high * 256 + low
  }

  function TrailerOf(utf8: seq<byte> -> bool, code: seq<byte>, size: nat, keys: seq<seq<byte>>): Option<Metadata>
    requires |code| >= 2
  {
    if size == 0 || size + 2 > |code| then None
    else
      var offset := |code| - 2 - size;
      var body := code[offset..|code| - 2];
      var (value, end) :- Parse(utf8, body, 0, 0);
      if end == |body| && (value.Map? || value.Array?) && Mentions(value, keys)
      then Some(Metadata(offset, |code|, value)) else None
  }

  /** `metadata_trailer`. */
  function Trailer(utf8: seq<byte> -> bool, code: seq<byte>): Option<Metadata> {
    if |code| < 2 then None
    else
      var stated := Stated(code);
      var first := TrailerOf(utf8, code, stated, KNOWN);
      if first.Some? then first
      else if stated < 2 then None
      else TrailerOf(utf8, code, stated - 2, [VYPER])
  }

  /** `code` ends with `md`: one map or array that fills the span, and a two-byte length
      equal to its size or, for Vyper, its size plus two. */
  predicate EndsWith(utf8: seq<byte> -> bool, code: seq<byte>, md: Metadata) {
    && md.end == |code| && md.offset + 2 < |code|
    && var body := code[md.offset..|code| - 2];
    && Parse(utf8, body, 0, 0) == Some((md.value, |body|))
    && (md.value.Map? || md.value.Array?)
    && (|| (Stated(code) == |body| && Mentions(md.value, KNOWN))
        || (Stated(code) == |body| + 2 && Mentions(md.value, [VYPER])))
  }

  lemma TrailerOfExact(utf8: seq<byte> -> bool, code: seq<byte>, size: nat, keys: seq<seq<byte>>, md: Metadata)
    requires |code| >= 2 && md.end == |code| && md.offset + 2 < |code| && |code| - 2 - md.offset == size
    requires var body := code[md.offset..|code| - 2];
      && Parse(utf8, body, 0, 0) == Some((md.value, |body|))
      && (md.value.Map? || md.value.Array?) && Mentions(md.value, keys)
    ensures TrailerOf(utf8, code, size, keys) == Some(md)
  {
    hide Parse, Mentions;
  }

  /** A trailer is reported exactly when the code ends with one. */
  lemma TrailerExact(utf8: seq<byte> -> bool, code: seq<byte>)
    ensures Trailer(utf8, code).Some? ==> EndsWith(utf8, code, Trailer(utf8, code).value)
    ensures (exists md :: EndsWith(utf8, code, md)) ==> Trailer(utf8, code).Some?
  {
    hide Parse, Mentions;
    if md :| EndsWith(utf8, code, md) {
      var size := |code| - 2 - md.offset;
      if Stated(code) == size && Mentions(md.value, KNOWN) {
        TrailerOfExact(utf8, code, size, KNOWN, md);
      } else {
        TrailerOfExact(utf8, code, size, [VYPER], md);
      }
    }
  }

  // ===== the backward scan =====

  const KEY: seq<byte> := [0x65, 0x76, 0x79, 0x70, 0x65, 0x72]

  predicate KeyAt(code: seq<byte>, p: nat) { p + 6 <= |code| && code[p..p + 6] == KEY }

  lemma KeyBytes(code: seq<byte>, p: nat)
    requires KeyAt(code, p)
    ensures forall i :: 0 <= i < 6 ==> code[p + i] == KEY[i]
  {
    forall i | 0 <= i < 6 ensures code[p + i] == KEY[i] {
      assert code[p..p + 6][i] == code[p + i];
    }
  }

  /** The key cannot overlap itself, so resuming before a hit misses nothing. */
  lemma NoSelfOverlap(code: seq<byte>, p: nat, q: nat)
    requires KeyAt(code, p) && KeyAt(code, q) && p < q
    ensures q >= p + 6
  {
    KeyBytes(code, p);
    KeyBytes(code, q);
    assert code[p + 1] == KEY[1] && code[p + 2] == KEY[2] && code[p + 3] == KEY[3] && code[p + 5] == KEY[5];
    assert code[q + 0] == KEY[0] && code[q + 1] == KEY[1];
  }

  /** The trailer whose map starts at `start`, if one does. */
  function Candidate(utf8: seq<byte> -> bool, code: seq<byte>, start: nat): Option<Metadata> {
    var (_, end) :- Parse(utf8, code, start, 0);
    if end + 2 > |code| then None
    else
      var md :- Trailer(utf8, code[..end + 2]);
      if md.offset == start then Some(md) else None
  }

  /** A candidate is one item read in place, the same item its trailer names. */
  lemma CandidateExact(utf8: seq<byte> -> bool, code: seq<byte>, start: nat)
    requires Candidate(utf8, code, start).Some?
    ensures var md := Candidate(utf8, code, start).value;
      && md.offset == start && md.end <= |code|
      && EndsWith(utf8, code[..md.end], md)
      && Parse(utf8, code, start, 0) == Some((md.value, md.end - 2))
  {
    hide Parse, Mentions, Trailer;
    var md := Candidate(utf8, code, start).value;
    var (v, end) := Parse(utf8, code, start, 0).value;
    var prefix := code[..end + 2];
    TrailerExact(utf8, prefix);
    var body := prefix[start..end];
    SliceOfSlice(code, 0, end + 2, start, end);
    assert body[0..|body|] == body && code[0..end + 2] == prefix;
    ParseLocal(utf8, body, 0, 0, code, start);
  }

  /** `rposition` over the windows of `code[..from]`. */
  method LastKey(code: seq<byte>, from: nat) returns (r: Option<nat>)
    requires from <= |code|
    ensures r.Some? ==> r.value + 6 <= from && KeyAt(code, r.value)
    ensures r.Some? ==> forall q :: r.value < q && q + 6 <= from ==> !KeyAt(code, q)
    ensures r.None? ==> forall q: nat :: q + 6 <= from ==> !KeyAt(code, q)
  {
    var k := from;
    while k >= 6
      invariant k <= from
      invariant forall q: nat :: k < q + 6 <= from ==> !KeyAt(code, q)
    {
      if code[k - 6..k] == KEY {
        return Some(k - 6);
      }
      k := k - 1;
    }
    r := None;
  }

  /** Position `p` opens a trailer, and no later one does. */
  ghost predicate LastCandidate(utf8: seq<byte> -> bool, code: seq<byte>, p: nat) {
    && p > 0 && KeyAt(code, p) && Candidate(utf8, code, p - 1).Some?
    && forall q :: p < q && KeyAt(code, q) ==> Candidate(utf8, code, q - 1).None?
  }

  /** `find_metadata`. */
  method FindMetadata(utf8: seq<byte> -> bool, code: seq<byte>) returns (r: Option<Metadata>)
    ensures Trailer(utf8, code).Some? ==> r == Trailer(utf8, code)
    ensures Trailer(utf8, code).None? && r.Some? ==>
      LastCandidate(utf8, code, r.value.offset + 1) && Candidate(utf8, code, r.value.offset) == r
    ensures r.None? ==> forall q :: 0 < q && KeyAt(code, q) ==> Candidate(utf8, code, q - 1).None?
    ensures r.Some? ==> r.value.end <= |code| && EndsWith(utf8, code[..r.value.end], r.value)
  {
    hide Parse, Mentions, EndsWith, Trailer, Candidate, KeyAt;
    r := Trailer(utf8, code);
    if r.Some? {
      TrailerExact(utf8, code);
      assert code[..|code|] == code;
      EndIsLength(utf8, code, r.value);
      return;
    }
    var from: nat := |code|;
    assert forall q: nat :: KeyAt(code, q) ==> q + 6 <= from by {
      forall q: nat | KeyAt(code, q) ensures q + 6 <= from { KeyFits(code, q); }
    }
    while true
      invariant from <= |code|
      invariant forall q :: 0 < q && KeyAt(code, q) && q + 6 > from ==> Candidate(utf8, code, q - 1).None?
      decreases from
    {
      var hit := LastKey(code, from);
      if hit.None? {
        return None;
      }
      var pos := hit.value;
      forall q: nat | KeyAt(code, q) && q < pos ensures q + 6 <= pos {
        NoSelfOverlap(code, q, pos);
      }
      from := pos;
      if pos == 0 {
        return None;
      }
      r := Candidate(utf8, code, pos - 1);
      if r.Some? {
        CandidateExact(utf8, code, pos - 1);
        return;
      }
    }
  }

  lemma KeyFits(code: seq<byte>, q: nat)
    requires KeyAt(code, q)
    ensures q + 6 <= |code|
  {}

  lemma EndIsLength(utf8: seq<byte> -> bool, code: seq<byte>, md: Metadata)
    requires EndsWith(utf8, code, md)
    ensures md.end == |code|
  {
    hide Parse;
  }
}
