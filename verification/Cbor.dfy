/** The CBOR subset of compiler metadata (section 3 of RFC 8949, definite lengths only):
    the parser, why it depends only on the bytes it consumes, and an encoder it inverts. */
module Cbor {
  import opened Bytes
  import opened Outcome

  datatype Cbor = Uint(n: nat)
                | NegInt(n: nat)
                | Raw(bytes: seq<byte>)
                | Text(chars: seq<byte>)
                | Array(items: seq<Cbor>)
                | Map(entries: seq<(Cbor, Cbor)>)
                | Bool(b: bool)
                | Null

  const MAX_DEPTH: nat := 8
  const MAX_COUNT: nat := 64

  // ===== big-endian numbers and item heads =====

  function FromBE(s: seq<byte>): (r: nat)
    ensures r < Pow256(|s|)
  {
    if s == [] then 0
    else
      var n := |s| - 1;
      256 * FromBE(s[..n]) + s[n]
  }

  function ToBE(v: nat, n: nat): (r: seq<byte>)
    ensures |r| == n
  {
    if n == 0 then [] else ToBE(v / 256, n - 1) + [v % 256]
  }

  lemma {:induction false} FromToBE(v: nat, n: nat)
    requires v < Pow256(n)
    ensures FromBE(ToBE(v, n)) == v
  {
    if n > 0 {
      FromToBE(v / 256, n - 1);
      assert ToBE(v, n)[..n - 1] == ToBE(v / 256, n - 1);
    }
  }

  /** Major type, additional information, argument, and where the content starts. */
  datatype Head = Head(major: nat, info: nat, arg: nat, next: nat)

  function Width(info: nat): nat
    requires 24 <= info <= 27
  {
    if info == 24 then 1 else if info == 25 then 2 else if info == 26 then 4 else 8
  }

  function ReadHead(b: seq<byte>, pos: nat): (r: Option<Head>)
    ensures r.Some? ==> pos < r.value.next <= |b|
  {
    if pos >= |b| then None
    else
      var initial: int := b[pos];
      var major, info := initial / 32, initial % 32;
      if info <= 23 then Some(Head(major, info, info, pos + 1))
      else if info > 27 then None
      else
        var end := pos + 1 + Width(info);
        if end > |b| then None
        else Some(Head(major, info, FromBE(b[pos + 1..end]), end))
  }

  // ===== the parser =====

  function Pairs(items: seq<Cbor>): (r: seq<(Cbor, Cbor)>)
    requires |items| % 2 == 0
    ensures |r| == |items| / 2
  {
    seq(|items| / 2, i requires 0 <= i < |items| / 2 => (items[2 * i], items[2 * i + 1]))
  }

  /** `parse_cbor`: the item at `pos` and the position after it. */
  function Parse(utf8: seq<byte> -> bool, b: seq<byte>, pos: nat, depth: nat): (r: Option<(Cbor, nat)>)
    ensures r.Some? ==> pos < r.value.1 <= |b|
    decreases |b| - pos, 0, 0
  {
    if depth > MAX_DEPTH then None
    else
      var h :- ReadHead(b, pos);
      Content(utf8, b, h, pos, depth)
  }

  function Content(utf8: seq<byte> -> bool, b: seq<byte>, h: Head, pos: nat, depth: nat): (r: Option<(Cbor, nat)>)
    requires pos < h.next <= |b|
    ensures r.Some? ==> h.next <= r.value.1 <= |b|
    decreases |b| - h.next, 2, 0
  {
    var count := if h.arg <= MAX_COUNT then h.arg else MAX_COUNT;
    match h.major
    case 0 => Some((Uint(h.arg), h.next))
    case 1 => Some((NegInt(h.arg), h.next))
    case 2 =>
      if h.next + h.arg > |b| then None
      else Some((Raw(b[h.next..h.next + h.arg]), h.next + h.arg))
    case 3 =>
      if h.next + h.arg > |b| || !utf8(b[h.next..h.next + h.arg]) then None
      else Some((Text(b[h.next..h.next + h.arg]), h.next + h.arg))
    case 4 =>
      var (items, end) :- Items(utf8, b, h.next, depth + 1, count);
      if h.arg <= MAX_COUNT then Some((Array(items), end)) else None
    case 5 =>
      var (items, end) :- Items(utf8, b, h.next, depth + 1, 2 * count);
      if h.arg <= MAX_COUNT then Some((Map(Pairs(items)), end)) else None
    case 7 =>
      if h.info == 20 then Some((Bool(false), h.next))
      else if h.info == 21 then Some((Bool(true), h.next))
      else if h.info == 22 then Some((Null, h.next))
      else None
    case _ => None
  }

  /** `n` consecutive items. */
  function Items(utf8: seq<byte> -> bool, b: seq<byte>, pos: nat, depth: nat, n: nat): (r: Option<(seq<Cbor>, nat)>)
    requires pos <= |b|
    ensures r.Some? ==> pos <= r.value.1 <= |b| && |r.value.0| == n
    decreases |b| - pos, 1, n
  {
    if n == 0 then Some(([], pos))
    else
      var (front, mid) :- Items(utf8, b, pos, depth, n - 1);
      var (v, end) :- Parse(utf8, b, mid, depth);
      Some((front + [v], end))
  }

  // ===== an item depends only on its own bytes =====

  /** `c` holds at `at` what `b` holds in `[pos, end)`. */
  predicate Same(b: seq<byte>, pos: nat, end: nat, c: seq<byte>, at: nat) {
    pos <= end <= |b| && at + (end - pos) <= |c| && b[pos..end] == c[at..at + (end - pos)]
  }

  lemma SamePart(b: seq<byte>, pos: nat, end: nat, c: seq<byte>, at: nat, from: nat, to: nat)
    requires Same(b, pos, end, c, at) && pos <= from <= to <= end
    ensures Same(b, from, to, c, at + (from - pos))
  {
    SliceOfSlice(b, pos, end, from - pos, to - pos);
    SliceOfSlice(c, at, at + (end - pos), from - pos, to - pos);
  }

  lemma SliceOfSlice<T>(s: seq<T>, a: nat, b: nat, i: nat, j: nat)
    requires a <= b <= |s| && i <= j <= b - a
    ensures s[a..b][i..j] == s[a + i..a + j]
  {
    var t := s[a..b];
    forall k | 0 <= k < j - i ensures t[i..j][k] == s[a + i..a + j][k] {
      assert t[i..j][k] == t[i + k];
    }
  }

  lemma HeadLocal(b: seq<byte>, pos: nat, c: seq<byte>, at: nat)
    requires ReadHead(b, pos).Some? && Same(b, pos, ReadHead(b, pos).value.next, c, at)
    ensures var h := ReadHead(b, pos).value; ReadHead(c, at) == Some(h.(next := at + (h.next - pos)))
  {
    var h := ReadHead(b, pos).value;
    assert b[pos] == b[pos..h.next][0] && c[at] == c[at..at + (h.next - pos)][0];
    SamePart(b, pos, h.next, c, at, pos + 1, h.next);
  }

  /** Accepting is local: the same bytes anywhere else give the same item. */
  lemma {:induction false} ParseLocal(utf8: seq<byte> -> bool, b: seq<byte>, pos: nat, depth: nat, c: seq<byte>, at: nat)
    requires Parse(utf8, b, pos, depth).Some? && Same(b, pos, Parse(utf8, b, pos, depth).value.1, c, at)
    ensures var (v, end) := Parse(utf8, b, pos, depth).value;
      Parse(utf8, c, at, depth) == Some((v, at + (end - pos)))
    decreases |b| - pos, 0, 0
  {
    hide Content, ReadHead, Same;
    var h := ReadHead(b, pos).value;
    var end := Parse(utf8, b, pos, depth).value.1;
    SamePart(b, pos, end, c, at, pos, h.next);
    SamePart(b, pos, end, c, at, h.next, end);
    HeadLocal(b, pos, c, at);
    ContentLocal(utf8, b, h, pos, depth, c, at);
  }

  lemma {:induction false} ContentLocal(utf8: seq<byte> -> bool, b: seq<byte>, h: Head, pos: nat, depth: nat, c: seq<byte>, at: nat)
    requires pos < h.next <= |b| && Content(utf8, b, h, pos, depth).Some?
    requires var end := Content(utf8, b, h, pos, depth).value.1;
      Same(b, h.next, end, c, at + (h.next - pos)) && at + (end - pos) <= |c|
    ensures var (v, end) := Content(utf8, b, h, pos, depth).value;
      Content(utf8, c, h.(next := at + (h.next - pos)), at, depth) == Some((v, at + (end - pos)))
    decreases |b| - h.next, 2, 0
  {
    hide Items, Pairs;
    var count := if h.arg <= MAX_COUNT then h.arg else MAX_COUNT;
    var next := at + (h.next - pos);
    if h.major == 4 {
      ItemsLocal(utf8, b, h.next, depth + 1, count, c, next);
    } else if h.major == 5 {
      ItemsLocal(utf8, b, h.next, depth + 1, 2 * count, c, next);
    }
  }

  lemma {:induction false} ItemsLocal(utf8: seq<byte> -> bool, b: seq<byte>, pos: nat, depth: nat, n: nat, c: seq<byte>, at: nat)
    requires pos <= |b| && Items(utf8, b, pos, depth, n).Some?
    requires Same(b, pos, Items(utf8, b, pos, depth, n).value.1, c, at)
    ensures var (vs, end) := Items(utf8, b, pos, depth, n).value;
      Items(utf8, c, at, depth, n) == Some((vs, at + (end - pos)))
    decreases |b| - pos, 1, n
  {
    hide Parse, Same;
    assert at <= |c| by { SameBounds(b, pos, Items(utf8, b, pos, depth, n).value.1, c, at); }
    if n > 0 {
      var end := Items(utf8, b, pos, depth, n).value.1;
      var mid := Items(utf8, b, pos, depth, n - 1).value.1;
      SamePart(b, pos, end, c, at, pos, mid);
      SamePart(b, pos, end, c, at, mid, end);
      ItemsLocal(utf8, b, pos, depth, n - 1, c, at);
      ParseLocal(utf8, b, mid, depth, c, at + (mid - pos));
    }
  }

  lemma SameBounds(b: seq<byte>, pos: nat, end: nat, c: seq<byte>, at: nat)
    requires Same(b, pos, end, c, at)
    ensures pos <= end <= |b| && at + (end - pos) <= |c|
  {}

  /** No accepted item is a proper prefix of another. */
  lemma PrefixFree(utf8: seq<byte> -> bool, x: seq<byte>, y: seq<byte>, depth: nat)
    requires Parse(utf8, x, 0, depth).Some? && Parse(utf8, x, 0, depth).value.1 == |x|
    requires Parse(utf8, x + y, 0, depth).Some? && Parse(utf8, x + y, 0, depth).value.1 == |x + y|
    ensures y == []
  {
    assert (x + y)[0..|x|] == x[0..|x|];
    ParseLocal(utf8, x, 0, depth, x + y, 0);
  }

  // ===== the values the parser can produce, and an encoder =====

  /** Within the width, depth, count and text limits. */
  predicate Valid(utf8: seq<byte> -> bool, v: Cbor, depth: nat)
    decreases v
  {
    && depth <= MAX_DEPTH
    && match v
       case Uint(n) => n < U64
       case NegInt(n) => n < U64
       case Raw(s) => |s| < U64
       case Text(s) => |s| < U64 && utf8(s)
       case Array(items) =>
         |items| <= MAX_COUNT && forall i :: 0 <= i < |items| ==> Valid(utf8, items[i], depth + 1)
       case Map(entries) =>
         |entries| <= MAX_COUNT && forall i :: 0 <= i < |entries| ==>
           Valid(utf8, entries[i].0, depth + 1) && Valid(utf8, entries[i].1, depth + 1)
       case Bool(_) => true
       case Null => true
  }

  /** The shortest head for `arg`. */
  function HeadBytes(major: nat, arg: nat): (r: seq<byte>)
    requires major < 8 && arg < U64
  {
    if arg <= 23 then [32 * major + arg]
    else if arg < 256 then [32 * major + 24] + ToBE(arg, 1)
    else if arg < U16 then [32 * major + 25] + ToBE(arg, 2)
    else if arg < U32 then [32 * major + 26] + ToBE(arg, 4)
    else [32 * major + 27] + ToBE(arg, 8)
  }

  function Encode(utf8: seq<byte> -> bool, v: Cbor, depth: nat): seq<byte>
    requires Valid(utf8, v, depth)
    decreases v, 1
  {
    match v
    case Uint(n) => HeadBytes(0, n)
    case NegInt(n) => HeadBytes(1, n)
    case Raw(s) => HeadBytes(2, |s|) + s
    case Text(s) => HeadBytes(3, |s|) + s
    case Array(items) => HeadBytes(4, |items|) + EncodeItems(utf8, v, depth, |items|)
    case Map(entries) => HeadBytes(5, |entries|) + EncodeItems(utf8, v, depth, 2 * |entries|)
    case Bool(b) => HeadBytes(7, if b then 21 else 20)
    case Null => HeadBytes(7, 22)
  }

  function Arity(v: Cbor): nat {
    match v
    case Array(items) => |items|
    case Map(entries) => 2 * |entries|
    case _ => 0
  }

  /** The children of an array or map in the order they are written. */
  function Child(v: Cbor, i: nat): (r: Cbor)
    requires i < Arity(v)
    ensures r < v
  {
    if v.Array? then v.items[i] else
    var e := v.entries[i / 2];
    assert e in v.entries;
    if i % 2 == 0 then e.0 else e.1
  }

  function EncodeItems(utf8: seq<byte> -> bool, v: Cbor, depth: nat, n: nat): seq<byte>
    requires n <= Arity(v)
    requires Valid(utf8, v, depth)
    decreases v, 0, n
  {
    if n == 0 then [] else EncodeItems(utf8, v, depth, n - 1) + Encode(utf8, Child(v, n - 1), depth + 1)
  }

  function Kids(v: Cbor, n: nat): (r: seq<Cbor>)
    requires n <= Arity(v)
    ensures |r| == n
  {
    seq(n, i requires 0 <= i < n => Child(v, i))
  }

  lemma HeadReads(major: nat, arg: nat, rest: seq<byte>)
    requires major < 8 && arg < U64
    ensures var h := ReadHead(HeadBytes(major, arg) + rest, 0);
      && h.Some? && h.value.major == major && h.value.arg == arg && h.value.next == |HeadBytes(major, arg)|
      && (arg <= 23 ==> h.value.info == arg)
  {
    hide ToBE, FromBE, Pow256;
    var b := HeadBytes(major, arg) + rest;
    Pow256Values();
    assert Pow256(1) == 256 by { PowOne(); }
    if arg > 23 {
      var w := if arg < 256 then 1 else if arg < U16 then 2 else if arg < U32 then 4 else 8;
      FromToBE(arg, w);
      assert b[1..1 + w] == ToBE(arg, w);
    }
  }

  lemma PowOne()
    ensures Pow256(1) == 256
  {}

  lemma HeadArg(b: seq<byte>, pos: nat)
    requires ReadHead(b, pos).Some?
    ensures ReadHead(b, pos).value.arg < U64
  {
    hide FromBE, Pow256;
    Pow256Values();
    assert Pow256(1) == 256 by { PowOne(); }
  }

  /** Everything parsed is within the limits. */
  lemma {:induction false} ParsedValid(utf8: seq<byte> -> bool, b: seq<byte>, pos: nat, depth: nat)
    requires Parse(utf8, b, pos, depth).Some?
    ensures Valid(utf8, Parse(utf8, b, pos, depth).value.0, depth)
    decreases |b| - pos, 0, 0
  {
    hide ReadHead, Items;
    var h := ReadHead(b, pos).value;
    HeadArg(b, pos);
    var v := Parse(utf8, b, pos, depth).value.0;
    if h.major == 4 {
      ItemsValid(utf8, b, h.next, depth + 1, h.arg);
    } else if h.major == 5 {
      ItemsValid(utf8, b, h.next, depth + 1, 2 * h.arg);
    }
  }

  lemma {:induction false} ItemsValid(utf8: seq<byte> -> bool, b: seq<byte>, pos: nat, depth: nat, n: nat)
    requires pos <= |b| && Items(utf8, b, pos, depth, n).Some?
    ensures forall i :: 0 <= i < n ==> Valid(utf8, Items(utf8, b, pos, depth, n).value.0[i], depth)
    decreases |b| - pos, 1, n
  {
    hide Parse, Valid;
    if n > 0 {
      ItemsValid(utf8, b, pos, depth, n - 1);
      ParsedValid(utf8, b, Items(utf8, b, pos, depth, n - 1).value.1, depth);
    }
  }

  lemma ChildValid(utf8: seq<byte> -> bool, v: Cbor, depth: nat, i: nat)
    requires Valid(utf8, v, depth) && i < Arity(v)
    ensures Valid(utf8, Child(v, i), depth + 1)
  {}

  /** The parser inverts the encoder on every value within the limits. */
  lemma {:induction false} ParseOfEncode(utf8: seq<byte> -> bool, v: Cbor, depth: nat)
    requires Valid(utf8, v, depth)
    ensures Parse(utf8, Encode(utf8, v, depth), 0, depth) == Some((v, |Encode(utf8, v, depth)|))
    decreases v, 1
  {
    hide HeadBytes, ReadHead, Items, EncodeItems;
    var b := Encode(utf8, v, depth);
    match v
    case Uint(n) => HeadAlone(0, n);
    case NegInt(n) => HeadAlone(1, n);
    case Bool(x) => HeadAlone(7, if x then 21 else 20);
    case Null => HeadAlone(7, 22);
    case Raw(s) =>
      HeadReads(2, |s|, s);
      assert b[|HeadBytes(2, |s|)|..|HeadBytes(2, |s|)| + |s|] == s;
    case Text(s) =>
      HeadReads(3, |s|, s);
      assert b[|HeadBytes(3, |s|)|..|HeadBytes(3, |s|)| + |s|] == s;
    case Array(items) =>
      var kids := EncodeItems(utf8, v, depth, |items|);
      HeadReads(4, |items|, kids);
      KidsPlaced(utf8, v, depth, HeadBytes(4, |items|));
      assert Kids(v, |items|) == items;
    case Map(entries) =>
      var kids := EncodeItems(utf8, v, depth, 2 * |entries|);
      HeadReads(5, |entries|, kids);
      KidsPlaced(utf8, v, depth, HeadBytes(5, |entries|));
      PairsOfKids(v);
  }

  lemma HeadAlone(major: nat, arg: nat)
    requires major < 8 && arg < U64
    ensures var h := ReadHead(HeadBytes(major, arg), 0);
      && h.Some? && h.value.major == major && h.value.arg == arg && h.value.next == |HeadBytes(major, arg)|
      && (arg <= 23 ==> h.value.info == arg)
  {
    hide HeadBytes, ReadHead;
    HeadReads(major, arg, []);
    assert HeadBytes(major, arg) + [] == HeadBytes(major, arg);
  }

  lemma PairsOfKids(v: Cbor)
    requires v.Map?
    ensures Pairs(Kids(v, 2 * |v.entries|)) == v.entries
  {
    hide Child;
    var kids := Kids(v, 2 * |v.entries|);
    var ps := Pairs(kids);
    forall i | 0 <= i < |v.entries| ensures ps[i] == v.entries[i] {
      ChildPair(v, i);
      assert kids[2 * i] == Child(v, 2 * i) && kids[2 * i + 1] == Child(v, 2 * i + 1);
    }
  }

  lemma ChildPair(v: Cbor, i: nat)
    requires v.Map? && i < |v.entries|
    ensures (Child(v, 2 * i), Child(v, 2 * i + 1)) == v.entries[i]
  {
    assert (2 * i) / 2 == i && (2 * i) % 2 == 0 && (2 * i + 1) / 2 == i && (2 * i + 1) % 2 == 1;
    assert v.entries[i] == (v.entries[i].0, v.entries[i].1);
  }

  /** The children behind a head. */
  lemma KidsPlaced(utf8: seq<byte> -> bool, v: Cbor, depth: nat, head: seq<byte>)
    requires Valid(utf8, v, depth)
    ensures var kids := EncodeItems(utf8, v, depth, Arity(v));
      Items(utf8, head + kids, |head|, depth + 1, Arity(v)) == Some((Kids(v, Arity(v)), |head| + |kids|))
    decreases v, 0, Arity(v) + 1
  {
    hide Items, EncodeItems, Valid, Kids;
    var kids := EncodeItems(utf8, v, depth, Arity(v));
    ItemsOfEncode(utf8, v, depth, Arity(v));
    assert kids[0..|kids|] == (head + kids)[|head|..|head| + |kids|];
    ItemsLocal(utf8, kids, 0, depth + 1, Arity(v), head + kids, |head|);
  }

  lemma {:induction false} ItemsOfEncode(utf8: seq<byte> -> bool, v: Cbor, depth: nat, n: nat)
    requires Valid(utf8, v, depth) && n <= Arity(v)
    ensures var b := EncodeItems(utf8, v, depth, n);
      Items(utf8, b, 0, depth + 1, n) == Some((Kids(v, n), |b|))
    decreases v, 0, n
  {
    hide Parse, Encode, Valid, Arity, Items, Kids;
    if n == 0 {
      assert Kids(v, 0) == [];
      assert Items(utf8, [], 0, depth + 1, 0) == Some(([], 0)) by { NoItems(utf8, depth + 1); }
    } else {
      ChildValid(utf8, v, depth, n - 1);
      var front, x := EncodeItems(utf8, v, depth, n - 1), Encode(utf8, Child(v, n - 1), depth + 1);
      var b := EncodeItems(utf8, v, depth, n);
      ItemsOfEncode(utf8, v, depth, n - 1);
      assert front[0..|front|] == b[0..|front|];
      ItemsLocal(utf8, front, 0, depth + 1, n - 1, b, 0);
      ParseOfEncode(utf8, Child(v, n - 1), depth + 1);
      assert x[0..|x|] == b[|front|..|front| + |x|];
      ParseLocal(utf8, x, 0, depth + 1, b, |front|);
      ItemsSnoc(utf8, b, depth + 1, n - 1, Kids(v, n - 1), |front|, Child(v, n - 1), |front| + |x|);
      KidsSnoc(v, n);
    }
  }

  lemma NoItems(utf8: seq<byte> -> bool, depth: nat)
    ensures Items(utf8, [], 0, depth, 0) == Some(([], 0))
  {}

  lemma ItemsSnoc(utf8: seq<byte> -> bool, b: seq<byte>, depth: nat, n: nat, front: seq<Cbor>, mid: nat, v: Cbor, end: nat)
    requires Items(utf8, b, 0, depth, n) == Some((front, mid)) && Parse(utf8, b, mid, depth) == Some((v, end))
    ensures Items(utf8, b, 0, depth, n + 1) == Some((front + [v], end))
  {
    hide Parse;
  }

  lemma KidsSnoc(v: Cbor, n: nat)
    requires 0 < n <= Arity(v)
    ensures Kids(v, n) == Kids(v, n - 1) + [Child(v, n - 1)]
  {}

  /** Round trip in any surroundings: a value within the limits is read back from its
      encoding wherever that stands, whatever follows. */
  lemma ParseOfEncodeAnywhere(utf8: seq<byte> -> bool, v: Cbor, depth: nat, before: seq<byte>, after: seq<byte>)
    requires Valid(utf8, v, depth)
    ensures var x := Encode(utf8, v, depth);
      Parse(utf8, before + x + after, |before|, depth) == Some((v, |before| + |x|))
  {
    hide Parse, Encode, Valid;
    var x := Encode(utf8, v, depth);
    ParseOfEncode(utf8, v, depth);
    assert x[0..|x|] == (before + x + after)[|before|..|before| + |x|];
    ParseLocal(utf8, x, 0, depth, before + x + after, |before|);
  }

  // ===== the parser as a loop with a moving position =====

  lemma {:induction false} ItemsStop(utf8: seq<byte> -> bool, b: seq<byte>, pos: nat, depth: nat, k: nat, n: nat)
    requires pos <= |b| && k <= n && Items(utf8, b, pos, depth, k).None?
    ensures Items(utf8, b, pos, depth, n).None?
    decreases n - k
  {
    if k < n {
      ItemsStop(utf8, b, pos, depth, k, n - 1);
    }
  }

  lemma ItemsNext(utf8: seq<byte> -> bool, b: seq<byte>, pos: nat, depth: nat, k: nat)
    requires pos <= |b| && Items(utf8, b, pos, depth, k).Some?
    ensures var (front, mid) := Items(utf8, b, pos, depth, k).value;
      Items(utf8, b, pos, depth, k + 1) ==
      match Parse(utf8, b, mid, depth)
      case None => None
      case Some((v, end)) => Some((front + [v], end))
  {
    hide Parse;
  }

  /** The result of the function and the method agree. */
  predicate Agrees(spec: Option<(Cbor, nat)>, r: Option<Cbor>, pos: nat) {
    match spec
    case None => r.None?
    case Some((v, end)) => r == Some(v) && pos == end
  }

  /** `parse_cbor`. */
  method ParseCbor(utf8: seq<byte> -> bool, bytes: seq<byte>, start: nat, depth: nat) returns (r: Option<Cbor>, pos: nat)
    ensures Agrees(Parse(utf8, bytes, start, depth), r, pos)
    decreases |bytes| - start, 0
  {
    hide Items, Pairs, ReadHead;
    pos := start;
    if depth > MAX_DEPTH {
      return None, pos;
    }
    var head := ReadHead(bytes, start);
    if head.None? {
      return None, pos;
    }
    var h := head.value;
    pos := h.next;
    var count := if h.arg <= MAX_COUNT then h.arg else MAX_COUNT;
    match h.major {
      case 0 =>
        r := Some(Uint(h.arg));
      case 1 =>
        r := Some(NegInt(h.arg));
      case 2 =>
        if pos + h.arg > |bytes| {
          return None, pos;
        }
        r := Some(Raw(bytes[pos..pos + h.arg]));
        pos := pos + h.arg;
      case 3 =>
        if pos + h.arg > |bytes| || !utf8(bytes[pos..pos + h.arg]) {
          return None, pos;
        }
        r := Some(Text(bytes[pos..pos + h.arg]));
        pos := pos + h.arg;
      case 4 =>
        var items;
        items, pos := ParseItems(utf8, bytes, h.next, depth + 1, count);
        r := if items.Some? && h.arg <= MAX_COUNT then Some(Array(items.value)) else None;
      case 5 =>
        var entries;
        entries, pos := ParseEntries(utf8, bytes, h.next, depth + 1, count);
        r := if entries.Some? && h.arg <= MAX_COUNT then Some(Map(entries.value)) else None;
      case 7 =>
        r := if h.info == 20 then Some(Bool(false))
             else if h.info == 21 then Some(Bool(true))
             else if h.info == 22 then Some(Null)
             else None;
      case _ =>
        r := None;
    }
  }

  /** The array loop. */
  method ParseItems(utf8: seq<byte> -> bool, bytes: seq<byte>, start: nat, depth: nat, n: nat)
      returns (r: Option<seq<Cbor>>, pos: nat)
    requires start <= |bytes|
    ensures match Items(utf8, bytes, start, depth, n)
            case None => r.None?
            case Some((items, end)) => r == Some(items) && pos == end
    decreases |bytes| - start, 1
  {
    hide Parse;
    var items: seq<Cbor> := [];
    pos := start;
    for k := 0 to n
      invariant start <= pos <= |bytes|
      invariant Items(utf8, bytes, start, depth, k) == Some((items, pos))
    {
      ItemsNext(utf8, bytes, start, depth, k);
      var v, next := ParseCbor(utf8, bytes, pos, depth);
      if v.None? {
        ItemsStop(utf8, bytes, start, depth, k + 1, n);
        return None, next;
      }
      items, pos := items + [v.value], next;
    }
    r := Some(items);
  }

  lemma PairsSnoc(items: seq<Cbor>, k: Cbor, v: Cbor)
    requires |items| % 2 == 0
    ensures Pairs(items + [k] + [v]) == Pairs(items) + [(k, v)]
  {}

  /** The map loop. */
  method ParseEntries(utf8: seq<byte> -> bool, bytes: seq<byte>, start: nat, depth: nat, n: nat)
      returns (r: Option<seq<(Cbor, Cbor)>>, pos: nat)
    requires start <= |bytes|
    ensures match Items(utf8, bytes, start, depth, 2 * n)
            case None => r.None?
            case Some((items, end)) => r == Some(Pairs(items)) && pos == end
    decreases |bytes| - start, 1
  {
    hide Parse, Pairs, Items;
    var entries: seq<(Cbor, Cbor)> := [];
    ghost var items: seq<Cbor> := [];
    pos := start;
    assert Items(utf8, bytes, start, depth, 0) == Some((items, pos)) && Pairs(items) == entries by {
      NoEntries(utf8, bytes, start, depth);
    }
    for k := 0 to n
      invariant start <= pos <= |bytes|
      invariant Items(utf8, bytes, start, depth, 2 * k) == Some((items, pos))
      invariant |items| == 2 * k && Pairs(items) == entries
    {
      ItemsNext(utf8, bytes, start, depth, 2 * k);
      var key, mid := ParseCbor(utf8, bytes, pos, depth);
      if key.None? {
        ItemsStop(utf8, bytes, start, depth, 2 * k + 1, 2 * n);
        return None, mid;
      }
      ItemsNext(utf8, bytes, start, depth, 2 * k + 1);
      var v, next := ParseCbor(utf8, bytes, mid, depth);
      if v.None? {
        ItemsStop(utf8, bytes, start, depth, 2 * k + 2, 2 * n);
        return None, next;
      }
      PairsSnoc(items, key.value, v.value);
      entries, pos := entries + [(key.value, v.value)], next;
      items := items + [key.value] + [v.value];
    }
    r := Some(entries);
  }

  lemma NoEntries(utf8: seq<byte> -> bool, bytes: seq<byte>, start: nat, depth: nat)
    requires start <= |bytes|
    ensures Items(utf8, bytes, start, depth, 0) == Some(([], start)) && Pairs([]) == []
  {}
}
