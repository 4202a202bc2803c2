/** Directories synthesised from a flat map of files: `stat_node` and `readdir`. */
module Directories {
  import opened Bytes
  import opened Outcome
  import opened Paths

  type Files = map<string, seq<byte>>

  /** Every stored key is in normal form, as every way of storing one makes sure. */
  predicate AllNormal(files: Files) { forall k :: k in files ==> Normal(k) }

  predicate IsDir(files: Files, key: string) { exists k :: k in files && key + "/" <= k }

  /** `stat_node`: whether it is a directory, and the size. */
  function StatNode(files: Files, path: string): Option<(bool, nat)> {
    var key := Normalize(path);
    if key in files then Some((false, |files[key]|))
    else if key == "" || key == "/" || IsDir(files, key) then Some((true, 0))
    else None
  }

  // ===== listing =====

  function SlashAt(s: string): (r: Option<nat>)
    ensures r.Some? ==> r.value < |s| && s[r.value] == '/' && forall i :: 0 <= i < r.value ==> s[i] != '/'
    ensures r.None? ==> '/' !in s
  {
    if s == "" then None
    else if s[0] == '/' then Some(0)
    else
      var r :- SlashAt(s[1..]);
      Some(r + 1)
  }

  /** The first component. */
  function Segment(s: string): string {
    match SlashAt(s)
    case None => s
    case Some(i) => s[..i]
  }

  function TrimSlashes(s: string): string {
    if s != "" && s[0] == '/' then TrimSlashes(s[1..]) else s
  }

  /** What is left of `k` below `prefix`; the empty prefix is the root. */
  function Below(prefix: string, k: string): Option<string> {
    if prefix == "" then Some(TrimSlashes(k))
    else if prefix <= k then Some(k[|prefix|..])
    else None
  }

  function PrefixOf(key: string): string { if key == "" || key == "/" then "" else key + "/" }

  /** Key `k` puts `name` into the listing. */
  predicate Shows(prefix: string, k: string, name: string) {
    var rest := Below(prefix, k);
    rest.Some? && rest.value != "" && Segment(rest.value) == name
  }

  /** Key `k` is the file `name` of the listing. */
  predicate IsLeaf(prefix: string, k: string, name: string) {
    Below(prefix, k) == Some(name) && name != "" && '/' !in name
  }

  /** A name is there exactly when some key shows it, and is a file exactly when some key
      is that file. */
  ghost predicate IsListing(keys: set<string>, prefix: string, children: map<string, bool>) {
    && (forall n :: n in children <==> exists k :: k in keys && Shows(prefix, k, n))
    && (forall n :: n in children ==> (!children[n] <==> exists k :: k in keys && IsLeaf(prefix, k, n)))
  }

  lemma ListingUnique(keys: set<string>, prefix: string, a: map<string, bool>, b: map<string, bool>)
    requires IsListing(keys, prefix, a) && IsListing(keys, prefix, b)
    ensures a == b
  {
    hide Shows, IsLeaf;
    forall n ensures n in a <==> n in b {
      assert n in a <==> exists k :: k in keys && Shows(prefix, k, n);
    }
    forall n | n in a ensures a[n] == b[n] {
      assert !a[n] <==> exists k :: k in keys && IsLeaf(prefix, k, n);
    }
  }

  function AddKey(children: map<string, bool>, prefix: string, k: string): map<string, bool> {
    match Below(prefix, k)
    case None => children
    case Some(rest) =>
      if rest == "" then children
      else match SlashAt(rest)
           case Some(i) => if rest[..i] in children then children else children[rest[..i] := true]
           case None => children[rest := false]
  }

  /** One key more, in whatever order they come. */
  lemma AddKeyLists(keys: set<string>, prefix: string, children: map<string, bool>, k: string)
    requires IsListing(keys, prefix, children)
    ensures IsListing(keys + {k}, prefix, AddKey(children, prefix, k))
  {
    hide Below, SlashAt;
    var more, after := keys + {k}, AddKey(children, prefix, k);
    forall n ensures n in after <==> exists x :: x in more && Shows(prefix, x, n) {
      if n in children {
        var x :| x in keys && Shows(prefix, x, n);
        assert x in more;
      }
      if n in after && n !in children {
        assert k in more && Shows(prefix, k, n);
      }
      if x :| x in more && Shows(prefix, x, n) {
        assert x in keys || x == k;
      }
    }
    forall n | n in after ensures !after[n] <==> exists x :: x in more && IsLeaf(prefix, x, n) {
      if IsLeaf(prefix, k, n) {
        assert k in more;
      } else if n in children {
        assert after[n] == children[n];
        if x :| x in keys && IsLeaf(prefix, x, n) {
          assert x in more;
        }
      } else if x :| x in keys && IsLeaf(prefix, x, n) {
        LeafShows(prefix, x, n);
      }
    }
  }

  lemma LeafShows(prefix: string, k: string, n: string)
    requires IsLeaf(prefix, k, n)
    ensures Shows(prefix, k, n)
  {
    hide Below;
    assert SlashAt(n).None?;
  }

  /** `readdir`: the keys are taken in any order. */
  method Readdir(files: Files, path: string) returns (r: Option<map<string, bool>>)
    ensures r.None? <==> Normalize(path) in files
    ensures r.Some? ==> IsListing(files.Keys, PrefixOf(Normalize(path)), r.value)
  {
    hide IsListing, AddKey, Normalize;
    var key := NormalizePath(path);
    if key in files {
      return None;
    }
    var prefix := PrefixOf(key);
    var children: map<string, bool> := map[];
    var todo := files.Keys;
    NothingListed(prefix);
    assert files.Keys - todo == {};
    while todo != {}
      invariant todo <= files.Keys
      invariant IsListing(files.Keys - todo, prefix, children)
      decreases |todo|
    {
      var k :| k in todo;
      AddKeyLists(files.Keys - todo, prefix, children, k);
      assert files.Keys - (todo - {k}) == (files.Keys - todo) + {k};
      children := AddKey(children, prefix, k);
      todo := todo - {k};
    }
    assert files.Keys - todo == files.Keys;
    r := Some(children);
  }

  lemma NothingListed(prefix: string)
    ensures IsListing({}, prefix, map[])
  {}

  // ===== listing and stat agree =====

  lemma SlashIn(s: string)
    ensures SlashAt(s).Some? <==> '/' in s
  {
    if SlashAt(s).Some? {
      assert s[SlashAt(s).value] in s;
    }
  }

  lemma {:induction false} SlashAfter(name: string, rest: string)
    requires '/' !in name
    ensures SlashAt(name + "/" + rest) == Some(|name|)
  {
    var s := name + "/" + rest;
    if name != "" {
      assert name[0] in name && s[0] == name[0];
      assert s[1..] == name[1..] + "/" + rest;
      SlashAfter(name[1..], rest);
    }
  }

  lemma BelowJoin(dir: string, rest: string)
    ensures Below(dir + "/", dir + "/" + rest) == Some(rest)
  {
    var p, k := dir + "/", dir + "/" + rest;
    assert p <= k && k[|p|..] == rest;
  }

  lemma BelowInverse(dir: string, k: string)
    requires Below(dir + "/", k).Some?
    ensures k == dir + "/" + Below(dir + "/", k).value
  {}

  /** Below a directory a key shows `name` exactly when it is that file or lies under it. */
  lemma ShowsBelow(dir: string, k: string, name: string)
    requires name != "" && '/' !in name
    ensures Shows(dir + "/", k, name) <==> k == dir + "/" + name || dir + "/" + name + "/" <= k
    ensures IsLeaf(dir + "/", k, name) <==> k == dir + "/" + name
  {
    hide Below, SlashAt;
    var j := dir + "/" + name;
    if Below(dir + "/", k).Some? {
      var rest := Below(dir + "/", k).value;
      BelowInverse(dir, k);
      if SlashAt(rest).Some? && rest[..SlashAt(rest).value] == name {
        assert rest == name + "/" + rest[|name| + 1..];
        assert k == j + "/" + rest[|name| + 1..];
      }
    }
    if k == j {
      BelowJoin(dir, name);
      SlashIn(name);
    }
    if j + "/" <= k {
      var more := k[|j| + 1..];
      assert k == dir + "/" + (name + "/" + more);
      BelowJoin(dir, name + "/" + more);
      SlashAfter(name, more);
      assert (name + "/" + more)[..|name|] == name;
    }
  }

  /** `readdir` of any path that does not name the root lists exactly the folded
      single-component names for which `stat_node` of the joined path succeeds, and says
      "directory" exactly when it does. */
  lemma ReaddirMatchesStat(files: Files, path: string, children: map<string, bool>, name: string)
    requires AllNormal(files) && Normalize(path) != "" && Normalize(path) != "/"
    requires IsListing(files.Keys, PrefixOf(Normalize(path)), children)
    requires name != "" && '/' !in name
    ensures name in children <==> Folded(name) && StatNode(files, path + "/" + name).Some?
    ensures name in children ==> children[name] == StatNode(files, path + "/" + name).value.0
  {
    hide Shows, IsLeaf, Normalize, Normal, Folded;
    var dir := Normalize(path);
    var j := dir + "/" + name;
    forall k ensures (Shows(dir + "/", k, name) <==> k == j || j + "/" <= k) && (IsLeaf(dir + "/", k, name) <==> k == j) {
      ShowsBelow(dir, k, name);
    }
    assert name in children <==> j in files || IsDir(files, j);
    if name in children {
      var k :| k in files && (k == j || j + "/" <= k);
      NameFolded(dir, k, name);
    }
    if Folded(name) {
      assert Normalize(path + "/" + name) == j by { FoldedJoin(path, name); }
      assert j != "" && j != "/" by { assert j[|dir|] == '/' && |j| > 1; }
    }
  }

  lemma FoldedJoin(path: string, name: string)
    requires Folded(name)
    ensures Normalize(path + "/" + name) == Normalize(path) + "/" + name
  {
    hide Normalize;
    NormalizeJoin(path, name);
  }

  lemma NameFolded(dir: string, k: string, name: string)
    requires Normal(k) && (k == dir + "/" + name || dir + "/" + name + "/" <= k)
    ensures Folded(name)
  {
    hide NoHive;
    var n := |dir| + 1;
    assert k[n..n + |name|] == name by {
      if k != dir + "/" + name {
        var p := dir + "/" + name + "/";
        assert k[n..n + |name|] == p[n..n + |name|];
      }
    }
    forall i | 0 <= i < |name| ensures Fold(name)[i] == name[i] {
      assert name[i] == k[n + i] && Fold(k)[n + i] == k[n + i];
    }
  }

  // ===== the root =====

  function Slashes(j: nat): string { if j == 0 then "" else "/" + Slashes(j - 1) }

  lemma {:induction false} TrimBack(s: string)
    ensures |TrimSlashes(s)| <= |s|
    ensures s == Slashes(|s| - |TrimSlashes(s)|) + TrimSlashes(s)
    ensures TrimSlashes(s) != "" ==> TrimSlashes(s)[0] != '/'
  {
    if s != "" && s[0] == '/' {
      TrimBack(s[1..]);
      assert s == "/" + s[1..];
    }
  }

  lemma {:induction false} TrimAll(j: nat, rest: string)
    requires rest == "" || rest[0] != '/'
    ensures TrimSlashes(Slashes(j) + rest) == rest
  {
    var s := Slashes(j) + rest;
    if j > 0 {
      assert s[1..] == Slashes(j - 1) + rest;
      TrimAll(j - 1, rest);
    }
  }

  /** `name` behind `j` slashes. */
  function Rooted(j: nat, name: string): string { Slashes(j) + name }

  /** `k` is the node `key` or lies under it. */
  predicate Inside(k: string, key: string) { k == key || key + "/" <= k }

  /** At the root a key shows `name` exactly when it is that file, or lies under it, behind
      some number of leading slashes. */
  lemma ShowsAtRoot(k: string, name: string)
    requires name != "" && '/' !in name
    ensures Shows("", k, name) <==> exists j :: Inside(k, Rooted(j, name))
    ensures IsLeaf("", k, name) <==> exists j :: k == Rooted(j, name)
  {
    hide TrimSlashes, Slashes, SlashAt;
    var rest := TrimSlashes(k);
    var j := |k| - |rest|;
    TrimBack(k);
    if SlashAt(rest).Some? && rest[..SlashAt(rest).value] == name {
      assert rest == name + "/" + rest[|name| + 1..];
      assert k == Rooted(j, name) + "/" + rest[|name| + 1..];
      assert Inside(k, Rooted(j, name));
    }
    if rest == name {
      assert k == Rooted(j, name) && Inside(k, Rooted(j, name));
    }
    if i :| Inside(k, Rooted(i, name)) {
      InsideShows(k, name, i);
    }
    if i :| k == Rooted(i, name) {
      InsideShows(k, name, i);
    }
  }

  lemma InsideShows(k: string, name: string, i: nat)
    requires name != "" && '/' !in name && Inside(k, Rooted(i, name))
    ensures Shows("", k, name) && (k == Rooted(i, name) ==> IsLeaf("", k, name))
  {
    hide TrimSlashes, Slashes, SlashAt;
    assert name[0] in name;
    if k == Rooted(i, name) {
      TrimAll(i, name);
      SlashIn(name);
    } else {
      var p := Rooted(i, name) + "/";
      var more := k[|p|..];
      assert k == Slashes(i) + (name + "/" + more);
      TrimAll(i, name + "/" + more);
      SlashAfter(name, more);
      assert (name + "/" + more)[..|name|] == name;
    }
  }

  /** Which names the root listing holds: a drive letter or a doubled slash makes it looser
      than below the root. `name` is there exactly when `stat_node` finds it behind some
      number of slashes. */
  lemma RootMatchesStat(files: Files, children: map<string, bool>, name: string)
    requires AllNormal(files) && IsListing(files.Keys, "", children) && name != "" && '/' !in name
    ensures name in children <==> exists j :: Normal(Rooted(j, name)) && StatNode(files, Rooted(j, name)).Some?
  {
    hide Shows, IsLeaf, Normal, StatNode, Rooted, Inside;
    assert name in children <==> exists k :: k in files.Keys && Shows("", k, name);
    if name in children {
      var k :| k in files && Shows("", k, name);
      ShowsAtRoot(k, name);
      var j :| Inside(k, Rooted(j, name));
      InsideStat(files, name, k, j);
    }
    if j :| Normal(Rooted(j, name)) && StatNode(files, Rooted(j, name)).Some? {
      var k := StatInside(files, name, j);
      ShowsAtRoot(k, name);
    }
  }

  lemma InsideStat(files: Files, name: string, k: string, j: nat)
    requires AllNormal(files) && k in files && Inside(k, Rooted(j, name))
    ensures Normal(Rooted(j, name)) && StatNode(files, Rooted(j, name)).Some?
  {
    hide Normalize, Normal, Rooted;
    PrefixNormal(Rooted(j, name), k);
    NormalIsFixed(Rooted(j, name));
  }

  lemma StatInside(files: Files, name: string, j: nat) returns (k: string)
    requires Normal(Rooted(j, name)) && StatNode(files, Rooted(j, name)).Some? && name != "" && '/' !in name
    ensures k in files && Inside(k, Rooted(j, name))
  {
    hide Normalize, Normal, Slashes;
    var key := Rooted(j, name);
    NormalIsFixed(key);
    assert key[|Slashes(j)|] == name[0] && name[0] in name;
    if key in files {
      k := key;
    } else {
      k :| k in files && key + "/" <= k;
    }
  }

  /** A root entry is a file exactly when the file is stored, behind some slashes. */
  lemma RootFiles(files: Files, children: map<string, bool>, name: string)
    requires IsListing(files.Keys, "", children) && name in children && name != "" && '/' !in name
    ensures !children[name] <==> exists j :: Rooted(j, name) in files
  {
    hide Shows, IsLeaf, Rooted, Inside;
    if !children[name] {
      var k :| k in files.Keys && IsLeaf("", k, name);
      ShowsAtRoot(k, name);
      var j :| k == Rooted(j, name);
    }
    if j :| Rooted(j, name) in files {
      ShowsAtRoot(Rooted(j, name), name);
      assert Rooted(j, name) in files.Keys && IsLeaf("", Rooted(j, name), name);
    }
  }

  /** What a normal key is, or lies under, is normal. */
  lemma PrefixNormal(key: string, k: string)
    requires Normal(k) && Inside(k, key)
    ensures Normal(key)
  {
    hide HIVES;
    assert key == k[..|key|] by {
      if k != key {
        assert k[..|key|] == (key + "/")[..|key|];
      }
    }
    forall i | 0 <= i < |key| ensures Fold(key)[i] == key[i] {
      assert Fold(k)[i] == k[i] && key[i] == k[i];
    }
    forall h | 0 <= h < |HIVES| ensures !Under(HIVES[h].0, key) {
      UnderExtends(HIVES[h].0, key, k);
    }
  }

  lemma UnderExtends(long: string, key: string, k: string)
    requires Inside(k, key)
    ensures Under(long, key) ==> Under(long, k)
  {
    if key == long {
    } else if long + "/" <= key {
      var p := long + "/";
      assert p == key[..|p|];
      if k != key {
        assert k[..|p|] == (key + "/")[..|p|] == key[..|p|];
      }
    }
  }
}
