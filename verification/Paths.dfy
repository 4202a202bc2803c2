/** Path keys of the in-memory filesystem: case folding, separators and the short names of
    the registry hives. */
module Paths {
  function FoldChar(c: char): char {
    if c == '\\' then '/' else if 'A' <= c <= 'Z' then (c as int + 32) as char else c
  }

  function Fold(s: string): (r: string)
    ensures |r| == |s|
  {
    seq(|s|, i requires 0 <= i < |s| => FoldChar(s[i]))
  }

  const HIVES: seq<(string, string)> := [
    ("hkey_local_machine", "hklm"), ("hkey_current_user", "hkcu"), ("hkey_classes_root", "hkcr"), ("hkey_users", "hku")]

  /** `s` is the hive `long` or lies below it. */
  predicate Under(long: string, s: string) { s == long || long + "/" <= s }

  /** The first hive that applies, replaced by its short name. */
  function Shorten(hives: seq<(string, string)>, s: string): string {
    if hives == [] then s
    else if Under(hives[0].0, s) then hives[0].1 + s[|hives[0].0|..]
    else Shorten(hives[1..], s)
  }

  function Normalize(path: string): string { Shorten(HIVES, Fold(path)) }

  /** `normalize_path`. */
  method NormalizePath(path: string) returns (out: string)
    ensures out == Normalize(path)
  {
    hide HIVES, Shorten;
    out := "";
    for i := 0 to |path|
      invariant out == Fold(path[..i])
    {
      assert Fold(path[..i + 1]) == Fold(path[..i]) + [FoldChar(path[i])];
      if path[i] == '\\' {
        out := out + "/";
      } else {
        out := out + [FoldChar(path[i])];
      }
    }
    assert path[..|path|] == path;
    out := ShortenHive(out);
  }

  /** The loop over the hive names. */
  method ShortenHive(s: string) returns (out: string)
    ensures out == Shorten(HIVES, s)
  {
    hide HIVES;
    for k := 0 to |HIVES|
      invariant Shorten(HIVES, s) == Shorten(HIVES[k..], s)
    {
      var (long, short) := HIVES[k];
      assert HIVES[k..][0] == HIVES[k] && HIVES[k..][1..] == HIVES[k + 1..];
      if s == long {
        assert s[|long|..] == "";
        return short;
      }
      var prefix := long + "/";
      if prefix <= s {
        assert s[|long|..] == "/" + s[|prefix|..];
        return short + "/" + s[|prefix|..];
      }
    }
    out := s;
  }

  // ===== normal forms =====

  predicate Folded(s: string) { Fold(s) == s }

  predicate NoHive(s: string) { forall k :: 0 <= k < |HIVES| ==> !Under(HIVES[k].0, s) }

  /** A path already in normal form. */
  predicate Normal(s: string) { Folded(s) && NoHive(s) }

  lemma FoldFolds(s: string)
    ensures Folded(Fold(s))
  {
    forall i | 0 <= i < |s| ensures FoldChar(FoldChar(s[i])) == FoldChar(s[i]) {
    }
  }

  lemma {:induction false} ShortenCases(hives: seq<(string, string)>, s: string)
    ensures (forall k :: 0 <= k < |hives| ==> !Under(hives[k].0, s)) ==> Shorten(hives, s) == s
    ensures (exists k :: 0 <= k < |hives| && Under(hives[k].0, s)) ==>
      exists k :: 0 <= k < |hives| && Under(hives[k].0, s) && Shorten(hives, s) == hives[k].1 + s[|hives[k].0|..]
    decreases |hives|
  {
    hide Under;
    if hives != [] {
      ShortenCases(hives[1..], s);
      if !Under(hives[0].0, s) {
        if k :| 0 <= k < |hives| && Under(hives[k].0, s) {
          assert hives[1..][k - 1] == hives[k];
        }
      }
    }
  }

  lemma NormalIsFixed(s: string)
    requires Normal(s)
    ensures Normalize(s) == s
  {
    hide HIVES, Under;
    ShortenCases(HIVES, s);
  }

  /** The short names are folded and under no long name: they differ in the third letter. */
  lemma ShortNames(k: nat, rest: string)
    requires k < |HIVES| && Folded(rest)
    ensures Normal(HIVES[k].1 + rest)
  {
    var s := HIVES[k].1 + rest;
    assert Folded(HIVES[k].1);
    forall i | 0 <= i < |s| ensures Fold(s)[i] == s[i] {
      if i < |HIVES[k].1| {
        assert Fold(HIVES[k].1)[i] == HIVES[k].1[i];
      } else {
        assert Fold(rest)[i - |HIVES[k].1|] == rest[i - |HIVES[k].1|];
      }
    }
    assert s[2] != 'e';
    forall j | 0 <= j < |HIVES| ensures !Under(HIVES[j].0, s) {
      assert HIVES[j].0[2] == 'e' && (HIVES[j].0 + "/")[2] == 'e';
    }
  }

  lemma FoldedTail(s: string, n: nat)
    requires Folded(s) && n <= |s|
    ensures Folded(s[n..])
  {
    forall i | 0 <= i < |s| - n ensures Fold(s[n..])[i] == s[n..][i] {
      assert Fold(s)[n + i] == s[n + i];
    }
  }

  lemma NormalizeNormal(path: string)
    ensures Normal(Normalize(path))
  {
    hide HIVES;
    var s := Fold(path);
    FoldFolds(path);
    ShortenCases(HIVES, s);
    if k :| 0 <= k < |HIVES| && Under(HIVES[k].0, s) && Shorten(HIVES, s) == HIVES[k].1 + s[|HIVES[k].0|..] {
      FoldedTail(s, |HIVES[k].0|);
      ShortNames(k, s[|HIVES[k].0|..]);
    }
  }

  /** Normalising twice is normalising once. */
  lemma NormalizeIdempotent(path: string)
    ensures Normalize(Normalize(path)) == Normalize(path)
  {
    hide Normalize, Normal;
    NormalizeNormal(path);
    NormalIsFixed(Normalize(path));
  }

  lemma NoSlash(k: nat)
    requires k < |HIVES|
    ensures '/' !in HIVES[k].0
  {}

  lemma UnderJoin(long: string, dir: string, name: string)
    ensures Under(long, dir + "/" + name) ==> Under(long, dir) || '/' in long
  {
    var s, p := dir + "/" + name, long + "/";
    assert s[|dir|] == '/';
    if s == long {
      assert long[|dir|] in long;
    } else if p <= s {
      if |dir| < |long| {
        assert long[|dir|] == p[|dir|] == s[|dir|];
        assert long[|dir|] in long;
      } else if |dir| == |long| {
        assert dir == s[..|dir|] == p[..|dir|] == long;
      } else {
        assert p == s[..|p|] == dir[..|p|];
      }
    }
  }

  lemma UnderJoinBack(long: string, dir: string, name: string)
    requires Under(long, dir)
    ensures |long| <= |dir| && Under(long, dir + "/" + name)
    ensures (dir + "/" + name)[|long|..] == dir[|long|..] + "/" + name
  {
    var s, p := dir + "/" + name, long + "/";
    if dir == long {
      assert p == s[..|p|];
    } else {
      assert p == dir[..|p|] == s[..|p|];
    }
  }

  lemma {:induction false} ShortenJoin(hives: seq<(string, string)>, dir: string, name: string)
    requires forall k :: 0 <= k < |hives| ==> '/' !in hives[k].0
    ensures Shorten(hives, dir + "/" + name) == Shorten(hives, dir) + "/" + name
    decreases |hives|
  {
    hide Under;
    if hives != [] {
      var (long, short) := hives[0];
      UnderJoin(long, dir, name);
      if Under(long, dir) {
        UnderJoinBack(long, dir, name);
        assert short + (dir[|long|..] + "/" + name) == short + dir[|long|..] + "/" + name;
      } else {
        ShortenJoin(hives[1..], dir, name);
      }
    }
  }

  /** Joining and normalising commute: the directory part as its own normal form, the
      component folded. */
  lemma NormalizeJoin(path: string, name: string)
    ensures Normalize(path + "/" + name) == Normalize(path) + "/" + Fold(name)
  {
    hide HIVES;
    assert Fold(path + "/" + name) == Fold(path) + "/" + Fold(name);
    forall k | 0 <= k < |HIVES| ensures '/' !in HIVES[k].0 {
      NoSlash(k);
    }
    ShortenJoin(HIVES, Fold(path), Fold(name));
  }
}
