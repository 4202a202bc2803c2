/** The `.ud` printer's call arguments. Each argument is printed bare or as a quoted
    string; reading the text back recovers the list, whatever the lexer accepts. */
module CallText {
  import opened Outcome

  // ===== characters =====

  predicate IsControl(c: char) { c as int < 0x20 || 0x7f <= c as int <= 0x9f }

  predicate IsAsciiGraphic(c: char) { 0x21 <= c as int <= 0x7e }

  predicate IsWhitespace(c: char) {
    var n := c as int;
    || 9 <= n <= 13 || n == 0x20 || n == 0x85 || n == 0xa0 || n == 0x1680 || 0x2000 <= n <= 0x200a
    || n == 0x2028 || n == 0x2029 || n == 0x202f || n == 0x205f || n == 0x3000
  }

  function HexDigit(n: nat): char
    requires n < 16
  {
    if n < 10 then (n + 48) as char else (n + 87) as char
  }

  function HexValue(c: char): Option<nat> {
    var n := c as int;
    if 48 <= n <= 57 then Some(n - 48) else if 97 <= n <= 102 then Some(n - 87) else None
  }

  // ===== quoting =====

  function Escaped(c: char): (r: string)
    ensures r != ""
  {
    if c == '\\' then "\\\\"
    else if c == '\"' then "\\\""
    else if c == '\n' then "\\n"
    else if c == '\r' then "\\r"
    else if c == '\t' then "\\t"
    else if c == '\0' then "\\0"
    else if c as int < 0x20 || c as int == 0x7f then
      "\\x" + [HexDigit(c as int / 16), HexDigit(c as int % 16)]
    else [c]
  }

  function QuotedBody(s: string): string {
    if s == "" then "" else Escaped(s[0]) + QuotedBody(s[1..])
  }

  function Quoted(s: string): string { "\"" + QuotedBody(s) + "\"" }

  lemma {:induction false} QuotedBodySnoc(s: string, c: char)
    ensures QuotedBody(s + [c]) == QuotedBody(s) + Escaped(c)
  {
    if s == "" {
      assert s + [c] == [c];
    } else {
      QuotedBodySnoc(s[1..], c);
      assert (s + [c])[1..] == s[1..] + [c];
    }
  }

  /** `quote_string`. */
  method QuoteString(s: string) returns (out: string)
    ensures out == Quoted(s)
  {
    out := "\"";
    for i := 0 to |s|
      invariant out == "\"" + QuotedBody(s[..i])
    {
      QuotedBodySnoc(s[..i], s[i]);
      assert s[..i + 1] == s[..i] + [s[i]];
      out := out + Escaped(s[i]);
    }
    assert s[..|s|] == s;
    out := out + "\"";
  }

  // ===== which arguments may stay bare =====

  datatype Mode = Mode(depth: nat, inString: bool, escape: bool, sawOther: bool)

  /** One character of the bare-argument check; `None` refuses the argument. */
  function BareStep(m: Mode, c: char): Option<Mode> {
    if m.inString then
      if IsControl(c) then None
      else if m.escape then Some(m.(escape := false))
      else if c == '\\' then Some(m.(escape := true))
      else if c == '\"' then Some(m.(inString := false))
      else Some(m)
    else if !IsAsciiGraphic(c) && m.depth == 0 then None
    else if IsWhitespace(c) && m.depth > 0 then Some(m.(sawOther := true))
    else if !IsAsciiGraphic(c) then None
    else if c == '\"' then Some(m.(inString := true))
    else if c == '\\' then None
    else if c == '(' || c == '[' then Some(m.(depth := m.depth + 1, sawOther := true))
    else if c == ')' || c == ']' then
      if m.depth == 0 then None else Some(m.(depth := m.depth - 1, sawOther := true))
    else if c == ',' && m.depth == 0 then None
    else Some(m.(sawOther := true))
  }

  function BareScan(m: Mode, s: string): Option<Mode>
    decreases |s|
  {
    if s == "" then Some(m)
    else
      var next :- BareStep(m, s[0]);
      BareScan(next, s[1..])
  }

  const START := Mode(0, false, false, false)

  predicate IsBare(lexes: string -> bool, s: string) {
    && s != "" && lexes(s)
    && BareScan(START, s).Some?
    && var m := BareScan(START, s).value;
    !m.inString && m.depth == 0 && m.sawOther
  }

  /** `arg_is_unquoted_safe`. */
  method ArgIsUnquotedSafe(lexes: string -> bool, s: string) returns (safe: bool)
    ensures safe == IsBare(lexes, s)
  {
    if s == "" || !lexes(s) {
      return false;
    }
    var m := START;
    for i := 0 to |s|
      invariant BareScan(START, s) == BareScan(m, s[i..])
    {
      assert s[i..][0] == s[i] && s[i..][1..] == s[i + 1..];
      var next := BareStep(m, s[i]);
      if next.None? {
        return false;
      }
      m := next.value;
    }
    if m.inString || m.depth != 0 {
      return false;
    }
    safe := m.sawOther;
  }

  // ===== printing the list =====

  function ArgText(lexes: string -> bool, a: string): string {
    if IsBare(lexes, a) then a else Quoted(a)
  }

  /** The arguments separated by a comma and a space. */
  function ArgsText(lexes: string -> bool, args: seq<string>): string
    decreases |args|
  {
    if args == [] then ""
    else
      var n := |args| - 1;
      ArgsText(lexes, args[..n]) + Separator(n) + ArgText(lexes, args[n])
  }

  function Separator(i: nat): string { if i > 0 then ", " else "" }

  lemma ArgsTextSnoc(lexes: string -> bool, args: seq<string>, i: nat)
    requires i < |args|
    ensures ArgsText(lexes, args[..i + 1]) == ArgsText(lexes, args[..i]) + Separator(i) + ArgText(lexes, args[i])
  {
    hide ArgText;
    assert args[..i + 1][..i] == args[..i];
  }

  method EmitArg(lexes: string -> bool, a: string, out: string) returns (text: string)
    ensures text == out + ArgText(lexes, a)
  {
    var bare := ArgIsUnquotedSafe(lexes, a);
    if bare {
      text := out + a;
    } else {
      var q := QuoteString(a);
      text := out + q;
    }
  }

  /** The argument loop of the `Stmt::Call` arm. */
  method EmitArgs(lexes: string -> bool, args: seq<string>, out: string) returns (text: string)
    ensures text == out + (ArgsText(lexes, args) + ")")
  {
    hide ArgText, ArgsText, Separator;
    text := out;
    assert args[..0] == [] && text == out + ArgsText(lexes, args[..0]) by { EmptyText(lexes, out); }
    for i := 0 to |args|
      invariant text == out + ArgsText(lexes, args[..i])
    {
      ghost var before, a := ArgsText(lexes, args[..i]), ArgText(lexes, args[i]);
      ArgsTextSnoc(lexes, args, i);
      text := text + Separator(i);
      text := EmitArg(lexes, args[i], text);
      assert out + before + Separator(i) + a == out + (before + Separator(i) + a);
    }
    assert args[..|args|] == args;
    assert out + ArgsText(lexes, args) + ")" == out + (ArgsText(lexes, args) + ")");
    text := text + ")";
  }

  lemma EmptyText(lexes: string -> bool, out: string)
    ensures out + ArgsText(lexes, []) == out
  {
    assert out + "" == out;
  }

  // ===== reading the list back =====

  datatype Scan = Scan(depth: nat, inString: bool, escape: bool) {
    predicate Top() { depth == 0 && !inString }
  }

  const OUTSIDE := Scan(0, false, false)

  function ScanStep(k: Scan, c: char): Scan {
    if k.inString then
      if k.escape then k.(escape := false)
      else if c == '\\' then k.(escape := true)
      else if c == '\"' then k.(inString := false)
      else k
    else if c == '\"' then k.(inString := true)
    else if c == '(' || c == '[' then k.(depth := k.depth + 1)
    else if (c == ')' || c == ']') && k.depth > 0 then k.(depth := k.depth - 1)
    else k
  }

  /** Cut at top-level commas up to the first closing bracket at depth zero; also the
      text behind that bracket. */
  function Pieces(text: string, k: Scan, current: string): Option<(seq<string>, string)>
    decreases |text|
  {
    if text == "" then None
    else if k.Top() && text[0] == ')' then Some(([current], text[1..]))
    else if k.Top() && text[0] == ',' then
      var (pieces, rest) :- Pieces(text[1..], k, "");
      Some(([current] + pieces, rest))
    else Pieces(text[1..], ScanStep(k, text[0]), current + [text[0]])
  }

  /** The closing quote of a string whose opening quote has been passed. */
  function StringEnd(s: string, escape: bool): Option<nat> {
    if s == "" then None
    else if !escape && s[0] == '\"' then Some(0)
    else
      var n :- StringEnd(s[1..], !escape && s[0] == '\\');
      Some(n + 1)
  }

  function Unescape(s: string): Option<string>
    decreases |s|
  {
    if s == "" then Some("")
    else if s[0] != '\\' then
      var rest :- Unescape(s[1..]);
      Some([s[0]] + rest)
    else if |s| < 2 then None
    else if s[1] == 'x' then
      if |s| < 4 then None
      else
        var hi :- HexValue(s[2]);
        var lo :- HexValue(s[3]);
        var rest :- Unescape(s[4..]);
        Some([(hi * 16 + lo) as char] + rest)
    else
      var c :- Named(s[1]);
      var rest :- Unescape(s[2..]);
      Some([c] + rest)
  }

  function Named(c: char): Option<char> {
    if c == '\\' || c == '\"' then Some(c)
    else if c == 'n' then Some('\n')
    else if c == 'r' then Some('\r')
    else if c == 't' then Some('\t')
    else if c == '0' then Some('\0')
    else None
  }

  predicate IsSingleString(p: string) {
    |p| >= 2 && p[0] == '\"' && StringEnd(p[1..], false) == Some(|p| - 2)
  }

  /** A piece that is exactly one string is unescaped; any other is taken verbatim. */
  function ReadPiece(p: string): Option<string> {
    if IsSingleString(p) then Unescape(p[1..|p| - 1]) else Some(p)
  }

  function DropSpaces(s: string): string {
    if s != "" && s[0] == ' ' then DropSpaces(s[1..]) else s
  }

  /** Blank pieces contribute nothing. */
  function ReadPieces(ps: seq<string>): Option<seq<string>>
    decreases |ps|
  {
    if ps == [] then Some([])
    else
      var front :- ReadPieces(ps[..|ps| - 1]);
      var p := DropSpaces(ps[|ps| - 1]);
      if p == "" then Some(front)
      else
        var a :- ReadPiece(p);
        Some(front + [a])
  }

  /** The argument list at the start of `text`, and what follows its bracket. */
  function ReadCall(text: string): Option<(seq<string>, string)> {
    var (pieces, rest) :- Pieces(text, OUTSIDE, "");
    var args :- ReadPieces(pieces);
    Some((args, rest))
  }

  // ===== a printed argument is one self-contained piece =====

  /** Scanning `t` meets no top-level comma or closing bracket. */
  function Clean(k: Scan, t: string): Option<Scan>
    decreases |t|
  {
    if t == "" then Some(k)
    else if k.Top() && (t[0] == ')' || t[0] == ',') then None
    else Clean(ScanStep(k, t[0]), t[1..])
  }

  lemma {:induction false} PiecesSkip(t: string, k: Scan, current: string, more: string)
    requires Clean(k, t).Some?
    ensures Pieces(t + more, k, current) == Pieces(more, Clean(k, t).value, current + t)
    decreases |t|
  {
    if t == "" {
      assert t + more == more && current + t == current;
    } else {
      var text := t + more;
      assert text[0] == t[0] && text[1..] == t[1..] + more;
      PiecesSkip(t[1..], ScanStep(k, t[0]), current + [t[0]], more);
      assert current + [t[0]] + t[1..] == current + t;
    }
  }

  lemma {:induction false} CleanAppend(k: Scan, s: string, t: string)
    requires Clean(k, s).Some?
    ensures Clean(k, s + t) == Clean(Clean(k, s).value, t)
    decreases |s|
  {
    if s == "" {
      assert s + t == t;
    } else {
      assert (s + t)[1..] == s[1..] + t;
      CleanAppend(ScanStep(k, s[0]), s[1..], t);
    }
  }

  function ScanOf(m: Mode): Scan { Scan(m.depth, m.inString, m.escape) }

  /** The bare check runs the same machine as the scanner. */
  lemma {:induction false} BareIsClean(m: Mode, s: string)
    requires BareScan(m, s).Some? && (m.escape ==> m.inString)
    ensures Clean(ScanOf(m), s) == Some(ScanOf(BareScan(m, s).value))
    ensures BareScan(m, s).value.escape ==> BareScan(m, s).value.inString
    decreases |s|
  {
    if s != "" {
      var next := BareStep(m, s[0]).value;
      assert ScanStep(ScanOf(m), s[0]) == ScanOf(next);
      BareIsClean(next, s[1..]);
    }
  }

  const INSIDE := Scan(0, true, false)

  lemma EscapedIsClean(c: char)
    ensures Clean(INSIDE, Escaped(c)) == Some(INSIDE)
  {
    var e := Escaped(c);
    if |e| == 2 {
      assert e[1..][1..] == "";
      assert Clean(Scan(0, true, true), e[1..]) == Some(INSIDE);
    } else if |e| == 4 {
      var hi, lo := HexDigit(c as int / 16), HexDigit(c as int % 16);
      assert e == ['\\', 'x', hi, lo];
      assert hi != '\"' && hi != '\\' && lo != '\"' && lo != '\\';
      assert e[1..] == ['x', hi, lo] && e[1..][1..] == [hi, lo] && [hi, lo][1..] == [lo] && [lo][1..] == [];
      assert Clean(INSIDE, [lo]) == Some(INSIDE);
      assert Clean(INSIDE, [hi, lo]) == Some(INSIDE);
      assert Clean(Scan(0, true, true), e[1..]) == Some(INSIDE);
    } else {
      assert e == [c] && e[1..] == "";
    }
  }

  lemma {:induction false} QuotedBodyIsClean(s: string)
    ensures Clean(INSIDE, QuotedBody(s)) == Some(INSIDE)
  {
    if s != "" {
      EscapedIsClean(s[0]);
      QuotedBodyIsClean(s[1..]);
      CleanAppend(INSIDE, Escaped(s[0]), QuotedBody(s[1..]));
    }
  }

  lemma QuotedIsClean(s: string)
    ensures Clean(OUTSIDE, Quoted(s)) == Some(OUTSIDE)
  {
    var q := Quoted(s);
    assert q[0] == '\"' && q[1..] == QuotedBody(s) + "\"";
    QuotedBodyIsClean(s);
    CleanAppend(INSIDE, QuotedBody(s), "\"");
    assert Clean(INSIDE, "\"") == Some(OUTSIDE) by {
      assert "\""[1..] == "";
    }
  }

  lemma ArgIsClean(lexes: string -> bool, a: string)
    ensures Clean(OUTSIDE, ArgText(lexes, a)) == Some(OUTSIDE)
  {
    if IsBare(lexes, a) {
      BareIsClean(START, a);
    } else {
      QuotedIsClean(a);
    }
  }

  lemma ArgFirstChar(lexes: string -> bool, a: string)
    ensures ArgText(lexes, a) != "" && ArgText(lexes, a)[0] != ' '
  {
    if IsBare(lexes, a) {
      assert BareStep(START, a[0]).Some?;
    }
  }

  // ===== a printed argument is read back =====

  lemma {:induction false} EndAppend(s: string, escape: bool, t: string)
    requires Clean(Scan(0, true, escape), s) == Some(INSIDE) && StringEnd(s, escape).None?
    ensures StringEnd(s + t, escape) == match StringEnd(t, false) case None => None case Some(n) => Some(|s| + n)
    decreases |s|
  {
    if s == "" {
      assert s + t == t;
    } else {
      assert (s + t)[1..] == s[1..] + t;
      EndAppend(s[1..], !escape && s[0] == '\\', t);
    }
  }

  lemma EscapedHasNoEnd(c: char)
    ensures StringEnd(Escaped(c), false).None?
  {
    var e := Escaped(c);
    if |e| == 2 {
      assert e[1..][1..] == "";
      assert StringEnd(e[1..], true).None?;
    } else if |e| == 4 {
      var hi, lo := HexDigit(c as int / 16), HexDigit(c as int % 16);
      assert e == ['\\', 'x', hi, lo];
      assert hi != '\"' && hi != '\\' && lo != '\"' && lo != '\\';
      assert e[1..] == ['x', hi, lo] && e[1..][1..] == [hi, lo] && [hi, lo][1..] == [lo] && [lo][1..] == [];
      assert StringEnd([lo], false).None?;
      assert StringEnd([hi, lo], false).None?;
      assert StringEnd(e[1..], true).None?;
    } else {
      assert e == [c] && e[1..] == "";
    }
  }

  lemma {:induction false} QuotedBodyEnd(s: string)
    ensures StringEnd(QuotedBody(s) + "\"", false) == Some(|QuotedBody(s)|)
  {
    if s == "" {
      assert QuotedBody(s) + "\"" == "\"";
    } else {
      var e, rest := Escaped(s[0]), QuotedBody(s[1..]) + "\"";
      EscapedIsClean(s[0]);
      EscapedHasNoEnd(s[0]);
      QuotedBodyEnd(s[1..]);
      EndAppend(e, false, rest);
      assert QuotedBody(s) + "\"" == e + rest;
    }
  }

  /** `quote_string` is a prefix code: each character reads back on its own. */
  lemma UnescapeOne(c: char, rest: string)
    ensures Unescape(Escaped(c) + rest) ==
      match Unescape(rest) case None => None case Some(r) => Some([c] + r)
  {
    var e := Escaped(c);
    var s := e + rest;
    if |e| == 1 {
      assert s[1..] == rest;
    } else if |e| == 2 {
      assert s[0] == '\\' && s[1] == e[1] && s[2..] == rest;
    } else {
      var n := c as int;
      assert s[0] == '\\' && s[1] == 'x' && s[2] == HexDigit(n / 16) && s[3] == HexDigit(n % 16);
      assert s[4..] == rest;
      assert (n / 16) * 16 + n % 16 == n;
    }
  }

  lemma {:induction false} UnescapeQuoted(s: string)
    ensures Unescape(QuotedBody(s)) == Some(s)
  {
    hide Unescape, Escaped;
    if s == "" {
      assert Unescape("") == Some("") by { UnescapeNothing(); }
    } else {
      UnescapeQuoted(s[1..]);
      UnescapeOne(s[0], QuotedBody(s[1..]));
      assert s == [s[0]] + s[1..];
    }
  }

  lemma UnescapeNothing()
    ensures Unescape("") == Some("")
  {}

  lemma ReadQuoted(s: string)
    ensures ReadPiece(Quoted(s)) == Some(s)
  {
    var q := Quoted(s);
    assert q[1..] == QuotedBody(s) + "\"" && q[1..|q| - 1] == QuotedBody(s);
    QuotedBodyEnd(s);
    UnescapeQuoted(s);
  }

  /** A text that is one string and nothing else never shows a non-string character. */
  lemma {:induction false} OnlyString(m: Mode, s: string)
    requires m.inString && StringEnd(s, m.escape) == Some(|s| - 1) && BareScan(m, s).Some?
    ensures BareScan(m, s).value.sawOther == m.sawOther
    decreases |s|
  {
    var next := BareStep(m, s[0]).value;
    if |s| == 1 {
      assert s[1..] == "";
    } else {
      OnlyString(next, s[1..]);
    }
  }

  lemma ReadBare(lexes: string -> bool, a: string)
    requires IsBare(lexes, a)
    ensures ReadPiece(a) == Some(a)
  {
    if IsSingleString(a) {
      OnlyString(START.(inString := true), a[1..]);
      assert false;
    }
  }

  lemma ReadArg(lexes: string -> bool, a: string)
    ensures ReadPiece(ArgText(lexes, a)) == Some(a)
  {
    if IsBare(lexes, a) {
      ReadBare(lexes, a);
    } else {
      ReadQuoted(a);
    }
  }

  // ===== the whole list =====

  /** What the printer puts between two cuts. */
  function PieceText(lexes: string -> bool, args: seq<string>, i: nat): string
    requires i < |args|
  {
    (if i > 0 then " " else "") + ArgText(lexes, args[i])
  }

  function PieceTexts(lexes: string -> bool, args: seq<string>): (ps: seq<string>)
    ensures |ps| == |args|
  {
    seq(|args|, i requires 0 <= i < |args| => PieceText(lexes, args, i))
  }

  /** The printed text from argument `i` on, up to and including the bracket. */
  function TextFrom(lexes: string -> bool, args: seq<string>, i: nat): string
    requires i < |args|
    decreases |args| - i
  {
    PieceText(lexes, args, i) + if i + 1 == |args| then ")" else "," + TextFrom(lexes, args, i + 1)
  }

  /** What stands between two arguments is the cut and one blank. */
  lemma ArgsTextStep(lexes: string -> bool, args: seq<string>, i: nat)
    requires i < |args|
    ensures ArgsText(lexes, args[..i + 1]) ==
      ArgsText(lexes, args[..i]) + ((if i > 0 then "," else "") + PieceText(lexes, args, i))
  {
    hide ArgText, ArgsText;
    ArgsTextSnoc(lexes, args, i);
    var before, a := ArgsText(lexes, args[..i]), ArgText(lexes, args[i]);
    if i > 0 {
      assert ", " == "," + " ";
      assert before + ("," + " ") + a == before + ("," + (" " + a));
    } else {
      assert before + "" + a == before + ("" + ("" + a));
    }
  }

  lemma {:induction false} TextUpTo(lexes: string -> bool, args: seq<string>, i: nat)
    requires i < |args|
    ensures ArgsText(lexes, args) + ")" ==
      ArgsText(lexes, args[..i]) + ((if i > 0 then "," else "") + TextFrom(lexes, args, i))
    decreases |args| - i
  {
    hide ArgText, PieceText, ArgsText;
    ArgsTextStep(lexes, args, i);
    var before, sep, p := ArgsText(lexes, args[..i]), if i > 0 then "," else "", PieceText(lexes, args, i);
    if i + 1 == |args| {
      assert args[..i + 1] == args;
      assert (before + (sep + p)) + ")" == before + (sep + (p + ")"));
    } else {
      TextUpTo(lexes, args, i + 1);
      var tail := "," + TextFrom(lexes, args, i + 1);
      assert (before + (sep + p)) + tail == before + (sep + (p + tail));
    }
  }

  lemma PieceIsClean(lexes: string -> bool, args: seq<string>, i: nat)
    requires i < |args|
    ensures Clean(OUTSIDE, PieceText(lexes, args, i)) == Some(OUTSIDE)
  {
    hide ArgText;
    ArgIsClean(lexes, args[i]);
    if i > 0 {
      assert Clean(OUTSIDE, " ") == Some(OUTSIDE) by { assert " "[1..] == ""; }
      CleanAppend(OUTSIDE, " ", ArgText(lexes, args[i]));
    } else {
      assert "" + ArgText(lexes, args[i]) == ArgText(lexes, args[i]);
    }
  }

  lemma {:induction false} CutPieces(lexes: string -> bool, args: seq<string>, i: nat, rest: string)
    requires i < |args|
    ensures Pieces(TextFrom(lexes, args, i) + rest, OUTSIDE, "") == Some((PieceTexts(lexes, args)[i..], rest))
    decreases |args| - i
  {
    hide PieceText, Clean;
    var p := PieceText(lexes, args, i);
    var ps := PieceTexts(lexes, args);
    PieceIsClean(lexes, args, i);
    if i + 1 == |args| {
      assert TextFrom(lexes, args, i) + rest == p + (")" + rest);
      PiecesSkip(p, OUTSIDE, "", ")" + rest);
      assert (")" + rest)[1..] == rest && "" + p == p;
      assert ps[i..] == [p];
    } else {
      var tail := TextFrom(lexes, args, i + 1) + rest;
      assert TextFrom(lexes, args, i) + rest == p + ("," + tail);
      PiecesSkip(p, OUTSIDE, "", "," + tail);
      assert ("," + tail)[1..] == tail && "" + p == p;
      CutPieces(lexes, args, i + 1, rest);
      assert ps[i..] == [p] + ps[i + 1..];
    }
  }

  lemma PieceTrimmed(lexes: string -> bool, args: seq<string>, i: nat)
    requires i < |args|
    ensures DropSpaces(PieceText(lexes, args, i)) == ArgText(lexes, args[i]) != ""
  {
    hide ArgText;
    ArgFirstChar(lexes, args[i]);
    var p := PieceText(lexes, args, i);
    if i > 0 {
      assert p[1..] == ArgText(lexes, args[i]);
    } else {
      assert p == ArgText(lexes, args[i]);
    }
  }

  lemma {:induction false} ReadAll(lexes: string -> bool, args: seq<string>, n: nat)
    requires n <= |args|
    ensures ReadPieces(PieceTexts(lexes, args)[..n]) == Some(args[..n])
    decreases n
  {
    hide ArgText, ReadPiece, PieceText, DropSpaces;
    if n > 0 {
      var ps := PieceTexts(lexes, args)[..n];
      assert ps[..n - 1] == PieceTexts(lexes, args)[..n - 1];
      ReadAll(lexes, args, n - 1);
      PieceTrimmed(lexes, args, n - 1);
      ReadArg(lexes, args[n - 1]);
      assert args[..n] == args[..n - 1] + [args[n - 1]];
    }
  }

  /** The printed argument list is uniquely decodable: reading it back gives the
      arguments and leaves exactly the text that followed, for every list of strings,
      every lexer and every continuation. */
  lemma ReadOfEmit(lexes: string -> bool, args: seq<string>, rest: string)
    ensures ReadCall(ArgsText(lexes, args) + ")" + rest) == Some((args, rest))
  {
    hide PieceText, ArgText;
    if args == [] {
      var text := ")" + rest;
      assert ArgsText(lexes, args) + ")" + rest == text;
      assert text[1..] == rest;
      assert Pieces(text, OUTSIDE, "") == Some(([""], rest));
      assert [""][..0] == [];
    } else {
      TextUpTo(lexes, args, 0);
      assert args[..0] == [];
      assert "" + ("" + TextFrom(lexes, args, 0)) == TextFrom(lexes, args, 0);
      CutPieces(lexes, args, 0, rest);
      var ps := PieceTexts(lexes, args);
      assert ps[0..] == ps && ps[..|args|] == ps && args[..|args|] == args;
      ReadAll(lexes, args, |args|);
    }
  }

  /** Two printed lists with the same text are the same list, even under two lexers. */
  lemma EmitInjective(l1: string -> bool, l2: string -> bool, a1: seq<string>, a2: seq<string>, r1: string, r2: string)
    requires ArgsText(l1, a1) + ")" + r1 == ArgsText(l2, a2) + ")" + r2
    ensures a1 == a2 && r1 == r2
  {
    ReadOfEmit(l1, a1, r1);
    ReadOfEmit(l2, a2, r2);
  }
}
