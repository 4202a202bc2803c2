/** The playground's base-58 decoder: schoolbook multiplication in a byte buffer whose
    size comes from a rational approximation of log 58 / log 256. */
module Base58 {
  import opened Bytes
  import opened Outcome

  // ===== positional numbers in any base =====

  predicate Digits(b: nat, ds: seq<int>) { forall i :: 0 <= i < |ds| ==> 0 <= ds[i] < b }

  /** The number whose digits are `ds`, most significant first. */
  function ValueOf(b: nat, ds: seq<int>): int
    decreases |ds|
  {
    if ds == [] then 0 else ValueOf(b, ds[..|ds| - 1]) * b + ds[|ds| - 1]
  }

  /** The shortest digit string of `v`. */
  function MinDigits(b: nat, v: nat): (ds: seq<int>)
    requires b >= 2
    ensures Digits(b, ds) && (ds != [] ==> ds[0] != 0)
  {
    if v == 0 then [] else
      QuotientSmaller(b, v);
      MinDigits(b, v / b) + [v % b]
  }

  lemma QuotientSmaller(b: nat, v: nat)
    requires b >= 2 && v > 0
    ensures v / b < v && (v / b == 0 ==> v % b == v)
  {
    assert v == (v / b) * b + v % b;
    if v / b >= v {
      MulMonotone(v, v / b, b);
      assert v * b >= 2 * v by { MulMonotone(2, b, v); }
    }
  }

  function Pow(b: nat, e: nat): (r: nat)
  {
    if e == 0 then 1 else b * Pow(b, e - 1)
  }

  lemma {:induction false} ValueOfMin(b: nat, v: nat)
    requires b >= 2
    ensures ValueOf(b, MinDigits(b, v)) == v
  {
    if v > 0 {
      QuotientSmaller(b, v);
      var q, r := v / b, v % b;
      DivisionLaw(v, b);
      ValueOfMin(b, q);
      ValueSnoc(b, MinDigits(b, q), r);
      hide ValueOf;
    }
  }

  lemma DivisionLaw(v: nat, b: nat)
    requires b > 0
    ensures v == (v / b) * b + v % b
  {}

  lemma ValueSnoc(b: nat, ds: seq<int>, d: int)
    ensures ValueOf(b, ds + [d]) == ValueOf(b, ds) * b + d
  {
    assert (ds + [d])[..|ds|] == ds;
  }

  lemma {:induction false} ValueBounds(b: nat, ds: seq<int>)
    requires b >= 2 && Digits(b, ds)
    ensures 0 <= ValueOf(b, ds) < Pow(b, |ds|)
    ensures ds != [] && ds[0] != 0 ==> ValueOf(b, ds) > 0
    decreases |ds|
  {
    if ds != [] {
      var front := ds[..|ds| - 1];
      ValueBounds(b, front);
      BoundStep(ValueOf(b, front), Pow(b, |front|), b, ds[|ds| - 1]);
    }
  }

  lemma BoundStep(v: int, p: nat, b: nat, d: int)
    requires 0 <= v < p && 0 <= d < b
    ensures 0 <= v * b + d < b * p && (v > 0 ==> v * b + d > 0)
  {
    MulMonotone(0, v, b);
    MulMonotone(v, p - 1, b);
    MulDistribute(p, 1, b);
    if v > 0 {
      MulMonotone(1, v, b);
    }
  }

  /** A digit string without a leading zero is the shortest one of its value. */
  lemma {:induction false} MinOfValue(b: nat, ds: seq<int>)
    requires b >= 2 && Digits(b, ds) && (ds != [] ==> ds[0] != 0)
    ensures ValueOf(b, ds) >= 0 && MinDigits(b, ValueOf(b, ds)) == ds
    decreases |ds|
  {
    ValueBounds(b, ds);
    if ds != [] {
      var front, last := ds[..|ds| - 1], ds[|ds| - 1];
      ValueBounds(b, front);
      MinOfValue(b, front);
      ModUnique(ValueOf(b, ds), b, ValueOf(b, front), last);
      assert ds == front + [last];
    }
  }

  lemma {:induction false} ValueCons(b: nat, d: int, ds: seq<int>)
    ensures ValueOf(b, [d] + ds) == d * Pow(b, |ds|) + ValueOf(b, ds)
    decreases |ds|
  {
    if ds != [] {
      var n := |ds| - 1;
      ValueCons(b, d, ds[..n]);
      assert ([d] + ds)[..n + 1] == [d] + ds[..n];
      Spread(d, Pow(b, n), ValueOf(b, ds[..n]), b);
    }
  }

  lemma Spread(d: int, p: int, v: int, b: int)
    ensures (d * p + v) * b == d * (b * p) + v * b
  {
    assert (d * p) * b == d * (b * p);
  }

  lemma {:induction false} LeadingZerosWorthless(b: nat, z: nat, ds: seq<int>)
    ensures ValueOf(b, seq(z, _ => 0) + ds) == ValueOf(b, ds)
  {
    if z == 0 {
      assert seq(0, _ => 0) + ds == ds;
    } else {
      LeadingZerosWorthless(b, z - 1, ds);
      assert seq(z, _ => 0) + ds == [0] + (seq(z - 1, _ => 0) + ds);
      ValueCons(b, 0, seq(z - 1, _ => 0) + ds);
    }
  }

  // ===== the buffer is large enough =====

  lemma {:induction false} PowAdd(b: nat, m: nat, n: nat)
    ensures Pow(b, m + n) == Pow(b, m) * Pow(b, n)
  {
    if m > 0 {
      PowAdd(b, m - 1, n);
      MulAssociates(b, Pow(b, m - 1), Pow(b, n));
    }
  }

  lemma MulAssociates(a: int, b: int, c: int)
    ensures a * (b * c) == a * b * c
  {}

  lemma {:induction false} PowMul(b: nat, m: nat, n: nat)
    ensures Pow(b, m * n) == Pow(Pow(b, m), n)
  {
    if n == 0 {
      assert m * n == 0;
    } else {
      PowMul(b, m, n - 1);
      assert m * n == m + m * (n - 1);
      PowAdd(b, m, m * (n - 1));
    }
  }

  lemma {:induction false} PowMonotone(a: nat, b: nat, n: nat)
    requires a <= b
    ensures Pow(a, n) <= Pow(b, n)
  {
    if n > 0 {
      PowMonotone(a, b, n - 1);
      MulMonotone(a, b, Pow(a, n - 1));
      MulMonotone(Pow(a, n - 1), Pow(b, n - 1), b);
    }
  }

  lemma {:induction false} PowStrict(a: nat, b: nat, n: nat)
    requires a < b && n > 0
    ensures Pow(a, n) < Pow(b, n)
  {
    if n == 1 {
      assert Pow(a, 1) == a * Pow(a, 0) && Pow(b, 1) == b * Pow(b, 0);
    } else {
      PowStrict(a, b, n - 1);
      MulMonotone(a, b, Pow(a, n - 1));
      MulMonotone(Pow(a, n - 1) + 1, Pow(b, n - 1), b);
      assert (Pow(a, n - 1) + 1) * b == Pow(a, n - 1) * b + b;
    }
  }

  lemma {:induction false} PowExponent(b: nat, m: nat, n: nat)
    requires b >= 1 && m <= n
    ensures 1 <= Pow(b, m) <= Pow(b, n)
    decreases n
  {
    if n > 0 {
      if m == n {
        PowExponent(b, m - 1, n - 1);
        MulMonotone(1, Pow(b, n - 1), b);
      } else {
        PowExponent(b, m, n - 1);
        MulMonotone(1, b, Pow(b, n - 1));
      }
    }
  }

  /** 58^71 is just below 256^52, a finer ratio than 733 / 1000. */
  lemma Ratio()
    ensures Pow(58, 71) <= Pow(256, 52)
  {
    assert Pow(58, 5) == 656356768;
    assert Pow(256, 4) == 4294967296;
    PowMul(58, 5, 14);
    PowAdd(58, 70, 1);
    PowMul(256, 4, 13);
    assert Pow(58, 71) == Pow(656356768, 14) * 58;
    Ratio14();
  }

  lemma Ratio14()
    ensures Pow(656356768, 14) * 58 <= Pow(4294967296, 13)
  {
    var a, b: nat := 656356768, 4294967296;
    assert Pow(a, 2) == 430804206899405824;
    assert Pow(b, 2) == 18446744073709551616;
    assert Pow(a, 3) == a * Pow(a, 2);
    assert Pow(a, 4) == a * Pow(a, 3);
  }

  /** For every input length the buffer of `floor(733n / 1000) + 1` bytes can hold
      any `n`-digit number. */
  lemma BufferHolds(n: nat)
    ensures Pow(58, n) <= Pow(256, 733 * n / 1000 + 1)
  {
    var m := 733 * n / 1000 + 1;
    Ratio();
    PowMul(58, n, 71);
    PowMul(58, 71, n);
    assert n * 71 == 71 * n;
    PowMonotone(Pow(58, 71), Pow(256, 52), n);
    PowMul(256, 52, n);
    assert 52 * n <= 71 * m;
    PowExponent(256, 52 * n, 71 * m);
    PowMul(256, m, 71);
    assert m * 71 == 71 * m;
    assert Pow(Pow(58, n), 71) <= Pow(Pow(256, m), 71);
    if Pow(58, n) > Pow(256, m) {
      PowStrict(Pow(256, m), Pow(58, n), 71);
    }
  }

  // ===== the alphabet =====

  /** Digits and letters in runs; `0`, `I`, `O` and `l` are left out. */
  const ALPHABET: string :=
    "123456789" + "ABCDEFGH" + "JKLMN" + "PQRSTUVWXYZ" + "abcdefghijk" + "mnopqrstuvwxyz"

  /** A UTF-16 code unit, as `charCodeAt` returns it. */
  type Code = c: int | 0 <= c < 0x1_0000

  /** The alphabet's code for a digit. */
  function CodeOf(d: int): Code
    requires 0 <= d < 58
  {
    if d < 9 then d + 49
    else if d < 17 then d + 56
    else if d < 22 then d + 57
    else if d < 33 then d + 58
    else if d < 44 then d + 64
    else d + 65
  }

  /** The digit of a code, or -1. */
  function DigitOf(c: Code): (d: int)
    ensures -1 <= d < 58
  {
    if 49 <= c < 58 then c - 49
    else if 65 <= c < 73 then c - 56
    else if 74 <= c < 79 then c - 57
    else if 80 <= c < 91 then c - 58
    else if 97 <= c < 108 then c - 64
    else if 109 <= c < 123 then c - 65
    else -1
  }

  predicate Run(s: string, first: int) { forall i :: 0 <= i < |s| ==> s[i] as int == first + i }

  lemma ShortRuns()
    ensures Run("123456789", 49) && Run("ABCDEFGH", 65) && Run("JKLMN", 74)
  {
    var a, b, c := "123456789", "ABCDEFGH", "JKLMN";
    assert a[0] == '1' && a[1] == '2' && a[2] == '3' && a[3] == '4' && a[4] == '5';
    assert a[5] == '6' && a[6] == '7' && a[7] == '8' && a[8] == '9';
    assert b[0] == 'A' && b[1] == 'B' && b[2] == 'C' && b[3] == 'D';
    assert b[4] == 'E' && b[5] == 'F' && b[6] == 'G' && b[7] == 'H';
    assert c[0] == 'J' && c[1] == 'K' && c[2] == 'L' && c[3] == 'M' && c[4] == 'N';
  }

  lemma LongRuns()
    ensures Run("PQRSTUVWXYZ", 80) && Run("abcdefghijk", 97) && Run("mnopqrstuvwxyz", 109)
  {
    var d, e, f := "PQRSTUVWXYZ", "abcdefghijk", "mnopqrstuvwxyz";
    assert d[0] == 'P' && d[1] == 'Q' && d[2] == 'R' && d[3] == 'S' && d[4] == 'T' && d[5] == 'U';
    assert d[6] == 'V' && d[7] == 'W' && d[8] == 'X' && d[9] == 'Y' && d[10] == 'Z';
    assert e[0] == 'a' && e[1] == 'b' && e[2] == 'c' && e[3] == 'd' && e[4] == 'e' && e[5] == 'f';
    assert e[6] == 'g' && e[7] == 'h' && e[8] == 'i' && e[9] == 'j' && e[10] == 'k';
    assert f[0] == 'm' && f[1] == 'n' && f[2] == 'o' && f[3] == 'p' && f[4] == 'q' && f[5] == 'r' && f[6] == 's';
    assert f[7] == 't' && f[8] == 'u' && f[9] == 'v' && f[10] == 'w' && f[11] == 'x' && f[12] == 'y' && f[13] == 'z';
  }

  lemma JoinRuns(a: string, b: string, c: string, d: string, e: string, f: string)
    requires |a| == 9 && |b| == 8 && |c| == 5 && |d| == 11 && |e| == 11 && |f| == 14
    requires Run(a, 49) && Run(b, 65) && Run(c, 74) && Run(d, 80) && Run(e, 97) && Run(f, 109)
    ensures var s := a + b + c + d + e + f;
      |s| == 58 && forall i :: 0 <= i < 58 ==> s[i] as int == CodeOf(i)
  {}

  lemma AlphabetCodes()
    ensures |ALPHABET| == 58
    ensures forall d :: 0 <= d < 58 ==> ALPHABET[d] as int == CodeOf(d)
  {
    ShortRuns();
    LongRuns();
    hide Run;
    JoinRuns("123456789", "ABCDEFGH", "JKLMN", "PQRSTUVWXYZ", "abcdefghijk", "mnopqrstuvwxyz");
  }

  lemma DigitCode(d: int)
    requires 0 <= d < 58
    ensures DigitOf(CodeOf(d)) == d
  {}

  lemma CodeDigit(c: Code)
    requires DigitOf(c) >= 0
    ensures CodeOf(DigitOf(c)) == c
  {}

  /** The lookup table: filled with -1, then one entry per alphabet position. */
  method BuildIndex() returns (t: array<int>)
    ensures fresh(t) && t.Length == 128
    ensures forall c: Code :: c < 128 ==> t[c] == DigitOf(c)
  {
    t := new int[128](_ => -1);
    AlphabetCodes();
    for i := 0 to |ALPHABET|
      invariant forall c: Code :: c < 128 ==> t[c] == if 0 <= DigitOf(c) < i then DigitOf(c) else -1
    {
      DigitCode(i);
      forall c: Code | DigitOf(c) == i ensures c == CodeOf(i) { CodeDigit(c); }
      t[ALPHABET[i] as int] := i;
    }
  }

  // ===== decoding, as a function =====

  datatype Error = EmptyInput | InvalidCharacter(code: Code)

  function LeadingOnes(s: seq<Code>): (z: nat)
    ensures z <= |s| && (forall i :: 0 <= i < z ==> s[i] == 49) && (z < |s| ==> s[z] != 49)
  {
    if s == [] || s[0] != 49 then 0 else 1 + LeadingOnes(s[1..])
  }

  predicate Valid(s: seq<Code>) { forall i :: 0 <= i < |s| ==> DigitOf(s[i]) >= 0 }

  function DigitsOf(s: seq<Code>): (ds: seq<int>)
    requires Valid(s)
    ensures |ds| == |s| && Digits(58, ds)
  {
    seq(|s|, i requires 0 <= i < |s| => DigitOf(s[i]))
  }

  function FirstInvalid(s: seq<Code>): Option<Code>
  {
    if s == [] then None
    else if DigitOf(s[0]) < 0 then Some(s[0])
    else FirstInvalid(s[1..])
  }

  lemma {:induction false} FirstInvalidExact(s: seq<Code>)
    ensures FirstInvalid(s).None? <==> Valid(s)
  {
    if s != [] {
      FirstInvalidExact(s[1..]);
      assert forall i :: 0 < i < |s| ==> s[i] == s[1..][i - 1];
      if Valid(s[1..]) && DigitOf(s[0]) >= 0 {
        forall i | 0 <= i < |s| ensures DigitOf(s[i]) >= 0 {
          if i > 0 { assert s[i] == s[1..][i - 1]; }
        }
      }
      if Valid(s) {
        assert Valid(s[1..]);
      }
    }
  }

  function ToBytes(ds: seq<int>): (r: seq<byte>)
    requires Digits(256, ds)
    ensures r == ds
  {
    ds
  }

  /** The value of a valid digit string as bytes. */
  function ValueBytes(s: seq<Code>): seq<byte>
    requires Valid(s)
  {
    ValueBounds(58, DigitsOf(s));
    ToBytes(MinDigits(256, ValueOf(58, DigitsOf(s))))
  }

  /** Each leading `1` is a zero byte; the rest is one number in base 58, written as
      the fewest bytes. */
  function Decode(s: seq<Code>): Result<seq<byte>, Error> {
    if s == [] then Err(EmptyInput)
    else
      var z := LeadingOnes(s);
      match FirstInvalid(s[z..])
      case Some(c) => Err(InvalidCharacter(c))
      case None =>
        FirstInvalidExact(s[z..]);
        Ok(Zeros(z) + ValueBytes(s[z..]))
  }

  // ===== the reference encoder =====

  function LeadingNuls(b: seq<byte>): (z: nat)
    ensures z <= |b| && (forall i :: 0 <= i < z ==> b[i] == 0) && (z < |b| ==> b[z] != 0)
  {
    if b == [] || b[0] != 0 then 0 else 1 + LeadingNuls(b[1..])
  }

  function CodesOf(ds: seq<int>): (r: seq<Code>)
    requires Digits(58, ds)
    ensures |r| == |ds|
  {
    seq(|ds|, i requires 0 <= i < |ds| => CodeOf(ds[i]))
  }

  function Ones(z: nat): (r: seq<Code>)
    ensures |r| == z
  {
    seq(z, _ => 49)
  }

  function Encode(b: seq<byte>): seq<Code> {
    var z := LeadingNuls(b);
    ValueBounds(256, b[z..]);
    Ones(z) + CodesOf(MinDigits(58, ValueOf(256, b[z..])))
  }

  lemma OnesCounted(z: nat, rest: seq<Code>)
    requires rest != [] ==> rest[0] != 49
    ensures LeadingOnes(Ones(z) + rest) == z
  {
    var s := Ones(z) + rest;
    assert z < |s| ==> s[z] == rest[0];
  }

  lemma NulsCounted(z: nat, rest: seq<byte>)
    requires rest != [] ==> rest[0] != 0
    ensures LeadingNuls(Zeros(z) + rest) == z
  {
    var s := Zeros(z) + rest;
    assert z < |s| ==> s[z] == rest[0];
  }

  lemma CodesRoundTrip(ds: seq<int>)
    requires Digits(58, ds)
    ensures Valid(CodesOf(ds)) && DigitsOf(CodesOf(ds)) == ds
  {
    forall i | 0 <= i < |ds| ensures DigitOf(CodesOf(ds)[i]) == ds[i] { DigitCode(ds[i]); }
  }

  lemma DigitsRoundTrip(s: seq<Code>)
    requires Valid(s)
    ensures CodesOf(DigitsOf(s)) == s
  {
    forall i | 0 <= i < |s| ensures CodesOf(DigitsOf(s))[i] == s[i] { CodeDigit(s[i]); }
  }

  lemma DigitInRange(b: nat, ds: seq<int>, i: nat)
    requires Digits(b, ds) && i < |ds|
    ensures 0 <= ds[i] < b
  {}

  lemma OnlyOneIsZero(d: int)
    requires 0 <= d < 58
    ensures CodeOf(d) == 49 <==> d == 0
  {}

  lemma ZeroIsOnlyOne(c: Code)
    ensures DigitOf(c) == 0 <==> c == 49
  {}

  /** Decoding undoes the reference encoder on every non-empty byte string. */
  lemma DecodeOfEncode(b: seq<byte>)
    requires b != []
    ensures Decode(Encode(b)) == Ok(b)
  {
    hide ValueOf, MinDigits, Pow, FirstInvalid, CodeOf, DigitOf, Valid, Digits;
    var z := LeadingNuls(b);
    var rest := b[z..];
    ValueBounds(256, rest);
    var ds := MinDigits(58, ValueOf(256, rest));
    var tail := CodesOf(ds);
    CodesRoundTrip(ds);
    if tail != [] {
      DigitInRange(58, ds, 0);
      OnlyOneIsZero(ds[0]);
    }
    OnesCounted(z, tail);
    assert (Ones(z) + tail)[z..] == tail;
    FirstInvalidExact(tail);
    ValueOfMin(58, ValueOf(256, rest));
    MinOfValue(256, rest);
    ValueNone(58);
    assert b == Zeros(z) + rest;
  }

  /** What follows the leading ones: its digits survive the trip through the value. */
  lemma TailRoundTrip(rest: seq<Code>)
    requires Valid(rest) && (rest != [] ==> rest[0] != 49)
    ensures ValueOf(58, DigitsOf(rest)) >= 0
    ensures CodesOf(MinDigits(58, ValueOf(58, DigitsOf(rest)))) == rest
  {
    hide ValueOf, MinDigits, CodeOf, DigitOf, CodesOf;
    var ds := DigitsOf(rest);
    if rest != [] {
      ZeroIsOnlyOne(rest[0]);
    }
    MinOfValue(58, ds);
    DigitsRoundTrip(rest);
  }

  lemma TailValid(s: seq<Code>, z: nat)
    requires Valid(s) && z <= |s|
    ensures Valid(s[z..])
  {
    assert forall i :: 0 <= i < |s| - z ==> s[z..][i] == s[z + i];
  }

  /** Encoding undoes decoding on every valid string, so decoding is injective. */
  lemma EncodeOfDecode(s: seq<Code>)
    requires s != [] && Valid(s)
    ensures Decode(s).Ok? && Encode(Decode(s).value) == s
  {
    hide ValueOf, MinDigits, Pow, FirstInvalid, Valid, DigitsOf, CodesOf;
    var z := LeadingOnes(s);
    var rest := s[z..];
    TailValid(s, z);
    FirstInvalidExact(rest);
    TailRoundTrip(rest);
    var bytes := ValueBytes(rest);
    ValueOfMin(256, ValueOf(58, DigitsOf(rest)));
    NulsCounted(z, bytes);
    assert (Zeros(z) + bytes)[z..] == bytes;
    assert s == Ones(z) + rest;
  }

  lemma DecodeAccepts(s: seq<Code>)
    ensures Decode(s).Ok? <==> s != [] && Valid(s)
  {
    if s != [] {
      var z := LeadingOnes(s);
      var rest := s[z..];
      FirstInvalidExact(rest);
      if Valid(s) {
        assert forall i :: 0 <= i < |rest| ==> rest[i] == s[z + i];
      }
      if Valid(rest) {
        forall i | 0 <= i < |s| ensures DigitOf(s[i]) >= 0 {
          if i >= z { assert s[i] == rest[i - z]; }
        }
      }
    }
  }

  lemma DecodeInjective(s: seq<Code>, t: seq<Code>)
    requires Decode(s).Ok? && Decode(s) == Decode(t)
    ensures s == t
  {
    DecodeAccepts(s);
    DecodeAccepts(t);
    EncodeOfDecode(s);
    EncodeOfDecode(t);
  }

  // ===== decoding, as the program does it =====

  /** What the buffer holds: everything above the last `length` bytes is zero. */
  ghost predicate BufferIs(b: seq<byte>, length: nat, v: int) {
    && length <= |b| && ValueOf(256, b) == v
    && forall t :: 0 <= t < |b| - length ==> b[t] == 0
  }

  /** A byte in front of the bytes worth `low`; `p` is the weight of its place. */
  ghost function Lead(x: int, p: nat, low: int): int { x * p + low }

  /** The low bytes with the pending carry are worth `58 * low0 + digit`. */
  ghost predicate CarryHolds(low: int, carry: nat, p: nat, low0: int, digit: int) {
    low + carry * p == 58 * low0 + digit
  }

  /** Multiply-and-add of one byte with carry. */
  lemma CarryStep(carry: nat, x: byte, p: nat, low: int, low0: int, digit: int)
    requires CarryHolds(low, carry, p, low0, digit) && carry < 58
    ensures var t := carry + 58 * x;
      t / 256 < 58 && CarryHolds(Lead(t % 256, p, low), t / 256, 256 * p, Lead(x, p, low0), digit)
  {
    var y: int := x;
    var t := carry + 58 * y;
    CarryArithmetic(t / 256, t % 256, carry, y, p);
  }

  lemma CarryArithmetic(q: int, r: int, carry: int, x: int, p: int)
    requires q * 256 + r == carry + 58 * x
    ensures r * p + q * (256 * p) == carry * p + 58 * (x * p)
  {
    MulDistribute(q * 256 + r, 58 * x, p);
    assert (q * 256 + r - 58 * x) * p == carry * p;
    assert q * (256 * p) == (q * 256) * p;
    assert (q * 256 + r) * p == (q * 256) * p + r * p;
    assert (58 * x) * p == 58 * (x * p);
  }

  lemma CarryGone(low: int, carry: nat, p: nat, low0: int, digit: int)
    requires CarryHolds(low, carry, p, low0, digit)
    requires carry == 0 || (0 <= low && 58 * low0 + digit < p)
    ensures low == 58 * low0 + digit
  {
    if carry >= 1 {
      MulMonotone(1, carry, p);
    }
  }

  lemma CarryStart(digit: nat)
    ensures CarryHolds(ValueOf(256, []), digit, Pow(256, 0), ValueOf(256, []), digit)
  {}

  lemma ValueTail(b: seq<byte>, k: nat)
    requires k < |b|
    ensures ValueOf(256, b[k..]) == Lead(b[k], Pow(256, |b| - k - 1), ValueOf(256, b[k + 1..]))
  {
    assert b[k..] == [b[k]] + b[k + 1..];
    ValueCons(256, b[k], b[k + 1..]);
  }

  lemma ZeroPrefix(b: seq<byte>, k: nat)
    requires k <= |b| && forall t :: 0 <= t < k ==> b[t] == 0
    ensures ValueOf(256, b) == ValueOf(256, b[k..])
  {
    assert b == seq(k, _ => 0) + b[k..];
    LeadingZerosWorthless(256, k, b[k..]);
  }

  /** The bytes from `k` up with the pending carry, against the buffer before the digit. */
  ghost predicate Pending(b: seq<byte>, b0: seq<byte>, k: nat, carry: nat, digit: int) {
    && |b| == |b0| && k <= |b|
    && (forall t :: 0 <= t < k ==> b[t] == b0[t])
    && CarryHolds(ValueOf(256, b[k..]), carry, Pow(256, |b| - k), ValueOf(256, b0[k..]), digit)
  }

  lemma PendingStart(b: seq<byte>, digit: nat)
    ensures Pending(b, b, |b|, digit, digit)
  {
    assert b[|b|..] == [];
    CarryStart(digit);
  }

  lemma PendingStep(b: seq<byte>, b0: seq<byte>, k: nat, carry: nat, digit: int)
    requires Pending(b, b0, k + 1, carry, digit) && k < |b| && carry < 58
    ensures var x: int := b[k];
      var t := carry + 58 * x;
      t / 256 < 58 && Pending(b[k := t % 256], b0, k, t / 256, digit)
  {
    hide ValueOf, Pow, CarryHolds, Lead;
    var x: int := b[k];
    var t := carry + 58 * x;
    var b' := b[k := t % 256];
    assert b[k] == b0[k];
    ValueTail(b0, k);
    CarryStep(carry, b[k], Pow(256, |b| - k - 1), ValueOf(256, b[k + 1..]), ValueOf(256, b0[k + 1..]), digit);
    assert b'[k + 1..] == b[k + 1..];
    ValueTail(b', k);
    PowUp(256, |b| - k - 1);
  }

  /** When the loop stops the carry has run out and the buffer is `58 * v + digit`. */
  lemma PendingDone(b: seq<byte>, b0: seq<byte>, k: nat, carry: nat, digit: int, length: nat, v: int)
    requires Pending(b, b0, k, carry, digit) && BufferIs(b0, length, v)
    requires 58 * v + digit < Pow(256, |b|)
    requires k == 0 || (carry == 0 && |b| - k >= length)
    ensures BufferIs(b, |b| - k, 58 * v + digit)
  {
    hide ValueOf, Pow, CarryHolds;
    ValueNonNegative(b[k..]);
    if k == 0 {
      assert b[0..] == b && b0[0..] == b0;
    } else {
      forall t | 0 <= t < k ensures b[t] == 0 { assert b0[t] == 0; }
      ZeroPrefix(b, k);
      ZeroPrefix(b0, k);
    }
    CarryGone(ValueOf(256, b[k..]), carry, Pow(256, |b| - k), ValueOf(256, b0[k..]), digit);
  }

  /** The inner loop: `b := 58 * b + digit`. The carry always runs out. */
  method MultiplyAdd(b: array<byte>, length: nat, digit: nat, ghost v: int) returns (newLength: nat)
    requires digit < 58 && BufferIs(b[..], length, v)
    requires 0 <= 58 * v + digit < Pow(256, b.Length)
    modifies b
    ensures BufferIs(b[..], newLength, 58 * v + digit)
  {
    hide ValueOf, Pow, Pending, BufferIs;
    ghost var b0: seq<byte> := b[..];
    var carry: nat, j: nat, k: int := digit, 0, b.Length - 1;
    PendingStart(b0, digit);
    while (carry != 0 || j < length) && k >= 0
      invariant -1 <= k < b.Length && k == b.Length - 1 - j && carry < 58
      invariant Pending(b[..], b0, k + 1, carry, digit)
      decreases k + 1
    {
      PendingStep(b[..], b0, k, carry, digit);
      ghost var before: seq<byte> := b[..];
      var x: int := b[k];
      carry := carry + 58 * x;
      b[k] := carry % 256;
      assert b[..] == before[k := carry % 256];
      carry := carry / 256;
      k, j := k - 1, j + 1;
    }
    newLength := j;
    PendingDone(b[..], b0, k + 1, carry, digit, length, v);
  }

  lemma ValueNone(b: nat)
    ensures ValueOf(b, []) == 0 && Pow(b, 0) == 1
  {}

  lemma PowUp(b: nat, j: nat)
    ensures Pow(b, j + 1) == b * Pow(b, j)
  {}

  lemma ValueNonNegative(b: seq<byte>)
    ensures 0 <= ValueOf(256, b) < Pow(256, |b|)
  {
    ValueBounds(256, b);
  }

  /** JavaScript's `x | 0` on a non-negative integer. */
  function ToInt32(x: nat): int {
    var m := x % 0x1_0000_0000;
    if m >= 0x8000_0000 then m - 0x1_0000_0000 else m
  }

  lemma BufferSize(n: nat)
    requires n < 0x8000_0000
    ensures ToInt32(733 * n / 1000) == 733 * n / 1000
  {}

  lemma {:induction false} InvalidAt(s: seq<Code>, i: nat)
    requires i < |s| && Valid(s[..i]) && DigitOf(s[i]) < 0
    ensures FirstInvalid(s) == Some(s[i])
    decreases i
  {
    if i > 0 {
      assert DigitOf(s[..i][0]) >= 0;
      assert s[1..][..i - 1] == s[..i][1..];
      InvalidAt(s[1..], i - 1);
    }
  }

  lemma DigitSnoc(s: seq<Code>, i: nat)
    requires i < |s| && Valid(s[..i]) && DigitOf(s[i]) >= 0
    ensures Valid(s[..i + 1])
    ensures DigitsOf(s[..i + 1]) == DigitsOf(s[..i]) + [DigitOf(s[i])]
    ensures ValueOf(58, DigitsOf(s[..i + 1])) == 58 * ValueOf(58, DigitsOf(s[..i])) + DigitOf(s[i])
  {
    assert s[..i + 1] == s[..i] + [s[i]];
    assert DigitsOf(s[..i + 1]) == DigitsOf(s[..i]) + [DigitOf(s[i])];
    ValueSnoc(58, DigitsOf(s[..i]), DigitOf(s[i]));
  }

  /** The value after `i` of `n` digits fits the buffer. */
  lemma PrefixFits(s: seq<Code>, i: nat)
    requires i <= |s| && Valid(s[..i])
    ensures 0 <= ValueOf(58, DigitsOf(s[..i])) < Pow(256, 733 * |s| / 1000 + 1)
  {
    ValueBounds(58, DigitsOf(s[..i]));
    PowExponent(58, i, |s|);
    BufferHolds(|s|);
  }

  lemma AllZero(n: nat)
    ensures ValueOf(256, Zeros(n)) == 0
  {
    LeadingZerosWorthless(256, n, []);
    assert Zeros(n) + [] == Zeros(n);
    assert seq(n, _ => 0) + [] == Zeros(n);
  }

  /** `base58Decode`, for every string a JavaScript engine can hold. */
  method DecodeString(s: seq<Code>) returns (r: Result<seq<byte>, Error>)
    requires |s| < 0x8000_0000
    ensures r == Decode(s)
  {
    hide ValueOf, Pow, MinDigits, FirstInvalid, Valid, DigitOf;
    if |s| == 0 {
      return Err(EmptyInput);
    }
    var index := BuildIndex();
    var zeros := 0;
    while zeros < |s| && s[zeros] == 49
      invariant 0 <= zeros <= |s| && forall t :: 0 <= t < zeros ==> s[t] == 49
    {
      zeros := zeros + 1;
    }
    assert zeros == LeadingOnes(s);
    ghost var rest: seq<Code> := s[zeros..];
    BufferSize(|s| - zeros);
    var size := ToInt32((|s| - zeros) * 733 / 1000);
    var b := new byte[size + 1](_ => 0);
    var length: nat := 0;
    assert b[..] == Zeros(size + 1);
    AllZero(size + 1);
    NothingYet(rest);
    for i := zeros to |s|
      invariant forall c: Code :: c < 128 ==> index[c] == DigitOf(c)
      invariant Valid(rest[..i - zeros])
      invariant BufferIs(b[..], length, ValueOf(58, DigitsOf(rest[..i - zeros])))
    {
      assert rest[i - zeros] == s[i];
      var code := s[i];
      HighCodes(code);
      var digit := if code < 128 then index[code] else -1;
      assert digit == DigitOf(code);
      if digit < 0 {
        InvalidAt(rest, i - zeros);
        return Err(InvalidCharacter(code));
      }
      DigitSnoc(rest, i - zeros);
      PrefixFits(rest, i - zeros + 1);
      length := MultiplyAdd(b, length, digit, ValueOf(58, DigitsOf(rest[..i - zeros])));
    }
    assert rest[..|s| - zeros] == rest;
    FirstInvalidExact(rest);
    var out := Strip(b, length);
    ValueBounds(58, DigitsOf(rest));
    r := Ok(Zeros(zeros) + out);
  }

  lemma HighCodes(c: Code)
    ensures c >= 128 ==> DigitOf(c) == -1
  {}

  lemma NothingYet(rest: seq<Code>)
    ensures Valid(rest[..0]) && ValueOf(58, DigitsOf(rest[..0])) == 0
  {}

  /** The last loop: skip the buffer's leading zeros. */
  method Strip(b: array<byte>, length: nat) returns (out: seq<byte>)
    requires length <= b.Length && forall t :: 0 <= t < b.Length - length ==> b[t] == 0
    ensures ValueOf(256, b[..]) >= 0 && out == MinDigits(256, ValueOf(256, b[..]))
  {
    var skip := b.Length - length;
    while skip < b.Length && b[skip] == 0
      invariant 0 <= skip <= b.Length && forall t :: 0 <= t < skip ==> b[t] == 0
    {
      skip := skip + 1;
    }
    out := b[skip..];
    assert b[..][skip..] == b[skip..];
    ZeroPrefix(b[..], skip);
    MinOfValue(256, out);
  }
}
