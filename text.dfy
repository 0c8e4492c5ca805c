/** The Python string operations the reducer relies on, over `string` (= seq<char>):
    `str.strip()`, `str.split(sep)`, `str.lower()`, `str(n)` for an index and
    `float(text)` for a decimal literal. */
module Text {
  import opened Wrappers

  // ---------------------------------------------------------------------------
  // str.strip()
  // ---------------------------------------------------------------------------

  /** `c.isspace()`: the characters that `str.strip()` without arguments removes. */
  predicate IsSpace(c: char)
  {
    c == ' ' || ('\t' <= c <= '\r') || ('\U{1C}' <= c <= '\U{1F}')
    || c == '\U{85}' || c == '\U{A0}' || c == '\U{1680}'
    || ('\U{2000}' <= c <= '\U{200A}') || c == '\U{2028}' || c == '\U{2029}'
    || c == '\U{202F}' || c == '\U{205F}' || c == '\U{3000}'
  }

  /** Every character of `s` is one that `drop` removes. */
  predicate All(s: string, drop: char -> bool)
  {
    forall k :: 0 <= k < |s| ==> drop(s[k])
  }

  /** Neither end of `s` is a character that `drop` removes (vacuously true of the empty
      string). */
  predicate Bare(s: string, drop: char -> bool)
  {
    s == [] || (!drop(s[0]) && !drop(s[|s| - 1]))
  }

  lemma AllPrepend(c: char, s: string, drop: char -> bool)
    requires drop(c) && All(s, drop)
    ensures All([c] + s, drop)
  {
    assert forall k :: 1 <= k < |s| + 1 ==> ([c] + s)[k] == s[k - 1];
  }

  lemma AllAppend(s: string, c: char, drop: char -> bool)
    requires All(s, drop) && drop(c)
    ensures All(s + [c], drop)
  {
    assert forall k :: 0 <= k < |s| ==> (s + [c])[k] == s[k];
  }

  lemma AllConcat(a: string, b: string, drop: char -> bool)
    requires All(a, drop) && All(b, drop)
    ensures All(a + b, drop)
  {
    forall k | 0 <= k < |a + b|
      ensures drop((a + b)[k])
    {
      if k >= |a| {
        assert (a + b)[k] == b[k - |a|];
      }
    }
  }

  /** `s.lstrip(chars)`, with the removed characters given as a predicate: a suffix of `s`
      that starts with a kept character, after a run of removed ones. */
  function LStrip(s: string, drop: char -> bool): (r: string)
    ensures |r| <= |s| && r == s[|s| - |r|..]
    ensures r == [] || !drop(r[0])
    ensures All(s[..|s| - |r|], drop)
  {
    if s != [] && drop(s[0]) then
      var r := LStrip(s[1..], drop);
      assert s[|s| - |r|..] == s[1..][|s| - 1 - |r|..];
      AllPrepend(s[0], s[1..][..|s| - 1 - |r|], drop);
      assert s[..|s| - |r|] == [s[0]] + s[1..][..|s| - 1 - |r|];
      r
    else s
  }

  /** `s.rstrip(chars)`: a prefix of `s` that ends with a kept character, before a run of
      removed ones. */
  function RStrip(s: string, drop: char -> bool): (r: string)
    ensures |r| <= |s| && r == s[..|r|]
    ensures r == [] || !drop(r[|r| - 1])
    ensures All(s[|r|..], drop)
  {
    if s != [] && drop(s[|s| - 1]) then
      var r := RStrip(s[..|s| - 1], drop);
      assert s[..|r|] == s[..|s| - 1][..|r|];
      AllAppend(s[..|s| - 1][|r|..], s[|s| - 1], drop);
      assert s[|r|..] == s[..|s| - 1][|r|..] + [s[|s| - 1]];
      r
    else s
  }

  /** `s.strip(chars)`. */
  function StripOf(s: string, drop: char -> bool): string
  {
    RStrip(LStrip(s, drop), drop)
  }

  /** `s.strip()`: surrounding whitespace removed. */
  function Strip(s: string): string
  {
    StripOf(s, IsSpace)
  }

  /** Left-stripping skips a leading run of removed characters and stops at the first
      kept one. */
  lemma {:induction false} LStripSkips(a: string, rest: string, drop: char -> bool)
    requires All(a, drop)
    requires rest == [] || !drop(rest[0])
    ensures LStrip(a + rest, drop) == rest
  {
    if a != [] {
      assert (a + rest)[0] == a[0];
      assert (a + rest)[1..] == a[1..] + rest;
      LStripSkips(a[1..], rest, drop);
    } else {
      assert a + rest == rest;
    }
  }

  /** Right-stripping drops a trailing run of removed characters and stops at the last
      kept one. */
  lemma {:induction false} RStripSkips(rest: string, b: string, drop: char -> bool)
    requires All(b, drop)
    requires rest == [] || !drop(rest[|rest| - 1])
    ensures RStrip(rest + b, drop) == rest
  {
    if b != [] {
      var s := rest + b;
      assert s[|s| - 1] == b[|b| - 1];
      assert s[..|s| - 1] == rest + b[..|b| - 1];
      RStripSkips(rest, b[..|b| - 1], drop);
    } else {
      assert rest + b == rest;
    }
  }

  /** Stripping removes exactly the surrounding run: whenever `s` is some removed
      characters, then a middle with a kept character at each end, then some removed
      characters, the middle is what stripping returns. */
  lemma StripOfSpec(a: string, m: string, b: string, drop: char -> bool)
    requires All(a, drop) && All(b, drop) && Bare(m, drop)
    ensures StripOf(a + m + b, drop) == m
  {
    if m == [] {
      assert a + m + b == a + b;
      AllConcat(a, b, drop);
      StripOfRemoved(a + b, drop);
    } else {
      assert (m + b)[0] == m[0];
      assert a + m + b == a + (m + b);
      LStripSkips(a, m + b, drop);
      RStripSkips(m, b, drop);
    }
  }

  /** Text made only of removed characters strips to nothing. */
  lemma StripOfRemoved(s: string, drop: char -> bool)
    requires All(s, drop)
    ensures StripOf(s, drop) == []
  {
    assert s + [] == s;
    LStripSkips(s, [], drop);
  }

  /** What stripping returns has no removed character at either end. */
  lemma StripOfBare(s: string, drop: char -> bool)
    ensures Bare(StripOf(s, drop), drop)
  {
    var l := LStrip(s, drop);
    var m := RStrip(l, drop);
    assert m != [] ==> m[0] == l[0];
  }

  /** Text with a kept character at each end is left as it is. */
  lemma StripOfUnchanged(m: string, drop: char -> bool)
    requires Bare(m, drop)
    ensures StripOf(m, drop) == m
  {
    assert LStrip(m, drop) == m;
    assert RStrip(m, drop) == m;
  }

  /** Stripping only removes characters: everything left was in the text. */
  lemma StripOfInside(s: string, drop: char -> bool)
    ensures forall c :: c in StripOf(s, drop) ==> c in s
  {
    var m := StripOf(s, drop);
    var off := StripOfSlice(s, drop);
    forall c | c in m
      ensures c in s
    {
      var k :| 0 <= k < |m| && m[k] == c;
      assert s[off + k] == c;
    }
  }

  /** Stripping keeps a contiguous slice of the text. */
  lemma StripOfSlice(s: string, drop: char -> bool) returns (off: nat)
    ensures off + |StripOf(s, drop)| <= |s|
    ensures StripOf(s, drop) == s[off..off + |StripOf(s, drop)|]
  {
    var l := LStrip(s, drop);
    var m := RStrip(l, drop);
    off := |s| - |l|;
    assert m == l[..|m|];
    assert l[..|m|] == s[off..off + |m|];
  }


  /** Stripping twice is stripping once. */
  lemma StripIdempotent(s: string)
    ensures Strip(Strip(s)) == Strip(s)
  {
    StripOfBare(s, IsSpace);
    StripOfUnchanged(Strip(s), IsSpace);
  }

  // ---------------------------------------------------------------------------
  // str.split(sep) and its inverse, sep.join(parts)
  // ---------------------------------------------------------------------------

  /** How many times `c` occurs in `s`. */
  function Occurrences(s: string, c: char): nat
  {
    if s == [] then 0 else (if s[0] == c then 1 else 0) + Occurrences(s[1..], c)
  }

  /** `s.split(sep)` with an explicit one-character separator: the pieces between
      separators, empty pieces included, so there is always one more piece than
      there are separators and no piece contains the separator. */
  function Split(s: string, sep: char): (r: seq<string>)
    ensures |r| == Occurrences(s, sep) + 1
    ensures forall k :: 0 <= k < |r| ==> sep !in r[k]
  {
    if s == [] then [[]]
    else
      var rest := Split(s[1..], sep);
      if s[0] == sep then [[]] + rest else [[s[0]] + rest[0]] + rest[1..]
  }

  /** `sep.join(parts)`. */
  function Join(parts: seq<string>, sep: char): string
    requires |parts| >= 1
  {
    if |parts| == 1 then parts[0] else parts[0] + [sep] + Join(parts[1..], sep)
  }

  /** Joining the pieces of a split gives back the original text. */
  lemma {:induction false} SplitJoin(s: string, sep: char)
    ensures Join(Split(s, sep), sep) == s
  {
    if s != [] {
      var rest := Split(s[1..], sep);
      SplitJoin(s[1..], sep);
      if s[0] == sep {
        assert Split(s, sep)[1..] == rest;
      } else {
        var r := Split(s, sep);
        if |rest| == 1 {
          assert r == [[s[0]] + rest[0]];
        } else {
          assert r[1..] == rest[1..];
          assert Join(rest, sep) == rest[0] + [sep] + Join(rest[1..], sep);
        }
      }
    }
  }

  /** Splitting a piece that holds no separator, followed by a separator and more text. */
  lemma {:induction false} SplitPiece(x: string, sep: char, rest: string)
    requires sep !in x
    ensures Split(x + [sep] + rest, sep) == [x] + Split(rest, sep)
  {
    if x != [] {
      assert (x + [sep] + rest)[1..] == x[1..] + [sep] + rest;
      SplitPiece(x[1..], sep, rest);
      assert [x[0]] + x[1..] == x;
    } else {
      assert x + [sep] + rest == [sep] + rest;
      assert ([sep] + rest)[1..] == rest;
    }
  }

  /** A piece without separators splits into itself. */
  lemma {:induction false} SplitWhole(x: string, sep: char)
    requires sep !in x
    ensures Split(x, sep) == [x]
  {
    if x != [] {
      SplitWhole(x[1..], sep);
      assert [x[0]] + x[1..] == x;
    }
  }

  /** Splitting the join of separator-free pieces gives back the pieces. */
  lemma {:induction false} JoinSplit(parts: seq<string>, sep: char)
    requires |parts| >= 1
    requires forall k :: 0 <= k < |parts| ==> sep !in parts[k]
    ensures Split(Join(parts, sep), sep) == parts
  {
    if |parts| == 1 {
      SplitWhole(parts[0], sep);
    } else {
      JoinSplit(parts[1..], sep);
      SplitPiece(parts[0], sep, Join(parts[1..], sep));
    }
  }

  // ---------------------------------------------------------------------------
  // str.lower()
  // ---------------------------------------------------------------------------

  predicate IsUpper(c: char)
  {
    'A' <= c <= 'Z'
  }

  function LowerChar(c: char): char
  {
    if IsUpper(c) then (c as int + 32) as char else c
  }

  /** `s.lower()` on ASCII letters: every upper-case letter becomes its lower-case
      partner and every other character is left alone. */
  function Lower(s: string): (r: string)
    ensures |r| == |s|
    ensures forall k :: 0 <= k < |s| ==> !IsUpper(r[k])
    ensures forall k :: 0 <= k < |s| ==> (r[k] == s[k] <==> !IsUpper(s[k]))
    ensures forall k :: 0 <= k < |s| && IsUpper(s[k]) ==> r[k] as int == s[k] as int + 32
  {
    seq(|s|, k requires 0 <= k < |s| => LowerChar(s[k]))
  }

  /** Lower-casing twice is lower-casing once. */
  lemma LowerIdempotent(s: string)
    ensures Lower(Lower(s)) == Lower(s)
  {
  }

  // ---------------------------------------------------------------------------
  // str(n) for a list index, and the digits it is read back from
  // ---------------------------------------------------------------------------

  predicate IsDigit(c: char)
  {
    '0' <= c <= '9'
  }

  predicate AllDigits(s: string)
  {
    forall k :: 0 <= k < |s| ==> IsDigit(s[k])
  }

  function DigitChar(d: nat): (c: char)
    requires d < 10
    ensures IsDigit(c)
  {
    ('0' as int + d) as char
  }

  function DigitValue(c: char): nat
    requires IsDigit(c)
  {
    c as int - '0' as int
  }

  /** `str(n)` for a non-negative int: its decimal digits, without leading zeros. */
  function NatToString(n: nat): (r: string)
    ensures |r| >= 1 && AllDigits(r)
    ensures n < 10 <==> |r| == 1
  {
    if n < 10 then [DigitChar(n)] else NatToString(n / 10) + [DigitChar(n % 10)]
  }

  /** The number a string of decimal digits denotes. */
  function DigitsValue(s: string): nat
    requires AllDigits(s)
  {
    if s == [] then 0 else 10 * DigitsValue(s[..|s| - 1]) + DigitValue(s[|s| - 1])
  }

  /** Reading back the digits `str(n)` writes gives `n`. */
  lemma {:induction false} NatToStringRoundTrip(n: nat)
    ensures DigitsValue(NatToString(n)) == n
  {
    if n >= 10 {
      var s := NatToString(n);
      NatToStringRoundTrip(n / 10);
      assert s[..|s| - 1] == NatToString(n / 10);
    }
  }

  /** Distinct numbers print differently, so the `NormalizedValue_i` labels are distinct. */
  lemma NatToStringInjective(a: nat, b: nat)
    ensures NatToString(a) == NatToString(b) <==> a == b
  {
    NatToStringRoundTrip(a);
    NatToStringRoundTrip(b);
  }

  // ---------------------------------------------------------------------------
  // float(text) for decimal literals
  // ---------------------------------------------------------------------------

  /** The index of the first occurrence of `c` or `d` in `s`, or `|s|` when neither occurs. */
  function FirstOf(s: string, c: char, d: char): (k: nat)
    ensures k <= |s|
    ensures k < |s| ==> s[k] == c || s[k] == d
    ensures forall j :: 0 <= j < k ==> s[j] != c && s[j] != d
  {
    if s == [] || s[0] == c || s[0] == d then 0 else 1 + FirstOf(s[1..], c, d)
  }

  /** `m` times ten to the power `x`. */
  function Scale(m: real, x: int): real
    decreases if x >= 0 then x else -x
  {
    if x == 0 then m else if x > 0 then Scale(m * 10.0, x - 1) else Scale(m / 10.0, x + 1)
  }

  /** The value of the digits after a decimal point: `0.d1d2...`. */
  function FractionValue(f: string): (r: real)
    requires AllDigits(f)
  {
    if f == [] then 0.0 else (DigitValue(f[0]) as real + FractionValue(f[1..])) / 10.0
  }

  /** An exponent after `e`/`E`: an optional sign and at least one digit. */
  function ExponentValue(s: string): Option<int>
  {
    var neg := |s| > 0 && s[0] == '-';
    var digits := if |s| > 0 && (s[0] == '+' || s[0] == '-') then s[1..] else s;
    if digits == [] || !AllDigits(digits) then None
    else if neg then Some(-(DigitsValue(digits) as int))
    else Some(DigitsValue(digits))
  }

  /** The digits of a mantissa, split at its decimal point: digits, an optional point and
      fraction digits, at least one digit in all. */
  function Mantissa(s: string): Option<real>
  {
    var d := FirstOf(s, '.', '.');
    var whole := s[..d];
    var fraction := if d < |s| then s[d + 1..] else [];
    if !AllDigits(whole) || !AllDigits(fraction) || |whole| + |fraction| == 0 then None
    else Some(DigitsValue(whole) as real + FractionValue(fraction))
  }

  /** An unsigned decimal literal: a mantissa, then an optional exponent. */
  function UnsignedLiteral(s: string): Option<real>
  {
    var e := FirstOf(s, 'e', 'E');
    match Mantissa(s[..e])
    case None => None
    case Some(m) =>
      if e == |s| then Some(m)
      else match ExponentValue(s[e + 1..])
        case None => None
        case Some(x) => Some(Scale(m, x))
  }

  /** A literal with surrounding whitespace already removed: an optional sign, then an
      unsigned literal. */
  function SignedLiteral(t: string): Option<real>
  {
    if |t| > 0 && (t[0] == '+' || t[0] == '-') then
      match UnsignedLiteral(t[1..])
      case None => None
      case Some(v) => Some(if t[0] == '-' then -v else v)
    else
      UnsignedLiteral(t)
  }

  /** `float(text)` restricted to decimal literals: surrounding whitespace is ignored, then
      an optional sign and an unsigned literal. `None` is the `ValueError` Python raises. */
  function ParseFloat(text: string): Option<real>
  {
    SignedLiteral(Strip(text))
  }

  /** A non-empty digit string is an unsigned literal denoting its digits' value. */
  lemma UnsignedLiteralOfDigits(s: string)
    requires |s| >= 1 && AllDigits(s)
    ensures UnsignedLiteral(s) == Some(DigitsValue(s) as real)
  {
    assert FirstOf(s, 'e', 'E') == |s|;
    assert s[..|s|] == s;
    assert Mantissa(s) == Some(DigitsValue(s) as real) by {
      assert FirstOf(s, '.', '.') == |s|;
    }
  }

  /** `float` reads back what `str` writes for a non-negative integer, with or without
      surrounding whitespace. */
  lemma ParseFloatOfNat(n: nat, a: string, b: string)
    requires All(a, IsSpace) && All(b, IsSpace)
    ensures ParseFloat(a + NatToString(n) + b) == Some(n as real)
  {
    var s := NatToString(n);
    assert IsDigit(s[0]) && IsDigit(s[|s| - 1]);
    StripOfSpec(a, s, b, IsSpace);
    NatLiteralValue(n);
  }

  /** `float` reads back what `str` writes for a non-negative integer. */
  lemma ParseFloatOfDigits(n: nat)
    ensures ParseFloat(NatToString(n)) == Some(n as real)
  {
    var s := NatToString(n);
    assert IsDigit(s[0]) && IsDigit(s[|s| - 1]);
    ParseFloatOfTrimmed(s);
    NatLiteralValue(n);
  }

  /** The digits of `n` denote `n`. */
  lemma NatLiteralValue(n: nat)
    ensures SignedLiteral(NatToString(n)) == Some(n as real)
  {
    var s := NatToString(n);
    assert IsDigit(s[0]);
    DigitsLiteral(n);
  }

  /** The digits of `n`, unsigned, denote `n`. */
  lemma DigitsLiteral(n: nat)
    ensures UnsignedLiteral(NatToString(n)) == Some(n as real)
  {
    UnsignedLiteralOfDigits(NatToString(n));
    NatToStringRoundTrip(n);
  }

  /** A minus sign negates the unsigned literal after it. */
  lemma SignedLiteralNegative(t: string)
    requires |t| > 0 && t[0] == '-' && UnsignedLiteral(t[1..]).Some?
    ensures SignedLiteral(t) == Some(-UnsignedLiteral(t[1..]).value)
  {
  }

  /** Text without surrounding whitespace is parsed as it stands. */
  lemma ParseFloatOfTrimmed(t: string)
    requires Bare(t, IsSpace)
    ensures ParseFloat(t) == SignedLiteral(t)
  {
    StripOfUnchanged(t, IsSpace);
  }

  /** A minus sign followed by the digits of `n` denotes `-n`. */
  lemma NegativeLiteralValue(n: nat)
    ensures SignedLiteral(['-'] + NatToString(n)) == Some(-(n as real))
  {
    var t := ['-'] + NatToString(n);
    assert t[1..] == NatToString(n);
    DigitsLiteral(n);
    SignedLiteralNegative(t);
  }

  /** ... and for a negative integer written with a leading minus sign. */
  lemma ParseFloatOfNegative(n: nat)
    ensures ParseFloat(['-'] + NatToString(n)) == Some(-(n as real))
  {
    var s := NatToString(n);
    var t := ['-'] + s;
    assert t[|t| - 1] == s[|s| - 1];
    ParseFloatOfTrimmed(t);
    NegativeLiteralValue(n);
  }
}
