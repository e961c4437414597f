/**
 * Character classes, decimal numerals, Python's `str.split(".")`, Python's
 * ordering of `str` values and Python's `int(str)` for base 10, as used by the
 * `Version` class.
 */
module Text {
  import opened Wrappers

  // ---------------------------------------------------------------------
  // Digits and numerals (`\d` is taken to be the ASCII digits 0-9)
  // ---------------------------------------------------------------------

  predicate IsDigit(c: char) { '0' <= c <= '9' }

  predicate AllDigits(s: string) { forall i | 0 <= i < |s| :: IsDigit(s[i]) }

  predicate HasDigit(s: string) { exists i | 0 <= i < |s| :: IsDigit(s[i]) }

  /** `0|[1-9]\d*`: a decimal numeral without leading zeros. */
  predicate IsNumeral(s: string) {
    |s| > 0 && AllDigits(s) && (s[0] == '0' ==> |s| == 1)
  }

  function DigitValue(c: char): nat
    requires IsDigit(c)
  {
    c as int - '0' as int
  }

  function DigitChar(d: nat): char
    requires d < 10
  {
    ('0' as int + d) as char
  }

  function Pow10(k: nat): (p: nat)
    ensures p >= 1
  {
    if k == 0 then 1 else 10 * Pow10(k - 1)
  }

  /** The value of a digit string, most significant digit first (leading zeros allowed). */
  function DigitsValue(s: string): nat
    requires AllDigits(s)
  {
    if |s| == 0 then 0 else 10 * DigitsValue(s[..|s| - 1]) + DigitValue(s[|s| - 1])
  }

  /** Python's `str(n)` for a non-negative integer. */
  function NatToString(n: nat): (s: string)
    ensures IsNumeral(s)
    ensures (s[0] == '0') == (n == 0)
    ensures DigitsValue(s) == n
  {
    if n < 10 then
      [DigitChar(n)]
    else
      var s := NatToString(n / 10) + [DigitChar(n % 10)];
      assert s[..|s| - 1] == NatToString(n / 10);
      s
  }

  lemma ZeroAndOne()
    ensures NatToString(0) == "0" && NatToString(1) == "1"
  {
  }

  /** Python's `str(i)` for any integer. */
  function IntToString(i: int): string {
    if i < 0 then "-" + NatToString(-i) else NatToString(i)
  }

  lemma AllDigitsAppend(a: string, b: string)
    requires AllDigits(a) && AllDigits(b)
    ensures AllDigits(a + b)
  {
    forall i | 0 <= i < |a + b| ensures IsDigit((a + b)[i]) {
      if i >= |a| {
        assert (a + b)[i] == b[i - |a|];
      }
    }
  }

  /** The value of a digit string split at its last digit. */
  lemma DigitsValueLast(s: string)
    requires AllDigits(s) && |s| > 0
    ensures DigitsValue(s) == 10 * DigitsValue(s[..|s| - 1]) + DigitValue(s[|s| - 1])
  {
  }

  lemma ShiftDigit(x: nat, p: nat, y: nat, d: nat)
    ensures 10 * (x * p + y) + d == x * (10 * p) + (10 * y + d)
  {
  }

  lemma {:induction false} DigitsValueAppend(a: string, b: string)
    requires AllDigits(a) && AllDigits(b)
    ensures AllDigits(a + b)
    ensures DigitsValue(a + b) == DigitsValue(a) * Pow10(|b|) + DigitsValue(b)
  {
    AllDigitsAppend(a, b);
    if |b| == 0 {
      assert a + b == a;
    } else {
      var b' := b[..|b| - 1];
      var c := b[|b| - 1];
      assert (a + b)[..|a + b| - 1] == a + b';
      assert (a + b)[|a + b| - 1] == c;
      DigitsValueAppend(a, b');
      DigitsValueLast(a + b);
      DigitsValueLast(b);
      ShiftDigit(DigitsValue(a), Pow10(|b'|), DigitsValue(b'), DigitValue(c));
    }
  }

  lemma {:induction false} DigitsValueBound(s: string)
    requires AllDigits(s)
    ensures DigitsValue(s) < Pow10(|s|)
  {
    if |s| > 0 {
      DigitsValueBound(s[..|s| - 1]);
    }
  }

  /** A digit string whose first digit is not zero is at least 10^(length - 1). */
  lemma {:induction false} LeadingDigitBound(s: string)
    requires |s| > 0 && AllDigits(s) && s[0] != '0'
    ensures DigitsValue(s) >= Pow10(|s| - 1)
  {
    if |s| > 1 {
      LeadingDigitBound(s[..|s| - 1]);
    }
  }

  /** A numeral is the decimal rendering of its own value: numerals have one spelling each. */
  lemma {:induction false} NumeralRoundTrip(s: string)
    requires IsNumeral(s)
    ensures NatToString(DigitsValue(s)) == s
  {
    if |s| > 1 {
      var p := s[..|s| - 1];
      var d := DigitValue(s[|s| - 1]);
      LeadingDigitBound(p);
      NumeralRoundTrip(p);
      DivMod10(DigitsValue(p), d);
      assert DigitChar(d) == s[|s| - 1];
      assert s == p + [s[|s| - 1]];
    }
  }

  lemma DivMod10(q: nat, d: nat)
    requires d < 10
    ensures (10 * q + d) / 10 == q && (10 * q + d) % 10 == d
  {
  }

  // ---------------------------------------------------------------------
  // Python's str.split(".") and its inverse ".".join
  // ---------------------------------------------------------------------

  function Join(parts: seq<string>): string
    requires |parts| >= 1
  {
    if |parts| == 1 then parts[0] else parts[0] + "." + Join(parts[1..])
  }

  /** Python's `s.split(".")`: the dot-free pieces of `s`; `""` gives `[""]`. */
  function Split(s: string): (parts: seq<string>)
    ensures |parts| >= 1
    ensures forall i | 0 <= i < |parts| :: '.' !in parts[i]
    ensures Join(parts) == s
  {
    if |s| == 0 then
      [""]
    else if s[0] == '.' then
      var rest := Split(s[1..]);
      assert Join([""] + rest) == "." + Join(rest) by { assert ([""] + rest)[1..] == rest; }
      [""] + rest
    else
      var rest := Split(s[1..]);
      var parts := [[s[0]] + rest[0]] + rest[1..];
      assert Join(parts) == s by {
        if |rest| > 1 {
          assert parts[1..] == rest[1..];
        }
      }
      parts
  }

  lemma {:induction false} JoinConcat(xs: seq<string>, ys: seq<string>)
    requires |xs| >= 1 && |ys| >= 1
    ensures Join(xs + ys) == Join(xs) + "." + Join(ys)
  {
    if |xs| > 1 {
      assert (xs + ys)[1..] == xs[1..] + ys;
      JoinConcat(xs[1..], ys);
    } else {
      assert (xs + ys)[1..] == ys;
    }
  }

  /** Splitting undoes joining dot-free pieces, so Split and Join are mutually inverse. */
  lemma {:induction false} SplitJoin(parts: seq<string>)
    requires |parts| >= 1
    requires forall i | 0 <= i < |parts| :: '.' !in parts[i]
    ensures Split(Join(parts)) == parts
  {
    if |parts| == 1 {
      SplitDotFree(parts[0]);
    } else {
      SplitJoin(parts[1..]);
      SplitCons(parts[0], Join(parts[1..]));
      assert parts == [parts[0]] + parts[1..];
    }
  }

  lemma {:induction false} SplitDotFree(p: string)
    requires '.' !in p
    ensures Split(p) == [p]
  {
    if |p| > 0 {
      SplitDotFree(p[1..]);
      assert [p[0]] + p[1..] == p;
    }
  }

  lemma {:induction false} SplitCons(p: string, s: string)
    requires '.' !in p
    ensures Split(p + "." + s) == [p] + Split(s)
  {
    if |p| == 0 {
      assert (p + "." + s)[1..] == s;
    } else {
      assert (p + "." + s)[1..] == p[1..] + "." + s;
      SplitCons(p[1..], s);
      assert [p[0]] + p[1..] == p;
    }
  }

  // ---------------------------------------------------------------------
  // Python's three-way comparison `_cmp(a, b) = (a > b) - (a < b)`
  // ---------------------------------------------------------------------

  function Cmp(a: int, b: int): int {
    if a > b then 1 else if a < b then -1 else 0
  }

  /** `_cmp` on two `str` values: code point by code point, a proper prefix first. */
  function LexCmp(a: string, b: string): (r: int)
    ensures r == -1 || r == 0 || r == 1
    ensures (r == 0) == (a == b)
  {
    if |a| == 0 then (if |b| == 0 then 0 else -1)
    else if |b| == 0 then 1
    else if a[0] < b[0] then -1
    else if a[0] > b[0] then 1
    else
      var r := LexCmp(a[1..], b[1..]);
      assert a == [a[0]] + a[1..] && b == [b[0]] + b[1..];
      r
  }

  lemma {:induction false} LexCmpAntisymmetric(a: string, b: string)
    ensures LexCmp(a, b) == -LexCmp(b, a)
  {
    if |a| > 0 && |b| > 0 && a[0] == b[0] {
      LexCmpAntisymmetric(a[1..], b[1..]);
    }
  }

  lemma {:induction false} LexCmpTransitive(a: string, b: string, c: string)
    requires LexCmp(a, b) < 0 && LexCmp(b, c) < 0
    ensures LexCmp(a, c) < 0
  {
    if |a| > 0 && |b| > 0 && |c| > 0 && a[0] == b[0] && b[0] == c[0] {
      LexCmpTransitive(a[1..], b[1..], c[1..]);
    }
  }

  // ---------------------------------------------------------------------
  // Python's int(s) for a str s, base 10, ASCII only
  // ---------------------------------------------------------------------

  /** The ASCII white space Python's `int` strips: tab, line feed, vertical tab, form feed, carriage return, space. */
  predicate IsPySpace(c: char) { 9 <= c as int <= 13 || c == ' ' }

  function StripLeading(s: string): string {
    if |s| > 0 && IsPySpace(s[0]) then StripLeading(s[1..]) else s
  }

  function StripTrailing(s: string): string {
    if |s| > 0 && IsPySpace(s[|s| - 1]) then StripTrailing(s[..|s| - 1]) else s
  }

  /** `\d(_?\d)*`: digits, with single underscores allowed between two digits. */
  predicate IsUnderscoredDigits(s: string) {
    && |s| > 0
    && IsDigit(s[0])
    && IsDigit(s[|s| - 1])
    && forall i | 0 <= i < |s| :: IsDigit(s[i]) || (s[i] == '_' && i + 1 < |s| && IsDigit(s[i + 1]))
  }

  function DropUnderscores(s: string): (r: string)
    ensures (forall i | 0 <= i < |s| :: IsDigit(s[i]) || s[i] == '_') ==> AllDigits(r)
    ensures AllDigits(s) ==> r == s
  {
    if |s| == 0 then ""
    else if s[0] == '_' then DropUnderscores(s[1..])
    else [s[0]] + DropUnderscores(s[1..])
  }

  /** Python's `int(s)`: None stands for the ValueError it raises. */
  function PyInt(s: string): Option<int> {
    var t := StripTrailing(StripLeading(s));
    if |t| > 0 && (t[0] == '+' || t[0] == '-') then
      var body := t[1..];
      if IsUnderscoredDigits(body) then
        var n: int := DigitsValue(DropUnderscores(body));
        Some(if t[0] == '-' then -n else n)
      else
        None
    else if IsUnderscoredDigits(t) then
      Some(DigitsValue(DropUnderscores(t)))
    else
      None
  }

  lemma StripDigits(s: string)
    requires |s| > 0 && AllDigits(s)
    ensures StripTrailing(StripLeading(s)) == s
  {
  }

  /** `int` reads back a digit string (leading zeros allowed) as its value. */
  lemma PyIntOfDigits(s: string)
    requires |s| > 0 && AllDigits(s)
    ensures PyInt(s) == Some(DigitsValue(s))
  {
    StripDigits(s);
  }

  /** `int(str(i)) == i` for every integer. */
  lemma PyIntOfIntToString(i: int)
    ensures PyInt(IntToString(i)) == Some(i)
  {
    if i < 0 {
      var d := NatToString(-i);
      var s := "-" + d;
      assert StripLeading(s) == s;
      assert StripTrailing(s) == s by {
        assert IsDigit(s[|s| - 1]);
      }
      assert s[1..] == d;
    } else {
      PyIntOfDigits(NatToString(i));
    }
  }
}
