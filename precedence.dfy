/**
 * Version precedence: `_cmp`, `_nat_cmp` and `Version.compare`, with the
 * precedence rules of section 11 of Semantic Versioning 2.0.0 written out
 * independently and proved to agree with them on well-formed versions.
 */
module Precedence {
  import opened Wrappers
  import opened Text
  import opened Grammar
  import opened Versions

  /** A pre-release identifier as `_nat_cmp` sees it: an int when `^\d+$` matches, else the text. */
  datatype Ident = Num(n: nat) | Txt(t: string)

  /**
   * `int(x) if re.match(r"^\d+$", x) else x`. As in `_REGEX`, `$` also
   * matches before a final newline, and `int` strips that newline.
   */
  function ToIdent(x: string): Ident {
    if |x| > 0 && AllDigits(x) then Num(DigitsValue(x))
    else if |x| > 1 && x[|x| - 1] == '\n' && AllDigits(x[..|x| - 1]) then Num(DigitsValue(x[..|x| - 1]))
    else Txt(x)
  }

  function Idents(parts: seq<string>): (r: seq<Ident>)
    ensures |r| == |parts|
    ensures forall i | 0 <= i < |parts| :: r[i] == ToIdent(parts[i])
  {
    if |parts| == 0 then [] else [ToIdent(parts[0])] + Idents(parts[1..])
  }

  /** `cmp_prerelease_tag`: ints by value, strings by code points, an int below a string. */
  function IdentCmp(a: Ident, b: Ident): (r: int)
    ensures r == -1 || r == 0 || r == 1
  {
    match (a, b)
    case (Num(x), Num(y)) => Cmp(x, y)
    case (Num(_), Txt(_)) => -1
    case (Txt(_), Num(_)) => 1
    case (Txt(x), Txt(y)) => LexCmp(x, y)
  }

  /** The loop over `zip(a_parts, b_parts)`: the first non-zero comparison, else 0. */
  function ZipCmp(xs: seq<Ident>, ys: seq<Ident>): (r: int)
    ensures r == -1 || r == 0 || r == 1
  {
    if |xs| == 0 || |ys| == 0 then 0
    else if IdentCmp(xs[0], ys[0]) != 0 then IdentCmp(xs[0], ys[0])
    else ZipCmp(xs[1..], ys[1..])
  }

  /** `a or ""` for an optional pre-release. */
  function OrEmpty(o: Option<string>): string {
    if o.Some? then o.value else ""
  }

  /**
   * `_nat_cmp` on two strings: the identifiers in order, and when they run
   * out without a difference, the lengths of the two whole strings.
   */
  function NatCmp(a: string, b: string): (r: int)
    ensures r == -1 || r == 0 || r == 1
  {
    var z := ZipCmp(Idents(Split(a)), Idents(Split(b)));
    if z != 0 then z else Cmp(|a|, |b|)
  }

  /** `_nat_cmp(a, b)` with its `for` loop and early return. */
  method NatCmpLoop(a: Option<string>, b: Option<string>) returns (r: int)
    ensures r == NatCmp(OrEmpty(a), OrEmpty(b))
  {
    var sa := OrEmpty(a);
    var sb := OrEmpty(b);
    var xs := Idents(Split(sa));
    var ys := Idents(Split(sb));
    var i := 0;
    while i < |xs| && i < |ys|
      invariant 0 <= i <= |xs| && i <= |ys|
      invariant ZipCmp(xs[i..], ys[i..]) == ZipCmp(xs, ys)
    {
      var c := IdentCmp(xs[i], ys[i]);
      if c != 0 {
        return c;
      }
      assert xs[i..][1..] == xs[i + 1..] && ys[i..][1..] == ys[i + 1..];
      i := i + 1;
    }
    r := Cmp(|sa|, |sb|);
  }

  /** `_cmp(self.to_tuple()[:3], other.to_tuple()[:3])`: Python's tuple order. */
  function TripleCmp(v: Version, w: Version): int {
    if v.major != w.major then Cmp(v.major, w.major)
    else if v.minor != w.minor then Cmp(v.minor, w.minor)
    else Cmp(v.patch, w.patch)
  }

  /** `Version.compare` once `other` is a Version. */
  function Compare(v: Version, w: Version): (r: int)
    ensures r == -1 || r == 0 || r == 1
  {
    var x := TripleCmp(v, w);
    if x != 0 then x
    else
      var rccmp := NatCmp(OrEmpty(v.prerelease), OrEmpty(w.prerelease));
      if rccmp == 0 then 0
      else if !Truthy(v.prerelease) then 1
      else if !Truthy(w.prerelease) then -1
      else rccmp
  }

  /** The second operand of `compare`, as the kinds of value it converts to a Version. */
  datatype Comparable =
    | AVersion(version: Version)
    | AString(text: string)
    | AMapping(parts: map<string, Arg>)
    | ASequence(items: seq<Arg>)

  /** `Version.compare(other)`: convert `other`, then compare. */
  function CompareTo(v: Version, other: Comparable): (r: Result<int, Error>)
    ensures other.AString? && '.' !in other.text ==> r == Failure(NotAVersionString(other.text))
    ensures other.AVersion? ==> r == Success(Compare(v, other.version))
  {
    var w :- match other
      case AVersion(w) => Success(w)
      case AString(s) => if '.' !in s then Failure(NotAVersionString(s)) else Construct([StrArg(s)], map[])
      case AMapping(d) => Construct([], d)
      case ASequence(items) => Construct(items, map[]);
    Success(Compare(v, w))
  }

  // ---------------------------------------------------------------------
  // Properties of the comparison as written
  // ---------------------------------------------------------------------

  lemma IdentCmpAntisymmetric(a: Ident, b: Ident)
    ensures IdentCmp(a, b) == -IdentCmp(b, a)
  {
    if a.Txt? && b.Txt? {
      LexCmpAntisymmetric(a.t, b.t);
    }
  }

  lemma {:induction false} ZipCmpAntisymmetric(xs: seq<Ident>, ys: seq<Ident>)
    ensures ZipCmp(xs, ys) == -ZipCmp(ys, xs)
  {
    if |xs| > 0 && |ys| > 0 {
      IdentCmpAntisymmetric(xs[0], ys[0]);
      ZipCmpAntisymmetric(xs[1..], ys[1..]);
    }
  }

  /** `_nat_cmp(a, b) == -_nat_cmp(b, a)` for all strings. */
  lemma NatCmpAntisymmetric(a: string, b: string)
    ensures NatCmp(a, b) == -NatCmp(b, a)
  {
    ZipCmpAntisymmetric(Idents(Split(a)), Idents(Split(b)));
  }

  /** A missing (or empty) pre-release never ties with a non-empty one. */
  lemma NatCmpEmpty(p: string)
    requires p != ""
    ensures NatCmp("", p) == -1 || NatCmp("", p) == 1
  {
    assert Split("") == [""];
    var ps := Split(p);
    if ToIdent(ps[0]).Txt? && ps[0] == "" {
      assert ZipCmp(Idents([""]), Idents(ps)) == 0;
    }
  }

  /** `compare` is antisymmetric on all versions. */
  lemma CompareAntisymmetric(v: Version, w: Version)
    ensures Compare(v, w) == -Compare(w, v)
  {
    TripleCmpAntisymmetric(v, w);
    if TripleCmp(v, w) == 0 {
      NatCmpAntisymmetric(OrEmpty(v.prerelease), OrEmpty(w.prerelease));
      if !Truthy(v.prerelease) && !Truthy(w.prerelease) {
        assert OrEmpty(v.prerelease) == "" && OrEmpty(w.prerelease) == "";
      }
    }
  }

  lemma TripleCmpAntisymmetric(v: Version, w: Version)
    ensures TripleCmp(v, w) == -TripleCmp(w, v)
  {
  }

  /** Build metadata is never consulted. */
  lemma CompareIgnoresBuild(v: Version, w: Version, b: Option<string>)
    ensures Compare(v.(build := b), w) == Compare(v, w)
    ensures Compare(v, w.(build := b)) == Compare(v, w)
  {
    var v2, w2 := v.(build := b), w.(build := b);
    assert TripleCmp(v2, w) == TripleCmp(v, w) && OrEmpty(v2.prerelease) == OrEmpty(v.prerelease);
    assert TripleCmp(v, w2) == TripleCmp(v, w) && OrEmpty(w2.prerelease) == OrEmpty(w.prerelease);
  }

  /** The triple is compared first, lexicographically. */
  lemma TripleFirst(v: Version, w: Version)
    ensures TripleLess(v, w) ==> Compare(v, w) == -1
    ensures TripleLess(w, v) ==> Compare(v, w) == 1
  {
  }

  /** Two versions with the same three numbers and non-empty pre-releases compare as their pre-releases. */
  lemma SameTriple(v: Version, w: Version)
    requires v.major == w.major && v.minor == w.minor && v.patch == w.patch
    requires Truthy(v.prerelease) && Truthy(w.prerelease)
    ensures Compare(v, w) == NatCmp(v.prerelease.value, w.prerelease.value)
  {
  }

  /** At an equal triple, a release ranks above every pre-release of it. */
  lemma ReleaseAbovePrerelease(v: Version, w: Version)
    requires v.major == w.major && v.minor == w.minor && v.patch == w.patch
    requires !Truthy(v.prerelease) && Truthy(w.prerelease)
    ensures Compare(v, w) == 1 && Compare(w, v) == -1
  {
    assert OrEmpty(v.prerelease) == "";
    NatCmpEmpty(OrEmpty(w.prerelease));
    CompareAntisymmetric(v, w);
  }

  // ---------------------------------------------------------------------
  // Section 11 of Semantic Versioning 2.0.0, written out independently
  // ---------------------------------------------------------------------

  /** (major, minor, patch) of `v` comes strictly before that of `w` (section 11.2). */
  predicate TripleLess(v: Version, w: Version) {
    || v.major < w.major
    || (v.major == w.major && v.minor < w.minor)
    || (v.major == w.major && v.minor == w.minor && v.patch < w.patch)
  }

  /** Section 11.4.1 to 11.4.3: one identifier against another. */
  function SemverIdentCmp(x: string, y: string): int {
    if AllDigits(x) && AllDigits(y) then Cmp(DigitsValue(x), DigitsValue(y))
    else if AllDigits(x) then -1
    else if AllDigits(y) then 1
    else LexCmp(x, y)
  }

  /** Section 11.4: identifier by identifier; a longer list wins when all before are equal. */
  function SemverIdentsCmp(xs: seq<string>, ys: seq<string>): int {
    if |xs| == 0 && |ys| == 0 then 0
    else if |xs| == 0 then -1
    else if |ys| == 0 then 1
    else if SemverIdentCmp(xs[0], ys[0]) != 0 then SemverIdentCmp(xs[0], ys[0])
    else SemverIdentsCmp(xs[1..], ys[1..])
  }

  /** Section 11: the numbers first, then a release above its pre-releases, then the identifiers. */
  function SemverPrecedence(v: Version, w: Version): int {
    if TripleLess(v, w) then -1
    else if TripleLess(w, v) then 1
    else
      match (v.prerelease, w.prerelease)
      case (None, None) => 0
      case (None, Some(_)) => 1
      case (Some(_), None) => -1
      case (Some(p), Some(q)) => SemverIdentsCmp(Split(p), Split(q))
  }

  predicate ValidIdents(xs: seq<string>) {
    forall i | 0 <= i < |xs| :: IsPrereleaseIdent(xs[i])
  }

  lemma IdentAgrees(x: string, y: string)
    requires IsPrereleaseIdent(x) && IsPrereleaseIdent(y)
    ensures IdentCmp(ToIdent(x), ToIdent(y)) == SemverIdentCmp(x, y)
    ensures SemverIdentCmp(x, y) == 0 ==> x == y
  {
    assert IsIdentChar(x[|x| - 1]) && IsIdentChar(y[|y| - 1]);
    if AllDigits(x) && AllDigits(y) && DigitsValue(x) == DigitsValue(y) {
      NumeralRoundTrip(x);
      NumeralRoundTrip(y);
    }
  }

  /** `_nat_cmp` on joined lists of valid identifiers is the section 11.4 order. */
  lemma {:induction false} PartsAgree(xs: seq<string>, ys: seq<string>)
    requires |xs| >= 1 && |ys| >= 1
    requires ValidIdents(xs) && ValidIdents(ys)
    ensures var z := ZipCmp(Idents(xs), Idents(ys));
      (if z != 0 then z else Cmp(|Join(xs)|, |Join(ys)|)) == SemverIdentsCmp(xs, ys)
  {
    var x, y := xs[0], ys[0];
    IdentAgrees(x, y);
    assert Idents(xs)[1..] == Idents(xs[1..]);
    assert Idents(ys)[1..] == Idents(ys[1..]);
    if SemverIdentCmp(x, y) == 0 {
      if |xs| > 1 && |ys| > 1 {
        PartsAgree(xs[1..], ys[1..]);
      }
    }
  }

  /** On well-formed pre-releases `_nat_cmp` is the order of section 11.4. */
  lemma NatCmpAgrees(p: string, q: string)
    requires IsPrerelease(p) && IsPrerelease(q)
    ensures NatCmp(p, q) == SemverIdentsCmp(Split(p), Split(q))
  {
    PartsAgree(Split(p), Split(q));
  }

  /** On well-formed versions `compare` is exactly the precedence of section 11. */
  lemma CompareAgrees(v: Version, w: Version)
    requires WellFormed(v) && WellFormed(w)
    ensures Compare(v, w) == SemverPrecedence(v, w)
  {
    EmptyNotGrammatical();
    match (v.prerelease, w.prerelease)
    case (None, None) =>
    case (None, Some(q)) =>
      NatCmpEmpty(q);
    case (Some(p), None) =>
      NatCmpEmpty(p);
      NatCmpAntisymmetric(p, "");
    case (Some(p), Some(q)) =>
      NatCmpAgrees(p, q);
  }

  // ---------------------------------------------------------------------
  // The reference order is a total order on well-formed versions
  // ---------------------------------------------------------------------

  lemma SemverIdentAntisymmetric(x: string, y: string)
    ensures SemverIdentCmp(x, y) == -SemverIdentCmp(y, x)
  {
    LexCmpAntisymmetric(x, y);
  }

  lemma SemverIdentTransitive(x: string, y: string, z: string)
    requires SemverIdentCmp(x, y) < 0 && SemverIdentCmp(y, z) < 0
    ensures SemverIdentCmp(x, z) < 0
  {
    if !AllDigits(x) && !AllDigits(y) && !AllDigits(z) {
      LexCmpTransitive(x, y, z);
    }
  }

  lemma {:induction false} SemverIdentsAntisymmetric(xs: seq<string>, ys: seq<string>)
    ensures SemverIdentsCmp(xs, ys) == -SemverIdentsCmp(ys, xs)
  {
    if |xs| > 0 && |ys| > 0 {
      SemverIdentAntisymmetric(xs[0], ys[0]);
      SemverIdentsAntisymmetric(xs[1..], ys[1..]);
    }
  }

  lemma {:induction false} SemverIdentsZero(xs: seq<string>, ys: seq<string>)
    requires ValidIdents(xs) && ValidIdents(ys)
    ensures SemverIdentsCmp(xs, ys) == 0 <==> xs == ys
  {
    if |xs| > 0 && |ys| > 0 {
      IdentAgrees(xs[0], ys[0]);
      SemverIdentsZero(xs[1..], ys[1..]);
      if xs == ys {
        assert SemverIdentCmp(xs[0], ys[0]) == 0;
      }
      if xs[0] == ys[0] && xs[1..] == ys[1..] {
        assert xs == [xs[0]] + xs[1..] && ys == [ys[0]] + ys[1..];
      }
    }
  }

  lemma {:induction false} SemverIdentsTransitive(xs: seq<string>, ys: seq<string>, zs: seq<string>)
    requires ValidIdents(xs) && ValidIdents(ys) && ValidIdents(zs)
    requires SemverIdentsCmp(xs, ys) < 0 && SemverIdentsCmp(ys, zs) < 0
    ensures SemverIdentsCmp(xs, zs) < 0
  {
    if |xs| > 0 && |ys| > 0 && |zs| > 0 {
      var x, y, z := xs[0], ys[0], zs[0];
      IdentAgrees(x, y);
      IdentAgrees(y, z);
      IdentAgrees(x, z);
      if SemverIdentCmp(x, y) == 0 && SemverIdentCmp(y, z) == 0 {
        SemverIdentsTransitive(xs[1..], ys[1..], zs[1..]);
      } else if SemverIdentCmp(x, y) != 0 && SemverIdentCmp(y, z) != 0 {
        SemverIdentTransitive(x, y, z);
      }
    }
  }

  lemma SplitValid(p: string)
    requires IsPrerelease(p)
    ensures ValidIdents(Split(p))
  {
  }

  /** Section 11 orders well-formed versions transitively. */
  lemma SemverPrecedenceTransitive(u: Version, v: Version, w: Version)
    requires WellFormed(u) && WellFormed(v) && WellFormed(w)
    requires SemverPrecedence(u, v) < 0 && SemverPrecedence(v, w) < 0
    ensures SemverPrecedence(u, w) < 0
  {
    if !TripleLess(u, v) && !TripleLess(v, u) && !TripleLess(v, w) && !TripleLess(w, v)
       && u.prerelease.Some? && v.prerelease.Some? && w.prerelease.Some? {
      SemverIdentsTransitive(Split(u.prerelease.value), Split(v.prerelease.value), Split(w.prerelease.value));
    }
  }

  /** `compare` is transitive on well-formed versions. */
  lemma CompareTransitive(u: Version, v: Version, w: Version)
    requires WellFormed(u) && WellFormed(v) && WellFormed(w)
    requires Compare(u, v) < 0 && Compare(v, w) < 0
    ensures Compare(u, w) < 0
  {
    CompareAgrees(u, v);
    CompareAgrees(v, w);
    CompareAgrees(u, w);
    SemverPrecedenceTransitive(u, v, w);
  }

  /** Two well-formed versions compare equal exactly when they differ at most in build. */
  lemma CompareZero(v: Version, w: Version)
    requires WellFormed(v) && WellFormed(w)
    ensures Compare(v, w) == 0 <==> v.(build := None) == w.(build := None)
  {
    CompareAgrees(v, w);
    if v.prerelease.Some? && w.prerelease.Some? {
      var p, q := v.prerelease.value, w.prerelease.value;
      SemverIdentsZero(Split(p), Split(q));
      if Split(p) == Split(q) {
        assert p == Join(Split(p));
      }
    }
  }

  /** `compare` accepts a version string in place of a Version. */
  lemma CompareToString(v: Version, w: Version)
    requires WellFormed(w)
    ensures CompareTo(v, AString(ToString(w))) == Success(Compare(v, w))
  {
    ParseToString(w);
    ToStringHasDot(w);
    ConstructFromString(ToString(w));
  }

  /** `compare` accepts `to_dict()` of a version in place of it. */
  lemma CompareToDict(v: Version, w: Version)
    ensures CompareTo(v, AMapping(ToDict(w))) == Success(Compare(v, w))
  {
    ConstructFromDict(w);
  }

  /** `compare` accepts `to_tuple()` of a version in place of it. */
  lemma CompareToTuple(v: Version, w: Version)
    ensures CompareTo(v, ASequence(ToTuple(w))) == Success(Compare(v, w))
  {
    ConstructFromTuple(w);
  }
}
