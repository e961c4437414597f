/**
 * The examples in the docstrings of `Version`, stated as lemmas about the
 * model. Where an example disagrees with the code, the lemma states what
 * the code does.
 */
module Anchors {
  import opened Wrappers
  import opened Text
  import opened Grammar
  import opened Versions
  import opened Precedence
  import opened Derive
  import opened Matching

  lemma NineAndTen()
    ensures NatToString(9) == "9" && NatToString(10) == "10"
  {
  }

  lemma SplitPair(p: string, q: string)
    requires '.' !in p && '.' !in q
    ensures Split(p + "." + q) == [p, q]
  {
    SplitCons(p, q);
    SplitDotFree(q);
  }

  lemma ExampleIdentifiers()
    ensures Split("rc.2") == ["rc", "2"] && Split("rc.10") == ["rc", "10"]
  {
    SplitPair("rc", "2");
    assert "rc" + "." + "2" == "rc.2";
    SplitPair("rc", "10");
    assert "rc" + "." + "10" == "rc.10";
  }

  lemma PrereleasePair(p: string, q: string)
    requires '.' !in p && '.' !in q
    requires IsPrereleaseIdent(p) && IsPrereleaseIdent(q)
    ensures IsPrerelease(p + "." + q)
  {
    SplitPair(p, q);
  }

  lemma BuildPair(p: string, q: string)
    requires '.' !in p && '.' !in q
    requires IsAlphanumIdent(p) && IsAlphanumIdent(q)
    ensures IsBuild(p + "." + q)
  {
    SplitPair(p, q);
  }

  lemma ExampleIdentChars()
    ensures IsPrereleaseIdent("pre") && IsPrereleaseIdent("2")
    ensures IsAlphanumIdent("build") && IsAlphanumIdent("4")
  {
    assert !IsDigit("pre"[0]);
  }

  lemma ExampleWellFormed()
    ensures WellFormed(Version(3, 4, 5, Some("pre.2"), Some("build.4")))
  {
    ExampleIdentChars();
    PrereleasePair("pre", "2");
    assert "pre" + "." + "2" == "pre.2";
    BuildPair("build", "4");
    assert "build" + "." + "4" == "build.4";
  }

  /** The text of a release whose three numbers are single digits. */
  lemma SmallRelease(a: nat, b: nat, c: nat)
    requires a < 10 && b < 10 && c < 10
    ensures ToString(Version(a, b, c, None, None)) == [DigitChar(a), '.', DigitChar(b), '.', DigitChar(c)]
  {
  }

  /** A non-empty pre-release and build are appended to the release's text after `-` and `+`. */
  lemma TextWithTail(v: Version, pre: string, build: string)
    requires v.prerelease.None? && v.build.None?
    requires pre != "" && build != ""
    ensures ToString(v.(prerelease := Some(pre), build := Some(build))) == ToString(v) + "-" + pre + "+" + build
  {
    var r := NatToString(v.major) + "." + NatToString(v.minor) + "." + NatToString(v.patch);
    assert ToString(v) == r + "" + "";
    assert r + "" + "" == r;
  }

  lemma ExampleText()
    ensures ToString(Version(3, 4, 5, Some("pre.2"), Some("build.4"))) == "3.4.5-pre.2+build.4"
  {
    var r := Version(3, 4, 5, None, None);
    SmallRelease(3, 4, 5);
    TextWithTail(r, "pre.2", "build.4");
    assert "3.4.5" + "-" + "pre.2" + "+" + "build.4" == "3.4.5-pre.2+build.4";
  }

  lemma ParseExample()
    ensures Parse("3.4.5-pre.2+build.4") == Success(Version(3, 4, 5, Some("pre.2"), Some("build.4")))
  {
    var v := Version(3, 4, 5, Some("pre.2"), Some("build.4"));
    ExampleWellFormed();
    ExampleText();
    ParseToString(v);
  }

  lemma BumpExamples()
    ensures BumpMajor(Version(3, 4, 5, None, None)) == Version(4, 0, 0, None, None)
    ensures BumpMinor(Version(3, 4, 5, None, None)) == Version(3, 5, 0, None, None)
    ensures BumpPatch(Version(3, 4, 5, None, None)) == Version(3, 4, 6, None, None)
  {
  }

  /** The docstring shows `rc.2`; the code starts a release's pre-release at `rc.1`. */
  lemma BumpPrereleaseExample()
    ensures BumpPrerelease(Version(3, 4, 5, None, None), None) == Version(3, 4, 5, Some("rc.1"), None)
  {
    RcSeed(Version(3, 4, 5, None, None));
  }

  /** Without a token, a release's pre-release starts at `rc.1`. */
  lemma RcSeed(v: Version)
    requires !Truthy(v.prerelease)
    ensures BumpPrerelease(v, None) == v.(prerelease := Some("rc.1"), build := None)
  {
    BumpPrereleaseSeeds(v, None);
    assert TokenOr(None, "rc") + ".1" == "rc.1";
  }

  lemma BumpBuildExample()
    ensures BumpBuild(Version(3, 4, 5, Some("rc.1"), Some("build.9")), None)
            == Version(3, 4, 5, Some("rc.1"), Some("build.10"))
  {
    IncrementNumeralSuffix("build", 9);
    NineAndTen();
    assert "build" + "." + "9" == "build.9";
    assert "build" + "." + "10" == "build.10";
  }

  lemma PaddedRun()
    ensures DigitsValue("009") == 9
    ensures IncrementedRun("009") == "010"
  {
    assert "009"[..2] == "00" && "00"[..1] == "0";
    assert DigitsValue("0") == 0;
    assert DigitsValue("00") == 0;
    assert DigitsValue("009") == 9;
    NineAndTen();
    assert "009"[..1] == "0";
  }

  /** Leading zeros absorb the carry, so the width is kept. */
  lemma IncrementPadded()
    ensures IncrementString("x.009") == "x.010"
  {
    var p, d := "x.", "009";
    DigitsAtEnd(p, d);
    IncrementLastRun(p + d, 2, 5);
    PaddedRun();
    assert p + d == "x.009";
    assert (p + d)[..2] == p && (p + d)[2..5] == d && (p + d)[5..] == "";
    assert p + "010" + "" == "x.010";
  }

  lemma GrownRun()
    ensures IncrementedRun("9") == "10"
  {
    assert DigitsValue("9") == 9;
    NineAndTen();
  }

  /** Without leading zeros the run grows by a digit. */
  lemma IncrementGrows()
    ensures IncrementString("rc9") == "rc10"
  {
    var p, d := "rc", "9";
    DigitsAtEnd(p, d);
    IncrementLastRun(p + d, 2, 3);
    GrownRun();
    assert p + d == "rc9";
    assert (p + d)[..2] == p && (p + d)[2..3] == d && (p + d)[3..] == "";
    assert p + "10" + "" == "rc10";
  }

  lemma ExampleStrings()
    ensures ToString(Version(2, 0, 0, None, None)) == "2.0.0"
    ensures ToString(Version(1, 0, 0, None, None)) == "1.0.0"
    ensures ToString(Version(0, 1, 0, None, None)) == "0.1.0"
  {
    SmallRelease(2, 0, 0);
    SmallRelease(1, 0, 0);
    SmallRelease(0, 1, 0);
  }

  /** The docstring shows -1 for the last case; the code gives 1, since 1.0.0 is above 0.1.0. */
  lemma CompareExamples()
    ensures CompareTo(Version(1, 0, 0, None, None), AString("2.0.0")) == Success(-1)
    ensures CompareTo(Version(1, 0, 0, None, None), AString("1.0.0")) == Success(0)
    ensures CompareTo(Version(1, 0, 0, None, None), AString("0.1.0")) == Success(1)
  {
    ExampleStrings();
    CompareToString(Version(1, 0, 0, None, None), Version(2, 0, 0, None, None));
    CompareToString(Version(1, 0, 0, None, None), Version(1, 0, 0, None, None));
    CompareToString(Version(1, 0, 0, None, None), Version(0, 1, 0, None, None));
  }

  lemma NextVersionExample()
    ensures NextVersion(Version(0, 1, 4, None, None), "prerelease", None)
            == Success(Version(0, 1, 5, Some("rc.1"), None))
    ensures ToString(NextVersion(Version(0, 1, 4, None, None), "prerelease", None).value) == "0.1.5-rc.1"
  {
    NextRc(Version(0, 1, 4, None, None));
    NextVersionString();
  }

  /** Without a token, `next_version("prerelease")` of a release is the next patch at `rc.1`. */
  lemma NextRc(v: Version)
    requires !Truthy(v.prerelease)
    ensures NextVersion(v, "prerelease", None) == Success(Version(v.major, v.minor, v.patch + 1, Some("rc.1"), None))
  {
    NextPrereleaseOfRelease(v, None);
    assert TokenOr(None, "rc") + ".1" == "rc.1";
  }

  lemma NextVersionString()
    ensures ToString(Version(0, 1, 5, Some("rc.1"), None)) == "0.1.5-rc.1"
  {
    var v := Version(0, 1, 5, Some("rc.1"), None);
    SmallRelease(0, 1, 5);
    assert ToString(v) == ToString(v.(prerelease := None)) + "-rc.1";
  }

  lemma FinalizeExample()
    ensures ToString(Finalize(Version(1, 2, 3, Some("rc.5"), None))) == "1.2.3"
  {
    assert Finalize(Version(1, 2, 3, Some("rc.5"), None)) == Version(1, 2, 3, None, None);
    SmallRelease(1, 2, 3);
  }

  lemma OneString()
    ensures ToString(Version(1, 0, 0, None, None)) == "1.0.0"
  {
    SmallRelease(1, 0, 0);
  }

  lemma MatchAtLeastExample()
    ensures Match(Version(2, 0, 0, None, None), ">=1.0.0") == Success(true)
  {
    var one := Version(1, 0, 0, None, None);
    OneString();
    assert ">=" + ToString(one) == ">=1.0.0";
    MatchMeaning(Version(2, 0, 0, None, None), ">=", one);
  }

  lemma MatchAboveExample()
    ensures Match(Version(1, 0, 0, None, None), ">1.0.0") == Success(false)
  {
    var one := Version(1, 0, 0, None, None);
    OneString();
    assert ">" + ToString(one) == ">1.0.0";
    MatchMeaning(one, ">", one);
  }

  /** Pre-release identifiers of digits compare as numbers, so `rc.2` is below `rc.10`. */
  lemma NumericIdentifiersExample()
    ensures Compare(Version(1, 0, 0, Some("rc.2"), None), Version(1, 0, 0, Some("rc.10"), None)) == -1
  {
    SameTriple(Version(1, 0, 0, Some("rc.2"), None), Version(1, 0, 0, Some("rc.10"), None));
    RcNatCmp();
  }

  lemma RcNatCmp()
    ensures NatCmp("rc.2", "rc.10") == -1
  {
    RcIdents();
    RcZip();
  }

  lemma RcIdents()
    ensures Idents(Split("rc.2")) == [Txt("rc"), Num(2)]
    ensures Idents(Split("rc.10")) == [Txt("rc"), Num(10)]
  {
    ExampleIdentifiers();
    ExampleIdents();
  }

  lemma RcZip()
    ensures ZipCmp([Txt("rc"), Num(2)], [Txt("rc"), Num(10)]) == -1
  {
    var xs, ys := [Txt("rc"), Num(2)], [Txt("rc"), Num(10)];
    assert xs[1..] == [Num(2)] && ys[1..] == [Num(10)];
  }

  lemma ExampleIdents()
    ensures Idents(["rc", "2"]) == [Txt("rc"), Num(2)]
    ensures Idents(["rc", "10"]) == [Txt("rc"), Num(10)]
  {
    assert "10"[..1] == "1";
    assert DigitsValue("10") == 10;
  }

  /** Two parts, a leading zero, an empty pre-release and a fourth part are all refused. */
  lemma InvalidExamples()
    ensures IsValid("1.2") == Success(false)
    ensures IsValid("01.2.3") == Success(false)
    ensures IsValid("1.2.3-") == Success(false)
    ensures IsValid("1.2.3.4") == Success(false)
  {
    TwoParts();
    NoMatchInvalid("1.2");
    LeadingZero();
    NoMatchInvalid("01.2.3");
    EmptyPrerelease();
    NoMatchInvalid("1.2.3-");
    FourParts();
    NoMatchInvalid("1.2.3.4");
  }

  lemma NoMatchInvalid(s: string)
    requires MatchVersion(s) == None
    ensures IsValid(s) == Success(false)
  {
  }

  lemma TwoParts()
    ensures MatchVersion("1.2") == None
  {
    assert IndexOf("1.2", '.') == 1;
    assert "1.2"[2..] == "2";
  }

  lemma LeadingZero()
    ensures MatchVersion("01.2.3") == None
  {
    assert IndexOf("01.2.3", '.') == 2;
    assert "01.2.3"[..2] == "01";
  }

  lemma EmptyPrerelease()
    ensures MatchVersion("1.2.3-") == None
  {
    EmptyPrereleaseRefused("1", "2", "3");
    assert "1" + "." + "2" + "." + ("3" + "-") == "1.2.3-";
  }

  lemma FourParts()
    ensures MatchVersion("1.2.3.4") == None
  {
    ExtraPartRefused("1", "2", "3", "4");
    assert "1" + "." + "2" + "." + ("3" + "." + "4") == "1.2.3.4";
  }

  /** The matcher cuts the patch before the first character that is not a digit. */
  lemma DigitsThen(c: string, t: string)
    requires AllDigits(c) && |t| > 0 && !IsDigit(t[0])
    ensures var k := DigitPrefixLen(c + t); (c + t)[..k] == c && (c + t)[k..] == t
  {
    DigitPrefixAppend(c, t);
  }

  /** A fourth dotted part is refused. */
  lemma ExtraPartRefused(a: string, b: string, c: string, d: string)
    requires AllDigits(a) && AllDigits(b) && AllDigits(c)
    ensures MatchVersion(a + "." + b + "." + (c + "." + d)) == None
  {
    var rest, t := c + "." + d, "." + d;
    assert rest == c + t;
    MatchVersionCuts(a, b, rest);
    DigitsThen(c, t);
    assert Cuts(a + "." + b + "." + rest) == Some((a, b, c, t));
    DotTail(d);
    assert MatchGroups(a, b, c, t) == None;
  }

  lemma DotTail(d: string)
    ensures MatchTail("." + d) == None
  {
    assert ("." + d)[0] == '.';
  }

  /** A `-` with nothing after it is refused. */
  lemma EmptyPrereleaseRefused(a: string, b: string, c: string)
    requires AllDigits(a) && AllDigits(b) && AllDigits(c)
    ensures MatchVersion(a + "." + b + "." + (c + "-")) == None
  {
    MatchVersionCuts(a, b, c + "-");
    DigitsThen(c, "-");
    DashAlone();
  }

  lemma DashAlone()
    ensures MatchTail("-") == None
  {
    assert "-"[1..] == "";
    assert Split("") == [""];
    assert !IsPrerelease("");
  }

  /** `int()` strips ASCII white space but not the separators U+001C to U+001F. */
  lemma IntStripsOnlySpace()
    ensures EnsureInt(StrArg(" 1\n")) == Success(1)
    ensures EnsureInt(StrArg("\U{1C}1")) == Failure(NotAnInteger("\U{1C}1"))
  {
    assert StripTrailing(StripLeading(" 1\n")) == "1";
    assert StripTrailing(StripLeading("\U{1C}1")) == "\U{1C}1";
  }

  // ---------------------------------------------------------------------
  // Off the grammar, `_nat_cmp` is not an order
  // ---------------------------------------------------------------------

  function Pre(p: string): Version {
    Version(1, 0, 0, Some(p), None)
  }

  lemma IdentsPair(x: string, y: string)
    ensures Idents([x, y]) == [ToIdent(x), ToIdent(y)]
  {
  }

  lemma DigitIdent(d: string)
    requires |d| > 0 && AllDigits(d)
    ensures ToIdent(d) == Num(DigitsValue(d))
  {
  }

  lemma TextIdent(t: string)
    requires |t| > 0 && !IsDigit(t[0])
    ensures ToIdent(t) == Txt(t)
  {
    assert !AllDigits(t);
    if |t| > 1 {
      assert t[..|t| - 1][0] == t[0];
    }
  }

  /** `d.t`, a digit identifier then a text identifier, as `_nat_cmp` reads it. */
  lemma NumThenText(d: string, t: string)
    requires |d| > 0 && AllDigits(d) && '.' !in t && |t| > 0 && !IsDigit(t[0])
    ensures Idents(Split(d + "." + t)) == [Num(DigitsValue(d)), Txt(t)]
  {
    AllDigitsNoDot(d);
    SplitPair(d, t);
    IdentsPair(d, t);
    DigitIdent(d);
    TextIdent(t);
  }

  lemma AllDigitsNoDot(d: string)
    requires AllDigits(d)
    ensures '.' !in d
  {
    assert forall k | 0 <= k < |d| :: d[k] != '.';
  }

  /** A single digit identifier, leading zeros allowed, reads as its value. */
  lemma NumAlone(z: string)
    requires |z| > 0 && AllDigits(z)
    ensures Idents(Split(z)) == [Num(DigitsValue(z))]
  {
    AllDigitsNoDot(z);
    SplitDotFree(z);
    DigitIdent(z);
  }

  lemma ZipPrefixTie(n: nat, t: string)
    ensures ZipCmp([Num(n), Txt(t)], [Num(n)]) == 0
    ensures ZipCmp([Num(n)], [Num(n), Txt(t)]) == 0
  {
    var xs, ys := [Num(n), Txt(t)], [Num(n)];
    assert xs[1..] == [Txt(t)] && ys[1..] == [];
  }

  lemma ZipSecond(n: nat, s: string, t: string)
    ensures ZipCmp([Num(n), Txt(s)], [Num(n), Txt(t)]) == LexCmp(s, t)
  {
    var xs, ys := [Num(n), Txt(s)], [Num(n), Txt(t)];
    assert IdentCmp(xs[0], ys[0]) == 0;
    assert xs[1..] == [Txt(s)] && ys[1..] == [Txt(t)];
    ZipLast(s, t);
  }

  lemma ZipLast(s: string, t: string)
    ensures ZipCmp([Txt(s)], [Txt(t)]) == LexCmp(s, t)
  {
    var xs, ys := [Txt(s)], [Txt(t)];
    assert IdentCmp(xs[0], ys[0]) == LexCmp(s, t);
    assert xs[1..] == [] && ys[1..] == [];
    assert ZipCmp(xs[1..], ys[1..]) == 0;
  }

  /**
   * `d.t` against a lone number of the same value: the identifiers tie, so
   * the lengths of the whole strings decide.
   */
  lemma PrefixTie(d: string, t: string, z: string)
    requires |d| > 0 && AllDigits(d) && '.' !in t && |t| > 0 && !IsDigit(t[0])
    requires |z| > 0 && AllDigits(z) && DigitsValue(z) == DigitsValue(d)
    ensures NatCmp(d + "." + t, z) == Cmp(|d| + 1 + |t|, |z|)
    ensures NatCmp(z, d + "." + t) == Cmp(|z|, |d| + 1 + |t|)
  {
    NumThenText(d, t);
    NumAlone(z);
    ZipPrefixTie(DigitsValue(d), t);
  }

  /** `d.s` against `d.t`: the text identifiers decide. */
  lemma TextTie(d: string, s: string, t: string)
    requires |d| > 0 && AllDigits(d)
    requires '.' !in s && |s| > 0 && !IsDigit(s[0]) && '.' !in t && |t| > 0 && !IsDigit(t[0])
    requires s != t
    ensures NatCmp(d + "." + s, d + "." + t) == LexCmp(s, t)
  {
    NumThenText(d, s);
    NumThenText(d, t);
    ZipSecond(DigitsValue(d), s, t);
  }

  lemma PaddedOnes()
    ensures DigitsValue("0001") == 1 && DigitsValue("001") == 1 && DigitsValue("1") == 1
  {
    assert "0001"[..3] == "000" && "000"[..2] == "00" && "00"[..1] == "0";
    assert "001"[..2] == "00";
  }

  /** `PrefixTie` lifted to versions of the same triple. */
  lemma PrefixTieCompare(d: string, t: string, z: string)
    requires |d| > 0 && AllDigits(d) && '.' !in t && |t| > 0 && !IsDigit(t[0])
    requires |z| > 0 && AllDigits(z) && DigitsValue(z) == DigitsValue(d)
    ensures Compare(Pre(d + "." + t), Pre(z)) == Cmp(|d| + 1 + |t|, |z|)
    ensures Compare(Pre(z), Pre(d + "." + t)) == Cmp(|z|, |d| + 1 + |t|)
  {
    PrefixTie(d, t, z);
    SameTriple(Pre(d + "." + t), Pre(z));
    SameTriple(Pre(z), Pre(d + "." + t));
  }

  /** `TextTie` lifted to versions of the same triple. */
  lemma TextTieCompare(d: string, s: string, t: string)
    requires |d| > 0 && AllDigits(d)
    requires '.' !in s && |s| > 0 && !IsDigit(s[0]) && '.' !in t && |t| > 0 && !IsDigit(t[0])
    requires s != t
    ensures Compare(Pre(d + "." + s), Pre(d + "." + t)) == LexCmp(s, t)
  {
    TextTie(d, s, t);
    SameTriple(Pre(d + "." + s), Pre(d + "." + t));
  }

  lemma ShorterBelow()
    ensures Compare(Pre("1.b"), Pre("0001")) == -1
  {
    PaddedOnes();
    assert "1" + "." + "b" == "1.b";
    PrefixTieCompare("1", "b", "0001");
  }

  lemma LongerAbove()
    ensures Compare(Pre("0001"), Pre("1.a--")) == -1
  {
    PaddedOnes();
    assert "1" + "." + "a--" == "1.a--";
    PrefixTieCompare("1", "a--", "0001");
  }

  lemma TextDecides()
    ensures Compare(Pre("1.b"), Pre("1.a--")) == 1
  {
    assert "1" + "." + "b" == "1.b" && "1" + "." + "a--" == "1.a--";
    assert LexCmp("b", "a--") == 1;
    TextTieCompare("1", "b", "a--");
  }

  lemma EqualLengthTie()
    ensures Compare(Pre("1.a"), Pre("001")) == 0
  {
    PaddedOnes();
    assert "1" + "." + "a" == "1.a";
    PrefixTieCompare("1", "a", "001");
  }

  /**
   * The constructor does not check the pre-release text, and on such
   * versions `compare` is neither transitive nor zero only on equal versions.
   */
  lemma CompareNotTransitiveOffGrammar()
    ensures Compare(Pre("1.b"), Pre("0001")) == -1
    ensures Compare(Pre("0001"), Pre("1.a--")) == -1
    ensures Compare(Pre("1.b"), Pre("1.a--")) == 1
    ensures Compare(Pre("1.a"), Pre("001")) == 0 && Pre("1.a") != Pre("001")
  {
    ShorterBelow();
    LongerAbove();
    TextDecides();
    EqualLengthTie();
    assert "1.a"[0] != "001"[0];
  }
}
