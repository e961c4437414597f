/**
 * New versions derived from old ones: `_increment_string`, the `bump_*`
 * methods, `next_version`, `finalize_version` and `replace`. Each returns a
 * new value and leaves its receiver as it was, which the functional model
 * gives for free.
 */
module Derive {
  import opened Wrappers
  import opened Text
  import opened Versions
  import opened Precedence

  function Max(a: int, b: int): int {
    if a >= b then a else b
  }

  // ---------------------------------------------------------------------
  // _increment_string
  // ---------------------------------------------------------------------

  /** One past the last digit of `s`, or 0 when `s` has no digit. */
  function LastDigitEnd(s: string): (en: nat)
    ensures en <= |s|
    ensures en > 0 ==> IsDigit(s[en - 1])
    ensures forall k | en <= k < |s| :: !IsDigit(s[k])
  {
    if |s| == 0 then 0
    else if IsDigit(s[|s| - 1]) then |s|
    else LastDigitEnd(s[..|s| - 1])
  }

  /** The start of the run of digits that ends at `en`. */
  function RunStart(s: string, en: nat): (st: nat)
    requires en <= |s|
    ensures st <= en
    ensures en > 0 && IsDigit(s[en - 1]) ==> st < en
    ensures AllDigits(s[st..en])
    ensures st == 0 || !IsDigit(s[st - 1])
  {
    if en == 0 || !IsDigit(s[en - 1]) then en
    else
      var st := RunStart(s, en - 1);
      assert s[st..en] == s[st..en - 1] + [s[en - 1]];
      st
  }

  /**
   * `_LAST_NUMBER.search(s).span(1)`: the greedy `(?:[^\d]*(\d+)[^\d]*)+`
   * captures, in its last repetition, the last maximal run of digits.
   */
  function LastDigitRun(s: string): (r: Option<(nat, nat)>)
    ensures r.None? <==> forall k | 0 <= k < |s| :: !IsDigit(s[k])
    ensures r.Some? ==>
      var (st, en) := r.value;
      && st < en <= |s|
      && AllDigits(s[st..en])
      && (st == 0 || !IsDigit(s[st - 1]))
      && forall k | en <= k < |s| :: !IsDigit(s[k])
  {
    var en := LastDigitEnd(s);
    if en == 0 then None else Some((RunStart(s, en), en))
  }

  /** `_increment_string`: the last run of digits plus one; no digit, no change. */
  function IncrementString(s: string): string {
    match LastDigitRun(s)
    case None => s
    case Some((st, en)) => Splice(s, st, en)
  }

  /**
   * `string[: max(end - len(next_), start)] + next_ + string[end:]` with
   * `next_` the zero-padded successor of the digits `string[start:end]`.
   */
  function Splice(s: string, st: nat, en: nat): string
    requires st <= en <= |s| && AllDigits(s[st..en])
  {
    var next := NatToString(DigitsValue(s[st..en]) + 1);
    var cut := if en - |next| > st then en - |next| else st;
    s[..cut] + next + s[en..]
  }

  /**
   * What the splice does to the run itself: its value goes up by one, and
   * leading zeros absorb the extra width (`009` becomes `010`).
   */
  function IncrementedRun(run: string): (r: string)
    requires AllDigits(run)
    ensures AllDigits(r)
    ensures DigitsValue(r) == DigitsValue(run) + 1
    ensures |r| == Max(|run|, |NatToString(DigitsValue(run) + 1)|)
  {
    var next := NatToString(DigitsValue(run) + 1);
    if |next| < |run| then
      PaddedSuccessor(run, |run| - |next|, next);
      run[..|run| - |next|] + next
    else
      next
  }

  /** Leading zeros in front of the successor keep its value: they were zeros of the run. */
  lemma PaddedSuccessor(run: string, k: nat, next: string)
    requires AllDigits(run) && AllDigits(next)
    requires DigitsValue(next) == DigitsValue(run) + 1
    requires 0 < k && k + |next| == |run|
    ensures AllDigits(run[..k] + next)
    ensures DigitsValue(run[..k] + next) == DigitsValue(run) + 1
  {
    var a := run[..k];
    ZeroPrefix(run, k, next);
    DigitsValueAppend(a, next);
  }

  /** The digits cut off in front of a successor of the same width are all zero. */
  lemma ZeroPrefix(run: string, k: nat, next: string)
    requires AllDigits(run) && AllDigits(next)
    requires DigitsValue(next) == DigitsValue(run) + 1
    requires 0 < k && k + |next| == |run|
    ensures AllDigits(run[..k]) && DigitsValue(run[..k]) == 0
  {
    SplitValue(run, k);
    DigitsValueBound(next);
    assert |next| == |run| - k;
    ZeroBelowUnit(DigitsValue(run[..k]), Pow10(|run| - k), DigitsValue(run[k..]), DigitsValue(run), DigitsValue(next));
  }

  lemma SplitValue(run: string, k: nat)
    requires AllDigits(run) && k <= |run|
    ensures AllDigits(run[..k]) && AllDigits(run[k..])
    ensures DigitsValue(run) == DigitsValue(run[..k]) * Pow10(|run| - k) + DigitsValue(run[k..])
  {
    assert run == run[..k] + run[k..];
    DigitsValueAppend(run[..k], run[k..]);
  }

  lemma ZeroBelowUnit(x: nat, p: nat, y: nat, n: nat, m: nat)
    requires n == x * p + y && m == n + 1 && m < p
    ensures x == 0
  {
  }

  lemma IncrementedRunKeeps(run: string, k: nat)
    requires AllDigits(run)
    requires k == |run| - |NatToString(DigitsValue(run) + 1)| > 0
    ensures IncrementedRun(run) == run[..k] + NatToString(DigitsValue(run) + 1)
  {
  }

  lemma IncrementedRunWhole(run: string)
    requires AllDigits(run)
    requires |run| <= |NatToString(DigitsValue(run) + 1)|
    ensures IncrementedRun(run) == NatToString(DigitsValue(run) + 1)
  {
  }

  lemma PrefixThrough(s: string, st: nat, k: nat, en: nat)
    requires st + k <= en <= |s|
    ensures s[..st + k] == s[..st] + s[st..en][..k]
  {
    assert |s[..st] + s[st..en][..k]| == st + k;
    forall i | 0 <= i < st + k ensures s[..st + k][i] == (s[..st] + s[st..en][..k])[i] {
      if i >= st {
        assert s[st..en][..k][i - st] == s[i];
      }
    }
  }

  /** The splice of `_increment_string`, on any run of digits. */
  lemma SpliceRun(s: string, st: nat, en: nat)
    requires st < en <= |s| && AllDigits(s[st..en])
    ensures Splice(s, st, en) == s[..st] + IncrementedRun(s[st..en]) + s[en..]
  {
    var next := NatToString(DigitsValue(s[st..en]) + 1);
    if |next| < en - st {
      SplicePadded(s, st, en, next);
    } else {
      IncrementedRunWhole(s[st..en]);
    }
  }

  lemma SplicePadded(s: string, st: nat, en: nat, next: string)
    requires st < en <= |s| && AllDigits(s[st..en])
    requires next == NatToString(DigitsValue(s[st..en]) + 1) && |next| < en - st
    ensures Splice(s, st, en) == s[..st] + IncrementedRun(s[st..en]) + s[en..]
  {
    var run := s[st..en];
    var k := |run| - |next|;
    IncrementedRunKeeps(run, k);
    PrefixThrough(s, st, k, en);
    assert Splice(s, st, en) == s[..st + k] + next + s[en..];
    SeqAssoc(s[..st], run[..k], next, s[en..]);
  }

  lemma SeqAssoc(a: string, b: string, c: string, d: string)
    ensures (a + b) + c + d == a + (b + c) + d
  {
  }

  /** `_increment_string` keeps the text around the last run and replaces the run by its increment. */
  lemma IncrementLastRun(s: string, st: nat, en: nat)
    requires LastDigitRun(s) == Some((st, en))
    ensures IncrementString(s) == s[..st] + IncrementedRun(s[st..en]) + s[en..]
  {
    SpliceRun(s, st, en);
  }

  /** A string without digits comes back unchanged. */
  lemma IncrementNoDigits(s: string)
    requires forall k | 0 <= k < |s| :: !IsDigit(s[k])
    ensures IncrementString(s) == s
  {
  }

  lemma {:induction false} Pow10Monotone(k: nat, m: nat)
    requires k <= m
    ensures Pow10(k) <= Pow10(m)
  {
    if k < m {
      Pow10Monotone(k, m - 1);
    }
  }

  /** A numeral never gets shorter when one is added. */
  lemma SuccessorNotShorter(n: nat)
    ensures |NatToString(n + 1)| >= |NatToString(n)|
  {
    var s, t := NatToString(n), NatToString(n + 1);
    DigitsValueBound(t);
    if |t| < |s| {
      LeadingDigitBound(s);
      Pow10Monotone(|t|, |s| - 1);
    }
  }

  /** Digits after a non-digit are the last run. */
  lemma DigitsAtEnd(p: string, d: string)
    requires |p| > 0 && !IsDigit(p[|p| - 1])
    requires |d| > 0 && AllDigits(d)
    ensures LastDigitRun(p + d) == Some((|p|, |p + d|)) && (p + d)[|p|..] == d
  {
    var s := p + d;
    assert s[|p|..] == d;
    assert IsDigit(s[|s| - 1]);
    RunStartAt(s, |p|, |s|);
  }

  lemma RunAtEnd(q: string, n: nat)
    ensures var s := q + "." + NatToString(n);
      LastDigitRun(s) == Some((|q| + 1, |s|)) && s[|q| + 1..] == NatToString(n)
  {
    DigitsAtEnd(q + ".", NatToString(n));
  }

  lemma {:induction false} RunStartAt(s: string, st: nat, en: nat)
    requires st <= en <= |s|
    requires AllDigits(s[st..en])
    requires st > 0 && !IsDigit(s[st - 1])
    ensures RunStart(s, en) == st
    decreases en - st
  {
    if en > st {
      assert IsDigit(s[st..en][en - 1 - st]);
      assert s[st..en - 1] == s[st..en][..en - 1 - st];
      RunStartAt(s, st, en - 1);
    }
  }

  /** A last identifier that is a numeral goes up by one: `q.N` becomes `q.(N+1)`. */
  lemma IncrementNumeralSuffix(q: string, n: nat)
    ensures IncrementString(q + "." + NatToString(n)) == q + "." + NatToString(n + 1)
  {
    var d := NatToString(n);
    var s := q + "." + d;
    var st, en := |q| + 1, |s|;
    RunAtEnd(q, n);
    IncrementLastRun(s, st, en);
    assert s[st..en] == d;
    SuccessorNotShorter(n);
    assert IncrementedRun(d) == NatToString(n + 1);
    assert s[..st] == q + ".";
    assert s[en..] == "";
  }

  /** The seed `token + ".0"` increments to `token + ".1"`, whatever the token. */
  lemma IncrementSeed(t: string)
    ensures IncrementString(t + ".0") == t + ".1"
  {
    IncrementNumeralSuffix(t, 0);
    ZeroAndOne();
    assert t + "." + NatToString(0) == t + ".0";
    assert t + "." + NatToString(1) == t + ".1";
  }

  // ---------------------------------------------------------------------
  // bump_major, bump_minor, bump_patch, bump_prerelease, bump_build
  // ---------------------------------------------------------------------

  /** `token or default`. */
  function TokenOr(token: Option<string>, default: string): string {
    if Truthy(token) then token.value else default
  }

  /** `cls(major=self._major + 1)`. */
  function BumpMajor(v: Version): (r: Version)
    ensures r == Version(v.major + 1, 0, 0, None, None)
  {
    var kw := map["major" := IntArg(v.major + 1)];
    PartNamesDistinct();
    ConstructGives(kw, Version(v.major + 1, 0, 0, None, None));
    Construct([], kw).value
  }

  /** `cls(major=self._major, minor=self._minor + 1)`. */
  function BumpMinor(v: Version): (r: Version)
    ensures r == Version(v.major, v.minor + 1, 0, None, None)
  {
    var kw := map["major" := IntArg(v.major), "minor" := IntArg(v.minor + 1)];
    PartNamesDistinct();
    ConstructGives(kw, Version(v.major, v.minor + 1, 0, None, None));
    Construct([], kw).value
  }

  /** `cls(major=self._major, minor=self._minor, patch=self._patch + 1)`. */
  function BumpPatch(v: Version): (r: Version)
    ensures r == Version(v.major, v.minor, v.patch + 1, None, None)
  {
    var kw := map["major" := IntArg(v.major), "minor" := IntArg(v.minor), "patch" := IntArg(v.patch + 1)];
    PartNamesDistinct();
    ConstructGives(kw, Version(v.major, v.minor, v.patch + 1, None, None));
    Construct([], kw).value
  }

  /** The pre-release `bump_prerelease` starts from: the current one, or `token.0`. */
  function PrereleaseSeed(v: Version, token: Option<string>): string {
    if Truthy(v.prerelease) then v.prerelease.value else TokenOr(token, "rc") + ".0"
  }

  /** `bump_prerelease(token)`: the triple kept, the pre-release incremented, the build dropped. */
  function BumpPrerelease(v: Version, token: Option<string>): (r: Version)
    ensures r.major == v.major && r.minor == v.minor && r.patch == v.patch
    ensures r.prerelease == Some(IncrementString(PrereleaseSeed(v, token)))
    ensures r.build == None
  {
    var pre := IncrementString(PrereleaseSeed(v, token));
    var kw := map[
      "major" := IntArg(v.major), "minor" := IntArg(v.minor), "patch" := IntArg(v.patch),
      "prerelease" := StrArg(pre)];
    PartNamesDistinct();
    ConstructGives(kw, Version(v.major, v.minor, v.patch, Some(pre), None));
    Construct([], kw).value
  }

  /** The build `bump_build` starts from: the current one, or `token.0`. */
  function BuildSeed(v: Version, token: Option<string>): string {
    if Truthy(v.build) then v.build.value else TokenOr(token, "build") + ".0"
  }

  /** `bump_build(token)`: major to pre-release kept, the build incremented. */
  function BumpBuild(v: Version, token: Option<string>): (r: Version)
    ensures r.major == v.major && r.minor == v.minor && r.patch == v.patch
    ensures r.prerelease == v.prerelease
    ensures r.build == Some(IncrementString(BuildSeed(v, token)))
  {
    var b := IncrementString(BuildSeed(v, token));
    var kw := map[
      "major" := IntArg(v.major), "minor" := IntArg(v.minor), "patch" := IntArg(v.patch),
      "prerelease" := OptArg(v.prerelease), "build" := StrArg(b)];
    PartNamesDistinct();
    ConstructGives(kw, Version(v.major, v.minor, v.patch, v.prerelease, Some(b)));
    Construct([], kw).value
  }

  /** Bumping a number always moves up in precedence. */
  lemma BumpsGoUp(v: Version)
    ensures Compare(BumpMajor(v), v) == 1
    ensures Compare(BumpMinor(v), v) == 1
    ensures Compare(BumpPatch(v), v) == 1
  {
  }

  /** Without a pre-release, `bump_prerelease` seeds `token.0` and gives `token.1` (`rc.1` by default). */
  lemma BumpPrereleaseSeeds(v: Version, token: Option<string>)
    requires !Truthy(v.prerelease)
    ensures BumpPrerelease(v, token).prerelease == Some(TokenOr(token, "rc") + ".1")
  {
    IncrementSeed(TokenOr(token, "rc"));
  }

  /**
   * On a release, `bump_prerelease` moves DOWN in precedence: the result is a
   * pre-release of the same triple.
   */
  lemma BumpPrereleaseOfRelease(v: Version, token: Option<string>)
    requires !Truthy(v.prerelease)
    ensures Compare(BumpPrerelease(v, token), v) == -1
  {
    var r := BumpPrerelease(v, token);
    BumpPrereleaseSeeds(v, token);
    assert Truthy(r.prerelease) by {
      assert |TokenOr(token, "rc") + ".1"| > 0;
    }
    ReleaseAbovePrerelease(v, r);
  }

  lemma {:induction false} ZipCmpSameThenLast(ps: seq<string>, a: string, b: string)
    ensures ZipCmp(Idents(ps + [a]), Idents(ps + [b])) == IdentCmp(ToIdent(a), ToIdent(b))
  {
    if |ps| > 0 {
      var x := ToIdent(ps[0]);
      if x.Txt? {
        assert LexCmp(x.t, x.t) == 0;
      }
      assert (ps + [a])[1..] == ps[1..] + [a];
      assert (ps + [b])[1..] == ps[1..] + [b];
      assert Idents(ps + [a])[1..] == Idents(ps[1..] + [a]);
      assert Idents(ps + [b])[1..] == Idents(ps[1..] + [b]);
      ZipCmpSameThenLast(ps[1..], a, b);
    }
  }

  lemma SplitAppend(q: string, d: string)
    requires '.' !in d
    ensures Split(q + "." + d) == Split(q) + [d]
  {
    var ps := Split(q) + [d];
    JoinConcat(Split(q), [d]);
    assert forall i | 0 <= i < |ps| :: '.' !in ps[i] by {
      forall i | 0 <= i < |ps| ensures '.' !in ps[i] {
        if i < |Split(q)| {
          assert ps[i] == Split(q)[i];
        }
      }
    }
    SplitJoin(ps);
  }

  /** A pre-release ending in a number moves up: `q.N` becomes `q.(N+1)`, which ranks above it. */
  lemma BumpPrereleaseNumbered(v: Version, token: Option<string>, q: string, n: nat)
    requires v.prerelease == Some(q + "." + NatToString(n))
    ensures BumpPrerelease(v, token).prerelease == Some(q + "." + NatToString(n + 1))
    ensures Compare(v, BumpPrerelease(v, token)) == -1
  {
    var p, p' := q + "." + NatToString(n), q + "." + NatToString(n + 1);
    IncrementNumeralSuffix(q, n);
    var w := BumpPrerelease(v, token);
    assert |p| > 0 && |p'| > 0;
    NumberedSuffixBelow(q, n);
    SameTriple(v, w);
  }

  /** `q.N` is below `q.(N+1)` under `_nat_cmp`. */
  lemma NumberedSuffixBelow(q: string, n: nat)
    ensures NatCmp(q + "." + NatToString(n), q + "." + NatToString(n + 1)) == -1
  {
    NumeralHasNoDot(n);
    NumeralHasNoDot(n + 1);
    SplitAppend(q, NatToString(n));
    SplitAppend(q, NatToString(n + 1));
    ZipCmpSameThenLast(Split(q), NatToString(n), NatToString(n + 1));
  }

  /** `bump_build` never changes precedence. */
  lemma BumpBuildKeepsPrecedence(v: Version, token: Option<string>)
    ensures Compare(BumpBuild(v, token), v) == 0
  {
    CompareIgnoresBuild(v, v, BumpBuild(v, token).build);
    assert BumpBuild(v, token) == v.(build := BumpBuild(v, token).build);
    NatCmpSelf(OrEmpty(v.prerelease));
  }

  lemma NatCmpSelf(a: string)
    ensures NatCmp(a, a) == 0
  {
    NatCmpAntisymmetric(a, a);
  }

  /** Without a build, `bump_build` seeds `token.0` and gives `token.1` (`build.1` by default). */
  lemma BumpBuildSeeds(v: Version, token: Option<string>)
    requires !Truthy(v.build)
    ensures BumpBuild(v, token).build == Some(TokenOr(token, "build") + ".1")
  {
    IncrementSeed(TokenOr(token, "build"));
  }

  // ---------------------------------------------------------------------
  // replace, finalize_version, next_version
  // ---------------------------------------------------------------------

  /**
   * `replace(**parts)`: `to_dict()` updated with `parts`, passed back to the
   * constructor; its TypeError is replaced by one naming the unknown keys.
   */
  function Replace(v: Version, parts: map<string, Arg>): (r: Result<Version, Error>)
    ensures !(parts.Keys <= PartSet) ==> r == Failure(UnknownKeywords(parts.Keys - PartSet))
  {
    match Construct([], ToDict(v) + parts)
    case Success(w) => Success(w)
    case Failure(e) =>
      if e.IsValueError() then Failure(e) else Failure(UnknownKeywords(parts.Keys - PartSet))
  }

  lemma ToDictKeys(v: Version)
    ensures ToDict(v).Keys == PartSet
  {
    PartNamesDistinct();
    var d := ToDict(v);
    forall k | k in PartSet ensures k in d {
      LookupPositional(ToTuple(v), 0, NoneArg);
      LookupPositional(ToTuple(v), 1, NoneArg);
      LookupPositional(ToTuple(v), 2, NoneArg);
      LookupPositional(ToTuple(v), 3, IntArg(0));
      LookupPositional(ToTuple(v), 4, IntArg(0));
    }
  }

  /** The value step (5) of `Version(**version)` sees for part `i` once `version.update(parts)` ran. */
  function Replaced(v: Version, parts: map<string, Arg>, i: nat): Arg
    requires i < 5
  {
    if PartNames[i] in parts then
      (if parts[PartNames[i]] != NoneArg then parts[PartNames[i]] else PartDefaults[i])
    else ToTuple(v)[i]
  }

  lemma LookupReplaced(v: Version, parts: map<string, Arg>, i: nat)
    requires i < 5
    ensures Lookup(Given(ToDict(v) + parts), PartNames[i], PartDefaults[i]) == Replaced(v, parts, i)
  {
    LookupGiven(ToDict(v) + parts, PartNames[i], PartDefaults[i]);
    LookupUpdate(ToDict(v), parts, PartNames[i], NoneArg);
    LookupPositional(ToTuple(v), i, NoneArg);
  }

  /** `replace` is the constructor on the updated dictionary, which has only known keys when `parts` has. */
  lemma ReplaceConstructs(v: Version, parts: map<string, Arg>)
    requires parts.Keys <= PartSet
    ensures Construct([], ToDict(v) + parts) == FromDict(Given(ToDict(v) + parts))
    ensures Replace(v, parts) == Construct([], ToDict(v) + parts)
  {
    ToDictKeys(v);
    ConstructKeywordsOnly(ToDict(v) + parts);
    if FromDict(Given(ToDict(v) + parts)).Failure? {
      FromGivenRaisesValueError(ToDict(v) + parts);
    }
  }

  /**
   * What `replace` does to each part: a part not named keeps its value; a
   * named part takes the converted value, or its default when the value is
   * None (so `replace(major=None)` gives major 0 and `replace(build=None)`
   * drops the build).
   */
  lemma ReplaceFields(v: Version, parts: map<string, Arg>, i: nat)
    requires i < 5 && Replace(v, parts).Success?
    ensures parts.Keys <= PartSet
    ensures var w := Replace(v, parts).value;
      && (PartNames[i] !in parts ==> ToTuple(w)[i] == ToTuple(v)[i])
      && (PartNames[i] in parts && parts[PartNames[i]] == NoneArg ==> ToTuple(w)[i] == PartDefaults[i])
      && (PartNames[i] in parts && parts[PartNames[i]] != NoneArg ==>
            Convert(i, parts[PartNames[i]]) == Success(ToTuple(w)[i]))
  {
    ReplaceConstructs(v, parts);
    var w := Replace(v, parts).value;
    ReplacedConverts(v, parts, i, w);
    ReplacedMeaning(v, parts, i, ToTuple(w)[i]);
  }

  /** What converting the value `Replaced` picks can give, case by case. */
  lemma ReplacedMeaning(v: Version, parts: map<string, Arg>, i: nat, x: Arg)
    requires i < 5 && Convert(i, Replaced(v, parts, i)) == Success(x)
    ensures PartNames[i] !in parts ==> x == ToTuple(v)[i]
    ensures PartNames[i] in parts && parts[PartNames[i]] == NoneArg ==> x == PartDefaults[i]
    ensures PartNames[i] in parts && parts[PartNames[i]] != NoneArg ==> Convert(i, parts[PartNames[i]]) == Success(x)
  {
    ConvertKeeps(i, ToTuple(v)[i]);
    ConvertKeeps(i, PartDefaults[i]);
  }

  lemma ReplacedConverts(v: Version, parts: map<string, Arg>, i: nat, w: Version)
    requires i < 5 && parts.Keys <= PartSet
    requires FromDict(Given(ToDict(v) + parts)) == Success(w)
    ensures Convert(i, Replaced(v, parts, i)) == Success(ToTuple(w)[i])
  {
    FromDictFields(Given(ToDict(v) + parts));
    LookupReplaced(v, parts, i);
  }

  /** Converting a part that is already of its part's type changes nothing. */
  lemma ConvertKeeps(i: nat, a: Arg)
    requires i < 5
    requires i < 3 ==> a.IntArg? && a.i >= 0
    requires i >= 3 ==> !a.IntArg?
    ensures Convert(i, a) == Success(a)
  {
  }

  /** `replace()` with nothing to replace gives the version back. */
  lemma ReplaceNothing(v: Version)
    ensures Replace(v, map[]) == Success(v)
  {
    assert ToDict(v) + map[] == ToDict(v);
    ConstructFromDict(v);
  }

  /** `replace(**w.to_dict())` gives `w`, whatever the receiver. */
  lemma ReplaceAll(v: Version, w: Version)
    ensures Replace(v, ToDict(w)) == Success(w)
  {
    ToDictKeys(v);
    ToDictKeys(w);
    assert ToDict(v) + ToDict(w) == ToDict(w);
    ConstructFromDict(w);
  }

  /** `finalize_version`: `cls(major=self.major, minor=self.minor, patch=self.patch)`. */
  function Finalize(v: Version): (r: Version)
    ensures r == Version(v.major, v.minor, v.patch, None, None)
  {
    var kw := map["major" := IntArg(v.major), "minor" := IntArg(v.minor), "patch" := IntArg(v.patch)];
    PartNamesDistinct();
    ConstructGives(kw, Version(v.major, v.minor, v.patch, None, None));
    Construct([], kw).value
  }

  /** A finalized version is the release of the same triple: at or above the version, and final. */
  lemma FinalizeProperties(v: Version)
    ensures Finalize(Finalize(v)) == Finalize(v)
    ensures Truthy(v.prerelease) ==> Compare(Finalize(v), v) == 1
    ensures !Truthy(v.prerelease) ==> Compare(Finalize(v), v) == 0
    ensures ToString(Finalize(v)) == NatToString(v.major) + "." + NatToString(v.minor) + "." + NatToString(v.patch)
  {
    if Truthy(v.prerelease) {
      ReleaseAbovePrerelease(Finalize(v), v);
    } else {
      assert OrEmpty(v.prerelease) == "";
    }
  }

  const NextParts: set<string> := {"major", "minor", "patch", "prerelease"}

  /** The condition under which `next_version` only drops the pre-release and build. */
  predicate Drops(v: Version, part: string) {
    && (Truthy(v.prerelease) || Truthy(v.build))
    && (|| part == "patch"
        || (part == "minor" && v.patch == 0)
        || (part == "major" && v.minor == v.patch && v.patch == 0))
  }

  /** `next_version(part, prerelease_token)`. */
  function NextVersion(v: Version, part: string, token: Option<string>): (r: Result<Version, Error>)
    ensures part !in NextParts ==> r == Failure(InvalidPart(part))
    ensures part in NextParts ==> r.Success?
  {
    if part !in NextParts then
      Failure(InvalidPart(part))
    else if Drops(v, part) then
      ReplaceDrops(v);
      Replace(v, map["prerelease" := NoneArg, "build" := NoneArg])
    else if part == "major" then
      Success(BumpMajor(v))
    else if part == "minor" then
      Success(BumpMinor(v))
    else if part == "patch" then
      Success(BumpPatch(v))
    else
      var w := if !Truthy(v.prerelease) then BumpPatch(v) else v;
      Success(BumpPrerelease(w, token))
  }

  /** `replace(prerelease=None, build=None)` keeps exactly the triple. */
  lemma ReplaceDrops(v: Version)
    ensures Replace(v, map["prerelease" := NoneArg, "build" := NoneArg]) == Success(Finalize(v))
  {
    var parts := map["prerelease" := NoneArg, "build" := NoneArg];
    ToDictKeys(v);
    forall i | 0 <= i < 5
      ensures Convert(i, Lookup(Given(ToDict(v) + parts), PartNames[i], PartDefaults[i])) == Success(ToTuple(Finalize(v))[i])
    {
      DropsField(v, i);
    }
    ReplaceConstructs(v, parts);
    ConstructGives(ToDict(v) + parts, Finalize(v));
  }

  lemma DropsField(v: Version, i: nat)
    requires i < 5
    ensures var parts := map["prerelease" := NoneArg, "build" := NoneArg];
      Convert(i, Lookup(Given(ToDict(v) + parts), PartNames[i], PartDefaults[i])) == Success(ToTuple(Finalize(v))[i])
  {
    var parts := map["prerelease" := NoneArg, "build" := NoneArg];
    PartNamesDistinct();
    LookupReplaced(v, parts, i);
    ConvertKeeps(i, Replaced(v, parts, i));
  }

  /** At a pre-release or build, the next patch (or minor, major at zero) is the release being prepared. */
  lemma NextVersionDrops(v: Version, part: string, token: Option<string>)
    requires part in NextParts && Drops(v, part)
    ensures NextVersion(v, part, token) == Success(Version(v.major, v.minor, v.patch, None, None))
  {
    ReplaceDrops(v);
  }

  /** `next_version` never goes down, and goes up unless only a build is dropped. */
  lemma NextVersionGoesUp(v: Version, part: string, token: Option<string>)
    requires part in {"major", "minor", "patch"}
    ensures Compare(NextVersion(v, part, token).value, v) >= 0
    ensures Truthy(v.prerelease) || !Truthy(v.build) ==> Compare(NextVersion(v, part, token).value, v) == 1
  {
    if Drops(v, part) {
      NextVersionDrops(v, part, token);
      FinalizeProperties(v);
    }
  }

  /**
   * With only build metadata, the next patch version is the same version
   * without it, which compares equal to the original.
   */
  lemma NextPatchOfBuildOnly(v: Version, token: Option<string>)
    requires !Truthy(v.prerelease) && Truthy(v.build)
    ensures NextVersion(v, "patch", token) == Success(v.(prerelease := None, build := None))
    ensures Compare(NextVersion(v, "patch", token).value, v) == 0
  {
    NextVersionDrops(v, "patch", token);
    FinalizeProperties(v);
  }

  /**
   * `next_version("prerelease")` on a release first bumps the patch, so the
   * result `major.minor.(patch+1)-token.1` ranks above the original.
   */
  lemma NextPrereleaseOfRelease(v: Version, token: Option<string>)
    requires !Truthy(v.prerelease)
    ensures NextVersion(v, "prerelease", token)
            == Success(Version(v.major, v.minor, v.patch + 1, Some(TokenOr(token, "rc") + ".1"), None))
    ensures Compare(NextVersion(v, "prerelease", token).value, v) == 1
  {
    BumpPrereleaseSeeds(BumpPatch(v), token);
  }

  /** For major, minor and patch, outside the drop case `next_version` is the matching `bump_*`. */
  lemma NextVersionBumps(v: Version, token: Option<string>)
    ensures !Drops(v, "major") ==> NextVersion(v, "major", token) == Success(BumpMajor(v))
    ensures !Drops(v, "minor") ==> NextVersion(v, "minor", token) == Success(BumpMinor(v))
    ensures !Drops(v, "patch") ==> NextVersion(v, "patch", token) == Success(BumpPatch(v))
  {
  }

  /** On a pre-release, `next_version("prerelease")` is `bump_prerelease`: the triple stays. */
  lemma NextPrereleaseOfPrerelease(v: Version, token: Option<string>)
    requires Truthy(v.prerelease)
    ensures NextVersion(v, "prerelease", token) == Success(BumpPrerelease(v, token))
    ensures NextVersion(v, "prerelease", token).value.prerelease == Some(IncrementString(v.prerelease.value))
  {
    assert !Drops(v, "prerelease");
  }

  /**
   * A pre-release without a digit has no number to raise, so
   * `next_version("prerelease")` gives the same version minus its build.
   */
  lemma NextPrereleaseWithoutDigits(v: Version, token: Option<string>)
    requires Truthy(v.prerelease)
    requires forall k | 0 <= k < |v.prerelease.value| :: !IsDigit(v.prerelease.value[k])
    ensures NextVersion(v, "prerelease", token) == Success(v.(build := None))
    ensures Compare(NextVersion(v, "prerelease", token).value, v) == 0
  {
    NextPrereleaseOfPrerelease(v, token);
    IncrementNoDigits(v.prerelease.value);
    CompareIgnoresBuild(v, v, None);
    NatCmpSelf(v.prerelease.value);
  }
}
