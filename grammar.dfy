/**
 * The grammar of `Version._REGEX` (Semantic Versioning 2.0.0, sections 2, 9
 * and 10) written out as predicates over characters, the declarative language
 * it denotes, and a deterministic matcher proved to accept exactly that
 * language and to return its one decomposition into groups.
 */
module Grammar {
  import opened Wrappers
  import opened Text

  /** `[0-9a-zA-Z-]` */
  predicate IsIdentChar(c: char) {
    IsDigit(c) || 'a' <= c <= 'z' || 'A' <= c <= 'Z' || c == '-'
  }

  /** `[0-9a-zA-Z-]+`: a build identifier. */
  predicate IsAlphanumIdent(s: string) {
    |s| > 0 && forall i | 0 <= i < |s| :: IsIdentChar(s[i])
  }

  /** `0|[1-9]\d*|\d*[a-zA-Z-][0-9a-zA-Z-]*`: a pre-release identifier. */
  predicate IsPrereleaseIdent(s: string) {
    IsNumeral(s) || (IsAlphanumIdent(s) && !AllDigits(s))
  }

  /** `ident(\.ident)*` for pre-release identifiers. */
  predicate IsPrerelease(s: string) {
    var parts := Split(s);
    forall i | 0 <= i < |parts| :: IsPrereleaseIdent(parts[i])
  }

  /** `[0-9a-zA-Z-]+(\.[0-9a-zA-Z-]+)*` */
  predicate IsBuild(s: string) {
    var parts := Split(s);
    forall i | 0 <= i < |parts| :: IsAlphanumIdent(parts[i])
  }

  /** The named groups of a match; an absent optional group is None. */
  datatype Groups = Groups(
    major: string,
    minor: string,
    patch: string,
    prerelease: Option<string>,
    build: Option<string>)

  predicate ValidGroups(g: Groups) {
    && IsNumeral(g.major) && IsNumeral(g.minor) && IsNumeral(g.patch)
    && (g.prerelease.Some? ==> IsPrerelease(g.prerelease.value))
    && (g.build.Some? ==> IsBuild(g.build.value))
  }

  function Tail(prerelease: Option<string>, build: Option<string>): string {
    (if prerelease.Some? then "-" + prerelease.value else "")
    + (if build.Some? then "+" + build.value else "")
  }

  /** `major.minor.patch[-prerelease][+build]` from its groups. */
  function Assemble(g: Groups): string {
    g.major + "." + g.minor + "." + g.patch + Tail(g.prerelease, g.build)
  }

  /** The language of the anchored regex: every string the groups can spell. */
  ghost predicate InLanguage(s: string) {
    exists g :: ValidGroups(g) && Assemble(g) == s
  }

  // ---------------------------------------------------------------------
  // The matcher
  // ---------------------------------------------------------------------

  /** The first position of `c` in `s`, or `|s|` when there is none. */
  function IndexOf(s: string, c: char): (i: nat)
    ensures i <= |s|
    ensures forall k | 0 <= k < i :: s[k] != c
    ensures i < |s| ==> s[i] == c
  {
    if |s| == 0 || s[0] == c then 0 else 1 + IndexOf(s[1..], c)
  }

  /** The length of the longest digit prefix of `s`. */
  function DigitPrefixLen(s: string): (i: nat)
    ensures i <= |s|
    ensures AllDigits(s[..i])
    ensures i < |s| ==> !IsDigit(s[i])
  {
    if |s| == 0 || !IsDigit(s[0]) then 0
    else
      var i := 1 + DigitPrefixLen(s[1..]);
      assert s[..i] == [s[0]] + s[1..][..i - 1];
      i
  }

  /** Matches `(?:-(prerelease))?(?:\+(build))?` against the whole of `t`. */
  function MatchTail(t: string): (r: Option<(Option<string>, Option<string>)>)
    ensures r.Some? ==> Tail(r.value.0, r.value.1) == t
    ensures r.Some? ==> r.value.0.Some? ==> IsPrerelease(r.value.0.value)
    ensures r.Some? ==> r.value.1.Some? ==> IsBuild(r.value.1.value)
  {
    if |t| == 0 then
      Some((None, None))
    else if t[0] == '-' then
      var x := t[1..];
      var b := IndexOf(x, '+');
      var pre := x[..b];
      if !IsPrerelease(pre) then None
      else if b == |x| then
        assert t == "-" + pre;
        Some((Some(pre), None))
      else
        var build := x[b + 1..];
        if IsBuild(build) then
          assert t == "-" + pre + "+" + build;
          Some((Some(pre), Some(build)))
        else
          None
    else if t[0] == '+' then
      var build := t[1..];
      if IsBuild(build) then
        assert t == "+" + build;
        Some((None, Some(build)))
      else
        None
    else
      None
  }

  /** The groups, once the three numbers have been cut off: checks them and matches the rest. */
  function MatchGroups(major: string, minor: string, patch: string, rest: string): (r: Option<Groups>)
    ensures r.Some? ==> ValidGroups(r.value) && Assemble(r.value) == major + "." + minor + "." + patch + rest
  {
    if !(IsNumeral(major) && IsNumeral(minor) && IsNumeral(patch)) then None
    else
      match MatchTail(rest)
      case None => None
      case Some((pre, build)) => Some(Groups(major, minor, patch, pre, build))
  }

  /**
   * Where the matcher cuts `s`: before the first dot, before the second,
   * and after the digits that follow it.
   */
  function Cuts(s: string): (r: Option<(string, string, string, string)>)
    ensures r.Some? ==> s == r.value.0 + "." + r.value.1 + "." + r.value.2 + r.value.3
  {
    var i := IndexOf(s, '.');
    if i == |s| then None
    else
      var r1 := s[i + 1..];
      var j := IndexOf(r1, '.');
      if j == |r1| then None
      else
        var r2 := r1[j + 1..];
        var k := DigitPrefixLen(r2);
        CutsAssemble(s, i, j, k);
        Some((s[..i], r1[..j], r2[..k], r2[k..]))
  }

  /**
   * `_REGEX.match(s)` (as intended: anchored at both ends): the groups of `s`,
   * or None when `s` is not in the language.
   */
  function MatchVersion(s: string): (r: Option<Groups>)
    ensures r.Some? ==> ValidGroups(r.value) && Assemble(r.value) == s
  {
    match Cuts(s)
    case None => None
    case Some((major, minor, patch, rest)) => MatchGroups(major, minor, patch, rest)
  }

  lemma CutsAssemble(s: string, i: nat, j: nat, k: nat)
    requires i < |s| && s[i] == '.'
    requires j < |s[i + 1..]| && s[i + 1..][j] == '.'
    requires k <= |s[i + 1..][j + 1..]|
    ensures var r1 := s[i + 1..]; var r2 := r1[j + 1..];
      s == s[..i] + "." + r1[..j] + "." + r2[..k] + r2[k..]
  {
    var r1 := s[i + 1..];
    var r2 := r1[j + 1..];
    assert r2 == r2[..k] + r2[k..];
    assert r1 == r1[..j] + "." + r2;
    assert s == s[..i] + "." + r1;
  }

  /**
   * `_REGEX.match(s)` AS WRITTEN: Python's `$` matches at the end of the
   * string and also just before a newline that ends it, so a version string
   * followed by one "\n" is accepted too, with the same groups.
   */
  function MatchVersionAsWritten(s: string): Option<Groups> {
    if MatchVersion(s).Some? then MatchVersion(s)
    else if |s| > 0 && s[|s| - 1] == '\n' then MatchVersion(s[..|s| - 1])
    else None
  }

  // ---------------------------------------------------------------------
  // Completeness: the matcher finds the decomposition of every word
  // ---------------------------------------------------------------------

  lemma {:induction false} IndexOfAppend(a: string, b: string, c: char)
    requires forall k | 0 <= k < |a| :: a[k] != c
    ensures IndexOf(a + b, c) == |a| + IndexOf(b, c)
  {
    if |a| > 0 {
      assert (a + b)[1..] == a[1..] + b;
      IndexOfAppend(a[1..], b, c);
    } else {
      assert a + b == b;
    }
  }

  lemma {:induction false} DigitPrefixAppend(a: string, b: string)
    requires AllDigits(a)
    ensures DigitPrefixLen(a + b) == |a| + DigitPrefixLen(b)
  {
    if |a| > 0 {
      assert (a + b)[1..] == a[1..] + b;
      DigitPrefixAppend(a[1..], b);
    } else {
      assert a + b == b;
    }
  }

  /** Every character of a join of identifiers is an identifier character or a dot. */
  lemma {:induction false} JoinChars(parts: seq<string>)
    requires |parts| >= 1
    requires forall i | 0 <= i < |parts| :: forall k | 0 <= k < |parts[i]| :: IsIdentChar(parts[i][k])
    ensures forall k | 0 <= k < |Join(parts)| :: Join(parts)[k] == '.' || IsIdentChar(Join(parts)[k])
  {
    if |parts| > 1 {
      JoinChars(parts[1..]);
      var s := Join(parts);
      assert s == parts[0] + "." + Join(parts[1..]);
      forall k | 0 <= k < |s| ensures s[k] == '.' || IsIdentChar(s[k]) {
        if k < |parts[0]| {
          assert s[k] == parts[0][k];
        } else if k > |parts[0]| {
          assert s[k] == Join(parts[1..])[k - |parts[0]| - 1];
        }
      }
    }
  }

  lemma NoPlusInPrerelease(p: string)
    requires IsPrerelease(p)
    ensures forall k | 0 <= k < |p| :: p[k] != '+'
  {
    var parts := Split(p);
    forall i | 0 <= i < |parts|
      ensures forall k | 0 <= k < |parts[i]| :: IsIdentChar(parts[i][k])
    {
      assert IsPrereleaseIdent(parts[i]);
    }
    JoinChars(parts);
  }

  lemma MatchTailComplete(pre: Option<string>, build: Option<string>)
    requires pre.Some? ==> IsPrerelease(pre.value)
    requires build.Some? ==> IsBuild(build.value)
    ensures MatchTail(Tail(pre, build)) == Some((pre, build))
  {
    match pre
    case None =>
      if build.Some? {
        BuildTail(build.value);
      }
    case Some(p) =>
      NoPlusInPrerelease(p);
      if build.Some? {
        FullTail(p, build.value);
      } else {
        PrereleaseTail(p);
      }
  }

  lemma BuildTail(b: string)
    requires IsBuild(b)
    ensures MatchTail("+" + b) == Some((None, Some(b)))
  {
    assert ("+" + b)[1..] == b;
  }

  lemma PrereleaseTail(p: string)
    requires IsPrerelease(p) && '+' !in p
    ensures MatchTail("-" + p) == Some((Some(p), None))
  {
    var x := ("-" + p)[1..];
    assert x == p + "";
    IndexOfAppend(p, "", '+');
    assert x[..|p|] == p;
  }

  lemma FullTail(p: string, b: string)
    requires IsPrerelease(p) && '+' !in p && IsBuild(b)
    ensures MatchTail("-" + p + "+" + b) == Some((Some(p), Some(b)))
  {
    var x := ("-" + p + "+" + b)[1..];
    assert x == p + ("+" + b);
    IndexOfAppend(p, "+" + b, '+');
    assert x[..|p|] == p;
    assert x[|p| + 1..] == b;
  }

  /** Cutting `a + [c] + b` at its first `c` gives back `a` and `b`. */
  lemma CutAtFirst(a: string, b: string, c: char)
    requires forall k | 0 <= k < |a| :: a[k] != c
    ensures var s := a + [c] + b; IndexOf(s, c) == |a| && s[..|a|] == a && s[|a| + 1..] == b
  {
    var s := a + [c] + b;
    assert s == a + ([c] + b);
    IndexOfAppend(a, [c] + b, c);
  }

  lemma FirstCut(a: string, r: string)
    requires AllDigits(a)
    ensures var s := a + "." + r; IndexOf(s, '.') == |a| && s[..|a|] == a && s[|a| + 1..] == r
  {
    CutAtFirst(a, r, '.');
  }

  /** The matcher cuts at the first two dots and after the digits that follow. */
  lemma MatchVersionCuts(a: string, b: string, rest: string)
    requires AllDigits(a) && AllDigits(b)
    ensures var k := DigitPrefixLen(rest);
      Cuts(a + "." + b + "." + rest) == Some((a, b, rest[..k], rest[k..]))
  {
    FirstCut(a, b + "." + rest);
    assert a + "." + b + "." + rest == a + "." + (b + "." + rest);
    CutAtFirst(b, rest, '.');
  }

  /** The digits of the patch end where the tail begins. */
  lemma PatchCut(patch: string, tail: string)
    requires AllDigits(patch)
    requires |tail| > 0 ==> tail[0] == '-' || tail[0] == '+'
    ensures var k := DigitPrefixLen(patch + tail);
      (patch + tail)[..k] == patch && (patch + tail)[k..] == tail
  {
    DigitPrefixAppend(patch, tail);
    assert DigitPrefixLen(tail) == 0;
  }

  /** The matcher returns the groups of every word of the language (so they are unique). */
  lemma MatchVersionComplete(g: Groups)
    requires ValidGroups(g)
    ensures MatchVersion(Assemble(g)) == Some(g)
  {
    var tail := Tail(g.prerelease, g.build);
    assert |tail| > 0 ==> tail[0] == '-' || tail[0] == '+';
    PatchCut(g.patch, tail);
    MatchVersionCuts(g.major, g.minor, g.patch + tail);
    MatchTailComplete(g.prerelease, g.build);
    assert Assemble(g) == g.major + "." + g.minor + "." + (g.patch + tail);
  }

  /** The matcher accepts exactly the language of the regex. */
  lemma MatchVersionExact(s: string)
    ensures MatchVersion(s).Some? <==> InLanguage(s)
  {
    if InLanguage(s) {
      var g :| ValidGroups(g) && Assemble(g) == s;
      MatchVersionComplete(g);
    }
  }
}
