/**
 * The `Version` value of src/semver/version.py: its five parts, the
 * multi-form constructor `__init__` (with `_ensure_int` and `_enforce_str`),
 * `_parse`, `parse`, `isvalid`, `__str__`, `to_tuple` and `to_dict`.
 */
module Versions {
  import opened Wrappers
  import opened Text
  import opened Grammar

  /** An immutable version: three non-negative numbers and two optional strings. */
  datatype Version = Version(
    major: nat,
    minor: nat,
    patch: nat,
    prerelease: Option<string>,
    build: Option<string>)

  /** A Python value handed to the constructor as a version part. */
  datatype Arg = IntArg(i: int) | StrArg(s: string) | NoneArg

  /** The exceptions the core raises, one constructor per distinct cause. */
  datatype Error =
    | InvalidFormat(text: string)          // ValueError: not a valid SemVer string
    | TooManyArguments                     // ValueError: more than 5 positional values
    | StringWithArguments                  // ValueError: a dotted first value and more values
    | InvalidType(position: nat)           // TypeError: None as major, minor or patch
    | NotAnInteger(text: string)           // ValueError: `int()` refused the text
    | Negative(value: int)                 // ValueError: a negative major, minor or patch
    | NoneNotInteger                       // TypeError: `int(None)`
    | UnknownKeywords(keys: set<string>)   // TypeError: keyword other than the five parts
    | InvalidPart(part: string)            // ValueError from `next_version`
    | InvalidMatchExpression(expr: string) // ValueError from `match`
    | NotAVersionString(text: string)      // ValueError from `compare`: no dot in the text
  {
    /** The causes Python raises as ValueError; the others are TypeError. */
    predicate IsValueError() {
      !(InvalidType? || NoneNotInteger? || UnknownKeywords?)
    }
  }

  /** `VERSIONPARTS`, in positional order. */
  const PartNames: seq<string> := ["major", "minor", "patch", "prerelease", "build"]
  const PartSet: set<string> := {"major", "minor", "patch", "prerelease", "build"}
  /** `VERSIONPARTDEFAULTS`: the value of a part nobody gave. */
  const PartDefaults: seq<Arg> := [IntArg(0), IntArg(0), IntArg(0), NoneArg, NoneArg]

  /** Python truthiness of an optional string: None and "" are both false. */
  predicate Truthy(o: Option<string>) {
    o.Some? && o.value != ""
  }

  predicate ArgTruthy(a: Arg) {
    match a
    case IntArg(i) => i != 0
    case StrArg(s) => s != ""
    case NoneArg => false
  }

  /** `str(a)`, which the dot test of `_raise_if_args_are_invalid` looks at. */
  function ArgText(a: Arg): string {
    match a
    case IntArg(i) => IntToString(i)
    case StrArg(s) => s
    case NoneArg => "None"
  }

  function OptArg(o: Option<string>): Arg {
    match o
    case Some(s) => StrArg(s)
    case None => NoneArg
  }

  // ---------------------------------------------------------------------
  // _ensure_int, _enforce_str, _raise_if_args_are_invalid
  // ---------------------------------------------------------------------

  /** `_ensure_int`: `int(value)`, refused when it fails or is negative. */
  function EnsureInt(a: Arg): (r: Result<nat, Error>)
    ensures r.Success? ==> (a == IntArg(r.value) || (a.StrArg? && PyInt(a.s) == Some(r.value as int)))
    ensures a.IntArg? && a.i >= 0 ==> r == Success(a.i)
    ensures a.IntArg? && a.i < 0 ==> r == Failure(Negative(a.i))
    ensures a.StrArg? && PyInt(a.s).Some? && PyInt(a.s).value >= 0 ==> r == Success(PyInt(a.s).value)
    ensures a.StrArg? && PyInt(a.s).Some? && PyInt(a.s).value < 0 ==> r == Failure(Negative(PyInt(a.s).value))
    ensures a.StrArg? && PyInt(a.s).None? ==> r == Failure(NotAnInteger(a.s))
    ensures a.NoneArg? ==> r == Failure(NoneNotInteger)
    ensures r.Failure? ==> (r.error.IsValueError() <==> !a.NoneArg?)
  {
    match a
    case IntArg(i) => if i < 0 then Failure(Negative(i)) else Success(i)
    case StrArg(s) =>
      (match PyInt(s)
       case None => Failure(NotAnInteger(s))
       case Some(i) => if i < 0 then Failure(Negative(i)) else Success(i))
    case NoneArg => Failure(NoneNotInteger)
  }

  /** `_enforce_str`: an int becomes its decimal text, a str stays, None stays None. */
  function EnforceStr(a: Arg): Option<string> {
    match a
    case IntArg(i) => Some(IntToString(i))
    case StrArg(s) => Some(s)
    case NoneArg => None
  }

  /** `ALLOWED_TYPES`: major, minor and patch (positions 0 to 2) may not be None. */
  function FirstBadType(args: seq<Arg>): (r: Option<nat>)
    ensures r.Some? ==> r.value < |args| && r.value < 3 && args[r.value] == NoneArg
    ensures r.Some? ==> forall k | 0 <= k < r.value :: args[k] != NoneArg
    ensures r.None? ==> forall k | 0 <= k < |args| && k < 3 :: args[k] != NoneArg
  {
    if |args| > 0 && args[0] == NoneArg then Some(0)
    else if |args| > 1 && args[1] == NoneArg then Some(1)
    else if |args| > 2 && args[2] == NoneArg then Some(2)
    else None
  }

  /** `_raise_if_args_are_invalid`. */
  function CheckArgs(args: seq<Arg>): Option<Error> {
    if |args| > 5 then Some(TooManyArguments)
    else if |args| > 1 && '.' in ArgText(args[0]) then Some(StringWithArguments)
    else
      match FirstBadType(args)
      case Some(i) => Some(InvalidType(i))
      case None => None
  }

  // ---------------------------------------------------------------------
  // The dictionaries __init__ merges
  // ---------------------------------------------------------------------

  /** `dict(zip(VERSIONPARTS, vals))`. */
  function PositionalParts(vals: seq<Arg>): map<string, Arg>
    requires |vals| <= 5
  {
    PartNamesDistinct();
    map i | 0 <= i < |vals| :: PartNames[i] := vals[i]
  }

  /** `match.groupdict()`: every part is a key, absent groups map to None. */
  function GroupDict(g: Groups): map<string, Arg> {
    PositionalParts(GroupValues(g))
  }

  /** The keyword arguments that are not None (`versiondict`). */
  function Given(kwargs: map<string, Arg>): map<string, Arg> {
    map k | k in kwargs && kwargs[k] != NoneArg :: kwargs[k]
  }

  /** `dict.get(key, default)`. */
  function Lookup(m: map<string, Arg>, key: string, default: Arg): Arg {
    if key in m then m[key] else default
  }

  /** `_parse`: the group dictionary of a version string, or ValueError. */
  function ParseGroups(s: string): Result<map<string, Arg>, Error> {
    match MatchVersion(s)
    case None => Failure(InvalidFormat(s))
    case Some(g) => Success(GroupDict(g))
  }

  /** Step (5) of `__init__`: each part from the merged dictionary, or its default. */
  function FromDict(d: map<string, Arg>): Result<Version, Error> {
    var major :- EnsureInt(Lookup(d, PartNames[0], PartDefaults[0]));
    var minor :- EnsureInt(Lookup(d, PartNames[1], PartDefaults[1]));
    var patch :- EnsureInt(Lookup(d, PartNames[2], PartDefaults[2]));
    Success(Version(
      major, minor, patch,
      EnforceStr(Lookup(d, PartNames[3], PartDefaults[3])),
      EnforceStr(Lookup(d, PartNames[4], PartDefaults[4]))))
  }

  /** The conversion step (5) applies to part `i`: `_ensure_int` for the numbers, `_enforce_str` for the rest. */
  function Convert(i: nat, a: Arg): Result<Arg, Error> {
    if i < 3 then
      var n :- EnsureInt(a);
      Success(IntArg(n))
    else
      Success(OptArg(EnforceStr(a)))
  }

  /**
   * `Version(*args, **kwargs)`. Python's call binding refuses an unknown
   * keyword first; then the positional checks run, the positional values
   * (or the groups of a single dotted string) are merged with the keyword
   * values that are not None, the later winning, and the parts are
   * converted in order major, minor, patch, prerelease, build.
   */
  function Construct(args: seq<Arg>, kwargs: map<string, Arg>): (r: Result<Version, Error>)
    ensures !(kwargs.Keys <= PartSet) ==> r == Failure(UnknownKeywords(kwargs.Keys - PartSet))
    ensures kwargs.Keys <= PartSet && |args| > 5 ==> r == Failure(TooManyArguments)
    ensures kwargs.Keys <= PartSet && 1 < |args| <= 5 && '.' in ArgText(args[0]) ==> r == Failure(StringWithArguments)
    ensures kwargs.Keys <= PartSet && |args| <= 5 && !(|args| > 1 && '.' in ArgText(args[0])) && FirstBadType(args).Some?
            ==> r == Failure(InvalidType(FirstBadType(args).value))
  {
    if !(kwargs.Keys <= PartSet) then
      Failure(UnknownKeywords(kwargs.Keys - PartSet))
    else if CheckArgs(args).Some? then
      Failure(CheckArgs(args).value)
    else
      var dictargs :-
        if |args| > 0 && ArgTruthy(args[0]) && '.' in ArgText(args[0])
        then ParseGroups(ArgText(args[0]))
        else Success(PositionalParts(args));
      FromDict(dictargs + Given(kwargs))
  }

  lemma PartNamesDistinct()
    ensures forall i, j | 0 <= i < j < |PartNames| :: PartNames[i] != PartNames[j]
  {
    assert PartNames[0][1] != PartNames[1][1];
    assert |PartNames[3]| != |PartNames[4]|;
  }

  /** Looking a part up in `dict(zip(VERSIONPARTS, vals))`. */
  lemma LookupPositional(vals: seq<Arg>, i: nat, default: Arg)
    requires |vals| <= 5 && i < 5
    ensures Lookup(PositionalParts(vals), PartNames[i], default) == if i < |vals| then vals[i] else default
  {
    PartNamesDistinct();
  }

  /** `{**a, **versiondict}`: a keyword value that is not None wins. */
  lemma LookupMerged(a: map<string, Arg>, kwargs: map<string, Arg>, key: string, default: Arg)
    ensures Lookup(a + Given(kwargs), key, default)
            == if key in kwargs && kwargs[key] != NoneArg then kwargs[key] else Lookup(a, key, default)
  {
  }

  /**
   * A keyword value that is not None decides its part, whatever the
   * positional values say (`Version(1, major=2)` has major 2).
   */
  lemma KeywordsOverride(args: seq<Arg>, kwargs: map<string, Arg>)
    requires Construct(args, kwargs).Success?
    ensures forall i | 0 <= i < 5 && PartNames[i] in kwargs && kwargs[PartNames[i]] != NoneArg ::
      Convert(i, kwargs[PartNames[i]]) == Success(ToTuple(Construct(args, kwargs).value)[i])
  {
    var dictargs :=
      if |args| > 0 && ArgTruthy(args[0]) && '.' in ArgText(args[0])
      then ParseGroups(ArgText(args[0])).value
      else PositionalParts(args);
    var merged := dictargs + Given(kwargs);
    assert Construct(args, kwargs) == FromDict(merged);
    FromDictFields(merged);
    forall i | 0 <= i < 5
      ensures Lookup(merged, PartNames[i], PartDefaults[i])
              == if PartNames[i] in kwargs && kwargs[PartNames[i]] != NoneArg then kwargs[PartNames[i]]
                 else Lookup(dictargs, PartNames[i], PartDefaults[i])
    {
      LookupMerged(dictargs, kwargs, PartNames[i], PartDefaults[i]);
    }
  }

  /** The keyword values that are not None, looked up. */
  lemma LookupGiven(kwargs: map<string, Arg>, key: string, default: Arg)
    ensures Lookup(Given(kwargs), key, default)
            == if Lookup(kwargs, key, NoneArg) != NoneArg then Lookup(kwargs, key, NoneArg) else default
  {
  }

  /** `dict.update`: a key of `parts` takes its value from there. */
  lemma LookupUpdate(a: map<string, Arg>, parts: map<string, Arg>, key: string, default: Arg)
    ensures Lookup(a + parts, key, default) == if key in parts then parts[key] else Lookup(a, key, default)
  {
  }

  /** Step (5) succeeds exactly when every part converts, and then gives the converted parts. */
  lemma FromDictFields(d: map<string, Arg>)
    ensures FromDict(d).Success?
            <==> forall i | 0 <= i < 3 :: Convert(i, Lookup(d, PartNames[i], PartDefaults[i])).Success?
    ensures FromDict(d).Success? ==>
      forall i | 0 <= i < 5 :: Convert(i, Lookup(d, PartNames[i], PartDefaults[i])) == Success(ToTuple(FromDict(d).value)[i])
  {
    var ok := forall i | 0 <= i < 3 :: Convert(i, Lookup(d, PartNames[i], PartDefaults[i])).Success?;
    if ok {
      assert Convert(0, Lookup(d, PartNames[0], PartDefaults[0])).Success?;
      assert Convert(1, Lookup(d, PartNames[1], PartDefaults[1])).Success?;
      assert Convert(2, Lookup(d, PartNames[2], PartDefaults[2])).Success?;
    }
    if FromDict(d).Success? {
      forall i | 0 <= i < 5
        ensures Convert(i, Lookup(d, PartNames[i], PartDefaults[i])) == Success(ToTuple(FromDict(d).value)[i])
      {
        var a := Lookup(d, PartNames[i], PartDefaults[i]);
        if i >= 3 {
          assert OptArg(EnforceStr(a)) == ToTuple(FromDict(d).value)[i];
        }
      }
    }
  }

  /** `Version(**kwargs)`: the keyword values that are not None are the dictionary of step (5). */
  lemma ConstructKeywordsOnly(kwargs: map<string, Arg>)
    requires kwargs.Keys <= PartSet
    ensures Construct([], kwargs) == FromDict(Given(kwargs))
  {
    assert PositionalParts([]) + Given(kwargs) == Given(kwargs);
  }

  /** Step (5) on keyword values alone can only raise ValueError: None never reaches `int()`. */
  lemma FromGivenRaisesValueError(kwargs: map<string, Arg>)
    requires FromDict(Given(kwargs)).Failure?
    ensures FromDict(Given(kwargs)).error.IsValueError()
  {
    LookupGiven(kwargs, PartNames[0], PartDefaults[0]);
    LookupGiven(kwargs, PartNames[1], PartDefaults[1]);
    LookupGiven(kwargs, PartNames[2], PartDefaults[2]);
  }

  /** `Version(**kwargs)` with known keywords fails, if at all, with ValueError. */
  lemma KeywordsOnlyRaisesValueError(kwargs: map<string, Arg>)
    requires kwargs.Keys <= PartSet && Construct([], kwargs).Failure?
    ensures Construct([], kwargs).error.IsValueError()
  {
    ConstructKeywordsOnly(kwargs);
    FromGivenRaisesValueError(kwargs);
  }

  /** `Version(**kwargs)` when every number converts: each part is its keyword value, converted, or its default. */
  lemma ConstructFromKeywords(kwargs: map<string, Arg>)
    requires kwargs.Keys <= PartSet
    requires forall i | 0 <= i < 3 :: Convert(i, Lookup(Given(kwargs), PartNames[i], PartDefaults[i])).Success?
    ensures Construct([], kwargs).Success?
    ensures forall i | 0 <= i < 5 ::
      Convert(i, Lookup(Given(kwargs), PartNames[i], PartDefaults[i])) == Success(ToTuple(Construct([], kwargs).value)[i])
  {
    ConstructKeywordsOnly(kwargs);
    FromDictFields(Given(kwargs));
  }

  lemma ToTupleInjective(r: Version, w: Version)
    requires forall i | 0 <= i < 5 :: ToTuple(r)[i] == ToTuple(w)[i]
    ensures r == w
  {
    assert ToTuple(r)[0] == ToTuple(w)[0] && ToTuple(r)[1] == ToTuple(w)[1] && ToTuple(r)[2] == ToTuple(w)[2];
    assert ToTuple(r)[3] == ToTuple(w)[3] && ToTuple(r)[4] == ToTuple(w)[4];
    OptArgInjective(r.prerelease, w.prerelease);
    OptArgInjective(r.build, w.build);
  }

  lemma OptArgInjective(a: Option<string>, b: Option<string>)
    requires OptArg(a) == OptArg(b)
    ensures a == b
  {
  }

  /** `Version(**kwargs)` is `w` when each part of `w` is what its keyword (or default) converts to. */
  lemma ConstructGives(kwargs: map<string, Arg>, w: Version)
    requires kwargs.Keys <= PartSet
    requires forall i | 0 <= i < 5 ::
      Convert(i, Lookup(Given(kwargs), PartNames[i], PartDefaults[i])) == Success(ToTuple(w)[i])
    ensures Construct([], kwargs) == Success(w)
  {
    ConstructFromKeywords(kwargs);
    var r := Construct([], kwargs).value;
    forall i | 0 <= i < 5 ensures ToTuple(r)[i] == ToTuple(w)[i] {
      assert Convert(i, Lookup(Given(kwargs), PartNames[i], PartDefaults[i])) == Success(ToTuple(w)[i]);
      assert Convert(i, Lookup(Given(kwargs), PartNames[i], PartDefaults[i])) == Success(ToTuple(r)[i]);
    }
    ToTupleInjective(r, w);
    assert Construct([], kwargs) == Success(r);
  }

  /** Step (5) on five given values. */
  lemma FromDictPositional(vals: seq<Arg>)
    requires |vals| == 5
    requires EnsureInt(vals[0]).Success? && EnsureInt(vals[1]).Success? && EnsureInt(vals[2]).Success?
    ensures FromDict(PositionalParts(vals))
            == Success(Version(EnsureInt(vals[0]).value, EnsureInt(vals[1]).value, EnsureInt(vals[2]).value,
                               EnforceStr(vals[3]), EnforceStr(vals[4])))
  {
    LookupPositional(vals, 0, IntArg(0));
    LookupPositional(vals, 1, IntArg(0));
    LookupPositional(vals, 2, IntArg(0));
    LookupPositional(vals, 3, NoneArg);
    LookupPositional(vals, 4, NoneArg);
  }

  // ---------------------------------------------------------------------
  // parse, isvalid, __str__, to_tuple, to_dict
  // ---------------------------------------------------------------------

  /** `Version.parse`: `cls(**cls._parse(version))`. */
  function Parse(s: string): Result<Version, Error> {
    var groups :- ParseGroups(s);
    Construct([], groups)
  }

  /** `Version.isvalid`: a ValueError becomes false, any other error propagates. */
  function IsValid(s: string): Result<bool, Error> {
    match Parse(s)
    case Success(_) => Success(true)
    case Failure(e) => if e.IsValueError() then Success(false) else Failure(e)
  }

  /** `__str__`: a falsy pre-release or build is left out with its separator. */
  function ToString(v: Version): string {
    NatToString(v.major) + "." + NatToString(v.minor) + "." + NatToString(v.patch)
    + (if Truthy(v.prerelease) then "-" + v.prerelease.value else "")
    + (if Truthy(v.build) then "+" + v.build.value else "")
  }

  function ToTuple(v: Version): seq<Arg> {
    [IntArg(v.major), IntArg(v.minor), IntArg(v.patch), OptArg(v.prerelease), OptArg(v.build)]
  }

  function ToDict(v: Version): map<string, Arg> {
    PositionalParts(ToTuple(v))
  }

  /** A version the grammar can spell: absent, or grammatical, pre-release and build. */
  predicate WellFormed(v: Version) {
    && (v.prerelease.None? || IsPrerelease(v.prerelease.value))
    && (v.build.None? || IsBuild(v.build.value))
  }

  function GroupsOf(v: Version): Groups {
    Groups(NatToString(v.major), NatToString(v.minor), NatToString(v.patch), v.prerelease, v.build)
  }

  // ---------------------------------------------------------------------
  // Round trips
  // ---------------------------------------------------------------------

  /** `Version(*args)` with a dict built from five values (and no keywords). */
  lemma ConstructFromValues(vals: seq<Arg>)
    requires |vals| == 5
    requires EnsureInt(vals[0]).Success? && EnsureInt(vals[1]).Success? && EnsureInt(vals[2]).Success?
    ensures Construct([], PositionalParts(vals))
            == Success(Version(EnsureInt(vals[0]).value, EnsureInt(vals[1]).value, EnsureInt(vals[2]).value,
                               EnforceStr(vals[3]), EnforceStr(vals[4])))
  {
    var d := PositionalParts(vals);
    PositionalKeys(vals);
    ConstructKeywordsOnly(d);
    LookupValues(vals, 0);
    LookupValues(vals, 1);
    LookupValues(vals, 2);
    LookupValues(vals, 3);
    LookupValues(vals, 4);
    FromDictOf(Given(d), vals);
  }

  lemma PositionalKeys(vals: seq<Arg>)
    requires |vals| <= 5
    ensures PositionalParts(vals).Keys <= PartSet
  {
    PartNamesDistinct();
  }

  /** A part of `versiondict` for the dictionary of five values: the value, or the default for None. */
  lemma LookupValues(vals: seq<Arg>, i: nat)
    requires |vals| == 5 && i < 5
    ensures Lookup(Given(PositionalParts(vals)), PartNames[i], PartDefaults[i])
            == if vals[i] == NoneArg then PartDefaults[i] else vals[i]
  {
    LookupGiven(PositionalParts(vals), PartNames[i], PartDefaults[i]);
    LookupPositional(vals, i, NoneArg);
  }

  /** Step (5) on a dictionary whose parts agree with five values that convert. */
  lemma FromDictOf(d: map<string, Arg>, vals: seq<Arg>)
    requires |vals| == 5
    requires EnsureInt(vals[0]).Success? && EnsureInt(vals[1]).Success? && EnsureInt(vals[2]).Success?
    requires Lookup(d, PartNames[0], PartDefaults[0]) == if vals[0] == NoneArg then PartDefaults[0] else vals[0]
    requires Lookup(d, PartNames[1], PartDefaults[1]) == if vals[1] == NoneArg then PartDefaults[1] else vals[1]
    requires Lookup(d, PartNames[2], PartDefaults[2]) == if vals[2] == NoneArg then PartDefaults[2] else vals[2]
    requires Lookup(d, PartNames[3], PartDefaults[3]) == if vals[3] == NoneArg then PartDefaults[3] else vals[3]
    requires Lookup(d, PartNames[4], PartDefaults[4]) == if vals[4] == NoneArg then PartDefaults[4] else vals[4]
    ensures FromDict(d)
            == Success(Version(EnsureInt(vals[0]).value, EnsureInt(vals[1]).value, EnsureInt(vals[2]).value,
                               EnforceStr(vals[3]), EnforceStr(vals[4])))
  {
    assert Lookup(d, PartNames[0], PartDefaults[0]) == vals[0];
    assert Lookup(d, PartNames[1], PartDefaults[1]) == vals[1];
    assert Lookup(d, PartNames[2], PartDefaults[2]) == vals[2];
    assert EnforceStr(Lookup(d, PartNames[3], PartDefaults[3])) == EnforceStr(vals[3]);
    assert EnforceStr(Lookup(d, PartNames[4], PartDefaults[4])) == EnforceStr(vals[4]);
  }

  /** The version a valid match denotes. */
  function ValueOf(g: Groups): Version
    requires ValidGroups(g)
  {
    Version(DigitsValue(g.major), DigitsValue(g.minor), DigitsValue(g.patch), g.prerelease, g.build)
  }

  function GroupValues(g: Groups): seq<Arg> {
    [StrArg(g.major), StrArg(g.minor), StrArg(g.patch), OptArg(g.prerelease), OptArg(g.build)]
  }

  lemma EnsureIntOfNumeral(t: string)
    requires |t| > 0 && AllDigits(t)
    ensures EnsureInt(StrArg(t)) == Success(DigitsValue(t))
  {
    PyIntOfDigits(t);
  }

  lemma GroupValuesConvert(g: Groups)
    requires ValidGroups(g)
    ensures var vals := GroupValues(g);
      && EnsureInt(vals[0]) == Success(DigitsValue(g.major))
      && EnsureInt(vals[1]) == Success(DigitsValue(g.minor))
      && EnsureInt(vals[2]) == Success(DigitsValue(g.patch))
      && EnforceStr(vals[3]) == g.prerelease
      && EnforceStr(vals[4]) == g.build
  {
    EnsureIntOfNumeral(g.major);
    EnsureIntOfNumeral(g.minor);
    EnsureIntOfNumeral(g.patch);
  }

  /** Step (5) on the groups of a match. */
  lemma FromDictGroups(g: Groups)
    requires ValidGroups(g)
    ensures FromDict(GroupDict(g)) == Success(ValueOf(g))
  {
    GroupValuesConvert(g);
    FromDictPositional(GroupValues(g));
  }

  /** The constructor turns the groups of a match into their values. */
  lemma ConstructGroups(g: Groups)
    requires ValidGroups(g)
    ensures Construct([], GroupDict(g)) == Success(ValueOf(g))
  {
    GroupValuesConvert(g);
    ConstructFromValues(GroupValues(g));
  }

  lemma EmptyNotGrammatical()
    ensures !IsPrerelease("") && !IsBuild("")
  {
    assert Split("") == [""];
  }

  /** `str(v)` is the word the groups of `v` assemble to. */
  lemma ToStringAssembles(v: Version)
    requires WellFormed(v)
    ensures ToString(v) == Assemble(GroupsOf(v))
    ensures ValidGroups(GroupsOf(v))
  {
    EmptyNotGrammatical();
  }

  lemma ToStringHasDot(v: Version)
    ensures '.' in ToString(v)
  {
    assert ToString(v)[|NatToString(v.major)|] == '.';
  }

  /** `parse(str(v)) == v` for every version the grammar can spell. */
  lemma ParseToString(v: Version)
    requires WellFormed(v)
    ensures Parse(ToString(v)) == Success(v)
  {
    ToStringAssembles(v);
    MatchVersionComplete(GroupsOf(v));
    ConstructGroups(GroupsOf(v));
  }

  /** `str(parse(s)) == s`: what parses is spelled canonically, and gives a well-formed version. */
  lemma ParseRoundTrip(s: string)
    requires Parse(s).Success?
    ensures WellFormed(Parse(s).value)
    ensures ToString(Parse(s).value) == s
  {
    var g := MatchVersion(s).value;
    ConstructGroups(g);
    NumeralRoundTrip(g.major);
    NumeralRoundTrip(g.minor);
    NumeralRoundTrip(g.patch);
    var v := Parse(s).value;
    assert GroupsOf(v) == g;
    ToStringAssembles(v);
  }

  /** The parser accepts exactly the language of `_REGEX`. */
  lemma ParseExact(s: string)
    ensures Parse(s).Success? <==> InLanguage(s)
  {
    MatchVersionExact(s);
    if MatchVersion(s).Some? {
      ConstructGroups(MatchVersion(s).value);
    }
  }

  /** `isvalid` never raises, and says true exactly for the words of the grammar. */
  lemma IsValidExact(s: string)
    ensures IsValid(s) == Success(InLanguage(s))
  {
    ParseExact(s);
  }

  lemma NumeralHasNoDot(n: nat)
    ensures '.' !in NatToString(n)
  {
  }

  /** `Version(*v.to_tuple()) == v`. */
  lemma ConstructFromTuple(v: Version)
    ensures Construct(ToTuple(v), map[]) == Success(v)
  {
    var args := ToTuple(v);
    NumeralHasNoDot(v.major);
    assert ArgText(args[0]) == NatToString(v.major);
    assert Construct(args, map[]) == FromDict(PositionalParts(args) + Given(map[]));
    MergeNothing(PositionalParts(args));
    LookupPositional(args, 0, PartDefaults[0]);
    LookupPositional(args, 1, PartDefaults[1]);
    LookupPositional(args, 2, PartDefaults[2]);
    LookupPositional(args, 3, PartDefaults[3]);
    LookupPositional(args, 4, PartDefaults[4]);
    FromDictOf(PositionalParts(args), args);
    assert EnforceStr(args[3]) == v.prerelease;
    assert EnforceStr(args[4]) == v.build;
  }

  lemma ConstructFromDict(v: Version)
    ensures Construct([], ToDict(v)) == Success(v)
  {
    var vals := ToTuple(v);
    ConstructFromValues(vals);
    assert EnforceStr(vals[3]) == v.prerelease;
    assert EnforceStr(vals[4]) == v.build;
  }

  lemma MergeNothing(d: map<string, Arg>)
    ensures d + Given(map[]) == d
  {
    assert Given(map[]) == map[];
  }

  /** `Version(s)` with a dotted string `s` and nothing else is `Version.parse(s)`. */
  lemma ConstructFromString(s: string)
    requires '.' in s
    ensures Construct([StrArg(s)], map[]) == Parse(s)
  {
    var args := [StrArg(s)];
    assert CheckArgs(args).None?;
    assert ArgTruthy(args[0]) && ArgText(args[0]) == s;
    if MatchVersion(s).Some? {
      var g := MatchVersion(s).value;
      var d := GroupDict(g);
      assert Construct(args, map[]) == FromDict(d + Given(map[]));
      MergeNothing(d);
      FromDictGroups(g);
      assert Parse(s) == Construct([], d);
      ConstructGroups(g);
    }
  }

  /**
   * The value part `i` of `Version(*args, **kwargs)` starts from when the
   * first positional value is not a dotted string: a keyword that is not
   * None, else the positional value at `i`, else the default.
   */
  function Chosen(args: seq<Arg>, kwargs: map<string, Arg>, i: nat): Arg
    requires i < 5
  {
    if PartNames[i] in kwargs && kwargs[PartNames[i]] != NoneArg then kwargs[PartNames[i]]
    else if i < |args| then args[i]
    else PartDefaults[i]
  }

  /**
   * Without a dotted first value, `Version(*args, **kwargs)` succeeds exactly
   * when the chosen major, minor and patch convert, and every part is then
   * its chosen value converted.
   */
  lemma ConstructPositional(args: seq<Arg>, kwargs: map<string, Arg>)
    requires kwargs.Keys <= PartSet && CheckArgs(args).None?
    requires !(|args| > 0 && ArgTruthy(args[0]) && '.' in ArgText(args[0]))
    ensures Construct(args, kwargs).Success?
            <==> forall i | 0 <= i < 3 :: Convert(i, Chosen(args, kwargs, i)).Success?
    ensures Construct(args, kwargs).Success? ==>
      forall i | 0 <= i < 5 :: Convert(i, Chosen(args, kwargs, i)) == Success(ToTuple(Construct(args, kwargs).value)[i])
  {
    var merged := PositionalParts(args) + Given(kwargs);
    assert Construct(args, kwargs) == FromDict(merged);
    FromDictFields(merged);
    forall i | 0 <= i < 5
      ensures Lookup(merged, PartNames[i], PartDefaults[i]) == Chosen(args, kwargs, i)
    {
      LookupMerged(PositionalParts(args), kwargs, PartNames[i], PartDefaults[i]);
      LookupPositional(args, i, PartDefaults[i]);
    }
  }

  lemma NegativeHasNoDot(i: int)
    requires i < 0
    ensures '.' !in IntToString(i)
  {
    NumeralHasNoDot(-i);
    assert IntToString(i) == "-" + NatToString(-i);
  }

  /** A negative major given as an int is refused. */
  lemma NegativePositional(i: int)
    requires i < 0
    ensures Construct([IntArg(i)], map[]) == Failure(Negative(i))
  {
    var args := [IntArg(i)];
    NegativeHasNoDot(i);
    ConstructPositional(args, map[]);
    LookupMerged(PositionalParts(args), map[], PartNames[0], IntArg(0));
    LookupPositional(args, 0, IntArg(0));
  }

  /** A negative major given as its decimal text is refused. */
  lemma NegativeText(i: int)
    requires i < 0
    ensures Construct([StrArg(IntToString(i))], map[]) == Failure(Negative(i))
  {
    var args := [StrArg(IntToString(i))];
    PyIntOfIntToString(i);
    NegativeHasNoDot(i);
    ConstructPositional(args, map[]);
    LookupMerged(PositionalParts(args), map[], PartNames[0], IntArg(0));
    LookupPositional(args, 0, IntArg(0));
  }

  /** A negative patch given by keyword is refused. */
  lemma NegativeKeyword(i: int)
    requires i < 0
    ensures Construct([], map["patch" := IntArg(i)]) == Failure(Negative(i))
  {
    var kw := map["patch" := IntArg(i)];
    PartNamesDistinct();
    ConstructPositional([], kw);
    forall k | 0 <= k < 3
      ensures Lookup(PositionalParts([]) + Given(kw), PartNames[k], IntArg(0))
              == if k == 2 then IntArg(i) else IntArg(0)
    {
      LookupMerged(PositionalParts([]), kw, PartNames[k], IntArg(0));
      LookupPositional([], k, IntArg(0));
    }
  }

  // ---------------------------------------------------------------------
  // The trailing newline that `_REGEX` lets through
  // ---------------------------------------------------------------------

  /** `Version.parse` AS WRITTEN, with `$` also matching before a final newline. */
  function ParseAsWritten(s: string): Result<Version, Error> {
    match MatchVersionAsWritten(s)
    case None => Failure(InvalidFormat(s))
    case Some(g) => Construct([], GroupDict(g))
  }

  lemma NoNewlineInWords(g: Groups)
    requires ValidGroups(g)
    ensures '\n' !in Assemble(g)
  {
    forall p | p in [g.prerelease, g.build] && p.Some?
      ensures '\n' !in p.value
    {
      var parts := Split(p.value);
      forall i | 0 <= i < |parts|
        ensures forall k | 0 <= k < |parts[i]| :: IsIdentChar(parts[i][k])
      {
        if p == g.prerelease {
          assert IsPrereleaseIdent(parts[i]);
        } else {
          assert IsAlphanumIdent(parts[i]);
        }
      }
      JoinChars(parts);
    }
    assert '\n' !in g.major && '\n' !in g.minor && '\n' !in g.patch;
  }

  /**
   * For every well-formed `v`, the source accepts `str(v) + "\n"` and parses
   * it to `v`, so `str(parse(s)) != s` for that `s`; the corrected Parse
   * refuses it.
   */
  lemma TrailingNewlineAccepted(v: Version)
    requires WellFormed(v)
    ensures ParseAsWritten(ToString(v) + "\n") == Success(v)
    ensures ToString(v) != ToString(v) + "\n"
    ensures Parse(ToString(v) + "\n").Failure?
  {
    ToStringAssembles(v);
    MatchVersionComplete(GroupsOf(v));
    NewlineRefused(ToString(v));
    AsWrittenDropsNewline(ToString(v));
    ConstructGroups(GroupsOf(v));
    assert |ToString(v) + "\n"| == |ToString(v)| + 1;
  }

  /** The corrected matcher refuses a text ending in a newline. */
  lemma NewlineRefused(t: string)
    ensures MatchVersion(t + "\n").None?
  {
    var s := t + "\n";
    if MatchVersion(s).Some? {
      NoNewlineInWords(MatchVersion(s).value);
      assert false;
    }
  }

  /** Where the corrected matcher refuses `t + "\n"`, the source matches `t`. */
  lemma AsWrittenDropsNewline(t: string)
    requires MatchVersion(t + "\n").None?
    ensures MatchVersionAsWritten(t + "\n") == MatchVersion(t)
  {
    assert (t + "\n")[..|t|] == t;
  }
}
