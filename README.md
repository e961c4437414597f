# A verified model of `semver.Version`

This project models the `Version` value of python-semver (`src/semver/version.py`).
A version is three natural numbers (major, minor, patch) and two optional strings
(prerelease, build), and the core covers:

- reading one from text with the Semantic Versioning 2.0.0 grammar;
- the constructor, which takes positional values, one dotted string or keyword
  values;
- ordering versions by precedence;
- deriving new versions (the `bump_*` family, `next_version`,
  `finalize_version`, `replace`);
- a version's text (`__str__`) and its use in `match` expressions.

The model is functional: `Version` is a datatype, and each operation is a
function that returns a `Result` whose error says which Python exception would
be raised. The source keeps the five parts in private slots, and nothing in the
core changes them after construction. The one loop of the core, the `for` loop
of `_nat_cmp`, is a method (`Precedence.NatCmpLoop`). It carries its invariant
and is proved equal to the recursive comparison that the lemmas use.

Modules, in dependency order:

- `Wrappers`: `Option` and `Result`.
- `Text`: digit strings and their values, Python's `str(int)` and `int(str)`,
  `str.split(".")`, and code-point order on strings.
- `Grammar`: the language of `_REGEX` as predicates, and a deterministic
  matcher. The matcher is proved to accept exactly that language and to return
  its unique decomposition into groups.
- `Versions`: `Version`, the constructor, `_parse`, `parse`, `isvalid`,
  `__str__`, `to_tuple` and `to_dict`, and their round trips.
- `Precedence`: `_nat_cmp` and `compare`. On well-formed versions (those
  the grammar can spell), `compare` is proved equal to an independent
  transcription of section 11 of Semantic Versioning 2.0.0, and to be
  transitive. It is proved antisymmetric on all versions. The restriction is
  needed: the constructor does not check pre-release text, and on versions
  the grammar refuses `compare` is not transitive (see Findings).
- `Derive`: `_increment_string`, the `bump_*` family, `replace`,
  `finalize_version` and `next_version`.
- `Matching`: `match`.
- `Anchors`: the examples of the docstrings, as lemmas.

Python values given to the constructor are `Arg`: `IntArg`, `StrArg` or
`NoneArg`. Keyword arguments are a `map<string, Arg>`. A keyword that is absent
and one given as None are the same, as they are in the source. `{**a, **b}`
is Dafny's map union `a + b`, in which the right-hand value wins.

Where the docstrings and the code disagree, the model follows the code:

- The docstring of `bump_prerelease` shows `3.4.5` becoming `rc.2`. The code
  increments the seed `rc.0`, which gives `rc.1` (`Anchors.BumpPrereleaseExample`).
- The docstring of `compare` shows -1 for `Version("1.0.0").compare("0.1.0")`.
  The code gives 1 (`Anchors.CompareExamples`).
- Described in prose, `bump_prerelease` on a release seeds the pre-release as
  `<token>.0`. The code then increments that seed, so the result is
  `<token>.1`. `Derive.BumpPrereleaseSeeds` states what the code does.

Three behaviours of the code are easy to miss, and the model proves them:

- On a release, `bump_prerelease` moves DOWN in precedence
  (`Derive.BumpPrereleaseOfRelease`).
- On a version that has only build metadata, `next_version("patch")` only
  drops the build, so the result compares equal to the version
  (`Derive.NextPatchOfBuildOnly`).
- On a pre-release without a digit, such as `1.0.0-rc`, `next_version("prerelease")`
  has no number to raise and gives the same version back, minus its build
  (`Derive.NextPrereleaseWithoutDigits`).

## Model

| member | source | states |
|---|---|---|
| Text.NatToString | src/semver/version.py:698 | `str(n)` (the `:d` format of `__str__`) is a numeral without leading zeros whose value is `n`, and it starts with `0` exactly when `n` is 0 |
| Text.NumeralRoundTrip | src/semver/version.py:106 | a numeral `0\|[1-9]\d*` is the decimal text of its value, so the text of a number is unique |
| Text.PyIntOfDigits | src/semver/version.py:284 | `int()` of a non-empty digit string is its decimal value |
| Text.PyIntOfIntToString | src/semver/version.py:284 | `int(str(i)) == i` for every integer, negative ones included |
| Text.SplitJoin | src/semver/version.py:262 | `split(".")` inverts joining dot-free parts with dots |
| Text.Split | src/semver/version.py:262 | `str.split(".")` gives at least one part, no part contains a dot, and joining the parts gives the string back |
| Text.LexCmp | src/semver/version.py:53-55 | `_cmp` on two strings is -1, 0 or 1, and 0 exactly when they are equal |
| Text.LexCmpAntisymmetric | src/semver/version.py:53-55 | swapping the operands of `_cmp` on strings negates the result |
| Text.LexCmpTransitive | src/semver/version.py:53-55 | `_cmp` on strings is transitive |
| Grammar.MatchTail | src/semver/version.py:111-118 | the optional `-prerelease` and `+build` groups: what matches spells the text back and is grammatical |
| Grammar.MatchVersion | src/semver/version.py:103-122 | a match (anchored at both ends) gives valid groups that spell exactly the input |
| Grammar.MatchVersionComplete | src/semver/version.py:103-122 | every valid decomposition is the one the matcher returns, so the groups of a word are unique |
| Grammar.MatchVersionExact | src/semver/version.py:103-122 | the matcher succeeds exactly on the words of the grammar's language |
| Versions.EnsureInt | src/semver/version.py:273-295 | a non-negative int, or a text `int()` reads as a non-negative number, succeeds with that number and nothing else succeeds; a negative value (given or read) and a text `int()` refuses raise ValueError; None raises the TypeError of `int(None)` |
| Versions.FirstBadType | src/semver/version.py:155-161 | the position reported is the first of positions 0 to 2 holding None, the one type `ALLOWED_TYPES` refuses there; None when no such position exists |
| Versions.Construct | src/semver/version.py:136-161 | an unknown keyword raises TypeError naming the unknown keys; more than five positional values raise ValueError; a dotted first value with more values raises ValueError; otherwise None at position 0, 1 or 2 raises TypeError naming the first such position |
| Versions.ConstructPositional | src/semver/version.py:208-247 | without a dotted first value, each part starts from its keyword value when that is not None, else its positional value, else its default; construction succeeds exactly when major, minor and patch so chosen convert, and each part is then its chosen value converted |
| Versions.KeywordsOverride | src/semver/version.py:214-224 | a keyword value that is not None decides its part, whatever the positional values say |
| Versions.ConstructFromKeywords | src/semver/version.py:226-247 | with keywords only, each part is its keyword value, converted, or its default |
| Versions.FromGivenRaisesValueError | src/semver/version.py:226-247 | with keywords only, converting major, minor and patch can fail with ValueError and nothing else |
| Versions.KeywordsOnlyRaisesValueError | src/semver/version.py:214-247 | `Version(**kwargs)` with only the five part names as keywords fails, if at all, with ValueError |
| Versions.NegativePositional | src/semver/version.py:289-293 | `Version(-1)` raises ValueError for the negative value |
| Versions.NegativeText | src/semver/version.py:289-293 | `Version("-1")` raises the same ValueError (a text without a dot is not parsed) |
| Versions.NegativeKeyword | src/semver/version.py:289-293 | `Version(patch=-1)` raises the same ValueError |
| Versions.ConstructFromTuple | src/semver/version.py:389-402 | `Version(*v.to_tuple()) == v` |
| Versions.ConstructFromDict | src/semver/version.py:404-426 | `Version(**v.to_dict()) == v` |
| Versions.ConstructFromValues | src/semver/version.py:226-247 | five values as keywords give each number through `_ensure_int` and each string through `_enforce_str` |
| Versions.ConstructGroups | src/semver/version.py:338-342 | the group dictionary of a match builds the version of its groups' values |
| Versions.ConstructFromString | src/semver/version.py:209-210 | `Version(s)` with a dotted string and nothing else is `Version.parse(s)` |
| Versions.ToStringAssembles | src/semver/version.py:697-703 | the text of a well-formed version is its groups spelled with `.`, `-` and `+` |
| Versions.ToStringHasDot | src/semver/version.py:697-703 | the text of every version contains a dot |
| Versions.ParseToString | src/semver/version.py:767-784 | `parse(str(v)) == v` for every version the grammar can spell |
| Versions.ParseRoundTrip | src/semver/version.py:767-784 | whatever parses is well formed and spelled canonically: `str(parse(s)) == s` |
| Versions.ParseExact | src/semver/version.py:323-342 | `parse` succeeds exactly on the words of the grammar |
| Versions.IsValidExact | src/semver/version.py:813-827 | `isvalid(s)` is true exactly when `s` is a word of the grammar, and it raises nothing |
| Versions.TrailingNewlineAccepted | src/semver/version.py:119 | the code as written accepts `str(v) + "\n"` and parses it to `v`; the corrected parse refuses it |
| Precedence.NatCmpLoop | src/semver/version.py:250-270 | the loop returns the first non-zero identifier comparison, and otherwise compares the lengths of the two whole strings |
| Precedence.NatCmpAntisymmetric | src/semver/version.py:250-270 | swapping the operands of `_nat_cmp` negates the result |
| Precedence.NatCmpAgrees | src/semver/version.py:250-270 | on grammatical pre-releases, `_nat_cmp` is the identifier order of section 11.4 of Semantic Versioning 2.0.0 |
| Precedence.Compare | src/semver/version.py:565-580 | `compare` gives -1, 0 or 1 |
| Precedence.CompareTo | src/semver/version.py:530-580 | a text without a dot raises ValueError; a Version is compared as it is |
| Precedence.CompareAgrees | src/semver/version.py:530-580 | on well-formed versions, `compare` is the precedence of section 11 of Semantic Versioning 2.0.0, written out independently |
| Precedence.CompareAntisymmetric | src/semver/version.py:530-580 | `compare(v, w) == -compare(w, v)` for all versions |
| Precedence.CompareTransitive | src/semver/version.py:530-580 | on well-formed versions, `compare` is transitive |
| Precedence.CompareZero | src/semver/version.py:530-580 | on well-formed versions, `compare` is 0 exactly when the versions agree on everything but the build |
| Precedence.CompareIgnoresBuild | src/semver/version.py:565-580 | the build is never consulted, on either side |
| Precedence.TripleFirst | src/semver/version.py:565-568 | the triple decides first, lexicographically |
| Precedence.SameTriple | src/semver/version.py:570-580 | at an equal triple, two pre-releases compare as `_nat_cmp` of them |
| Precedence.ReleaseAbovePrerelease | src/semver/version.py:573-578 | at an equal triple, a release ranks above every pre-release of it |
| Precedence.CompareToString | src/semver/version.py:550-553 | comparing with `str(w)` is comparing with `w` |
| Precedence.CompareToDict | src/semver/version.py:554-555 | comparing with `w.to_dict()` is comparing with `w` |
| Precedence.CompareToTuple | src/semver/version.py:556-557 | comparing with `w.to_tuple()` is comparing with `w` |
| Derive.LastDigitRun | src/semver/version.py:101 | the last run of digits: maximal at its start, and no digit follows it; None exactly when there is no digit |
| Derive.IncrementedRun | src/semver/version.py:444-447 | the replaced run is digits worth one more, as wide as the run or as the successor, whichever is wider |
| Derive.IncrementLastRun | src/semver/version.py:433-448 | `_increment_string` keeps the text before and after the last run and replaces the run by its increment |
| Derive.IncrementNoDigits | src/semver/version.py:433-448 | without a digit `_increment_string` changes nothing |
| Derive.IncrementNumeralSuffix | src/semver/version.py:433-448 | `q.N` becomes `q.(N+1)` |
| Derive.BumpMajor | src/semver/version.py:450-461 | `bump_major` gives `(major+1).0.0`, with no pre-release or build |
| Derive.BumpMinor | src/semver/version.py:463-474 | `bump_minor` gives `major.(minor+1).0` |
| Derive.BumpPatch | src/semver/version.py:476-487 | `bump_patch` gives `major.minor.(patch+1)` |
| Derive.BumpsGoUp | src/semver/version.py:450-487 | every numeric bump ranks above the version |
| Derive.BumpPrerelease | src/semver/version.py:489-507 | the triple kept, the pre-release the increment of the current one or of `token.0`, the build dropped |
| Derive.BumpPrereleaseSeeds | src/semver/version.py:501 | on a release, the pre-release becomes `token.1`, with `rc` for a missing or empty token |
| Derive.BumpPrereleaseOfRelease | src/semver/version.py:489-507 | on a release, `bump_prerelease` ranks BELOW the version |
| Derive.BumpPrereleaseNumbered | src/semver/version.py:489-507 | a pre-release ending in `.N` becomes `.(N+1)` and ranks above the version |
| Derive.BumpBuild | src/semver/version.py:509-528 | the triple and pre-release kept, the build the increment of the current one or of `token.0` |
| Derive.BumpBuildSeeds | src/semver/version.py:521 | without a build, the build becomes `token.1`, with `build` for a missing or empty token |
| Derive.BumpBuildKeepsPrecedence | src/semver/version.py:509-528 | `bump_build` never changes precedence |
| Derive.Replace | src/semver/version.py:786-810 | with an unknown key, `replace` raises TypeError naming the unknown keys |
| Derive.ReplaceFields | src/semver/version.py:800-803 | a part not named keeps its value; a named part takes its converted value, or its default when given None |
| Derive.ReplaceNothing | src/semver/version.py:786-810 | `replace()` gives the version back |
| Derive.ReplaceAll | src/semver/version.py:786-810 | `replace(**w.to_dict()) == w`, whatever the receiver |
| Derive.ReplaceDrops | src/semver/version.py:620 | `replace(prerelease=None, build=None)` is the finalized version |
| Derive.Finalize | src/semver/version.py:708-718 | `finalize_version` keeps the triple and drops the pre-release and build |
| Derive.FinalizeProperties | src/semver/version.py:708-718 | finalizing is idempotent, the result is at or above the version (strictly above a pre-release), and its text is the bare triple |
| Derive.NextVersion | src/semver/version.py:582-627 | a part outside major, minor, patch, prerelease raises ValueError; every other part succeeds |
| Derive.NextVersionBumps | src/semver/version.py:622-623 | for major, minor and patch outside the drop case, `next_version(part)` is `bump_<part>()` |
| Derive.NextVersionDrops | src/semver/version.py:615-620 | when the pre-release or build is set and the lower parts are zero, only they are dropped |
| Derive.NextVersionGoesUp | src/semver/version.py:582-624 | for major, minor and patch the result is never below the version, and strictly above unless only a build was set |
| Derive.NextPatchOfBuildOnly | src/semver/version.py:615-620 | with only a build, `next_version("patch")` drops it and compares equal |
| Derive.NextPrereleaseOfRelease | src/semver/version.py:625-627 | on a release, `next_version("prerelease")` is the next patch at `token.1`, above the version |
| Derive.NextPrereleaseOfPrerelease | src/semver/version.py:625-627 | on a pre-release, `next_version("prerelease")` is `bump_prerelease` |
| Derive.NextPrereleaseWithoutDigits | src/semver/version.py:625-627 | on a pre-release without a digit, `next_version("prerelease")` gives the version back without its build, comparing equal |
| Matching.SplitOperator | src/semver/version.py:738-750 | a two-character operator when the expression starts with one, else `<` or `>` alone, and the rest is the version text; None exactly when there is neither |
| Matching.Match | src/semver/version.py:720-764 | an expression without an operator raises ValueError |
| Matching.PossibilitiesMeaning | src/semver/version.py:752-759 | each operator's set of accepted results is the relation it names |
| Matching.MatchMeaning | src/semver/version.py:720-764 | `v.match(op + str(w))` holds exactly when `compare(v, w)` stands in the relation `op` names |
| Matching.MatchEqual | src/semver/version.py:720-764 | `v.match("==" + str(w))` holds exactly when the versions agree on everything but the build |
| Matching.MatchNotEqual | src/semver/version.py:720-764 | on every text, `!=` fails exactly when `==` fails and otherwise gives its negation |
| Matching.MatchLessThan | src/semver/version.py:720-764 | when the text does not start with `=`, `<` fails exactly when `>=` fails and otherwise gives its negation (a leading `=` would turn `<` into `<=`) |
| Matching.MatchNeedsVersionString | src/semver/version.py:761-762 | a version text without a dot raises ValueError from `compare` |
| Anchors.ParseExample | src/semver/version.py:780-783 | `parse("3.4.5-pre.2+build.4")` is `Version(3, 4, 5, "pre.2", "build.4")` |
| Anchors.BumpExamples | src/semver/version.py:456-485 | the docstring examples of `bump_major`, `bump_minor` and `bump_patch` |
| Anchors.BumpPrereleaseExample | src/semver/version.py:497-498 | `3.4.5` bumps to `3.4.5-rc.1` (the docstring shows `rc.2`) |
| Anchors.BumpBuildExample | src/semver/version.py:517-518 | `3.4.5-rc.1+build.9` bumps to `build.10` |
| Anchors.IncrementPadded | src/semver/version.py:444-447 | `x.009` becomes `x.010`: leading zeros absorb the carry |
| Anchors.IncrementGrows | src/semver/version.py:444-447 | `rc9` becomes `rc10` |
| Anchors.CompareExamples | src/semver/version.py:537-543 | `1.0.0` against `2.0.0`, `1.0.0` and `0.1.0` gives -1, 0 and 1 (the docstring shows -1 for the last) |
| Anchors.NumericIdentifiersExample | src/semver/version.py:263-268 | `1.0.0-rc.2` ranks below `1.0.0-rc.10`: digit identifiers compare as numbers |
| Anchors.NextVersionExample | src/semver/version.py:597-598 | `str(Version("0.1.4").next_version("prerelease")) == "0.1.5-rc.1"` |
| Anchors.FinalizeExample | src/semver/version.py:714-715 | `str(Version("1.2.3-rc.5").finalize_version()) == "1.2.3"` |
| Anchors.MatchAtLeastExample | src/semver/version.py:733-734 | `Version("2.0.0").match(">=1.0.0")` is true |
| Anchors.MatchAboveExample | src/semver/version.py:735-736 | `Version("1.0.0").match(">1.0.0")` is false |
| Anchors.InvalidExamples | src/semver/version.py:813-827 | `1.2`, `01.2.3`, `1.2.3-` and `1.2.3.4` are not valid |
| Anchors.IntStripsOnlySpace | src/semver/version.py:284-289 | `int(" 1\n")` is 1, but a leading U+001C is not white space to `int()`, so `_ensure_int` raises ValueError |
| Anchors.CompareNotTransitiveOffGrammar | src/semver/version.py:265-270 | for pre-releases `1.b`, `0001` and `1.a--` at the same triple, each compares below the next, yet `1.b` compares above `1.a--`; `1.a` and `001` compare 0 though they differ |
| Anchors.ExtraPartRefused | src/semver/version.py:109-122 | a fourth dotted part is refused |
| Anchors.EmptyPrereleaseRefused | src/semver/version.py:111-114 | a `-` with nothing after it is refused |

## Left out

- Unicode is left out: `\d` and the whitespace that `int()` strips are ASCII only here, and Python accepts other decimal digits and spaces for them.
- `bytes` arguments and `_ensure_str` (src/semver/version.py:310-320) are left out, because the model has no byte strings; every text is a `string`.
- Python's other types are left out: an argument is an int, a str or None, and `compare` takes a Version, a str, a dict or a tuple. A float, a bool (an int in Python) or another class's instance is not modelled, nor the TypeError `compare` and `_parse` raise for them.
- `_comparator` and the rich comparison operators (src/semver/version.py:630-651) are left out; each is `compare` behind a type check of its argument.
- `__hash__`, `__repr__`, `__getitem__`, `__iter__`, `to_dict`'s `OrderedDict` and the property setters (which raise AttributeError) are left out; none changes a version.
- The texts of the exception messages are left out; each error is a constructor of `Error` carrying the offending value.
- Only `Versions.ParseAsWritten` and `Grammar.MatchVersionAsWritten` keep the source's acceptance of a final `"\n"` (see Findings). Every other text entry point uses the corrected end anchor, so the model refuses `"1.2.3\n"` where the source accepts it: `Versions.Parse`, `Versions.IsValid` (`isvalid("1.2.3\n")` is True in the source), `Versions.Construct` with a dotted string (`Version("1.2.3\n")`), `Precedence.CompareTo` with a string, and `Matching.Match` (`v.match("==1.2.3\n")`).
- Python 3.11 and later (and the security releases of older versions) refuse `int()` and `str()` of an integer with more than 4300 digits. The model's integers are unbounded, so it builds and prints versions whose parts are that long, where such interpreters raise ValueError in `_ensure_int` or `__str__`.
- Precedence.CompareTransitive and Precedence.CompareZero hold only on well-formed versions. On pre-releases the grammar refuses, which the constructor accepts, `compare` is not transitive, and it gives 0 for versions that differ (`Anchors.CompareNotTransitiveOffGrammar`).
- `_LAST_NUMBER` is modelled by what its search finds (the span of the last run of digits, `Derive.LastDigitRun`), not as a regular expression.

## Findings

| source | as written | input that shows it | evidently intended | confidence | as-written member | corrected member |
|---|---|---|---|---|---|---|
| src/semver/version.py:119 | `_REGEX` ends with `$`, which in Python also matches just before a final newline, so `parse` accepts a version followed by `"\n"` and `str()` of the result drops the newline; the same holds for `isvalid`, `Version(s)`, `compare(s)` and `match`, which all go through `_parse` | `"1.2.3\n"` | the whole string must be a version, as in the grammar of Semantic Versioning 2.0.0 (`\Z`, or `fullmatch`) | not executed | Versions.TrailingNewlineAccepted | Versions.ParseRoundTrip |
| src/semver/version.py:265-270 | the constructor accepts any pre-release text, and `_nat_cmp` breaks a tie of the common identifiers by the lengths of the whole strings, so `compare` is not transitive on such versions | `1.0.0-1.b` < `1.0.0-0001` < `1.0.0-1.a--`, yet `1.0.0-1.b` > `1.0.0-1.a--` | `compare` is a total order on the versions it is given, as section 11 of Semantic Versioning 2.0.0 makes it on valid versions | not executed | Anchors.CompareNotTransitiveOffGrammar | Precedence.CompareTransitive |
