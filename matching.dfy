/**
 * `Version.match(match_expr)`: an operator followed by a version string,
 * true when the receiver stands in that relation to the version.
 */
module Matching {
  import opened Wrappers
  import opened Text
  import opened Versions
  import opened Precedence

  const Operators: set<string> := {">", "<", "==", "!=", ">=", "<="}

  const TwoCharOperators: set<string> := {">=", "<=", "==", "!="}

  /**
   * The operator and the version text of a match expression: a two-character
   * operator when the expression starts with one, else `>` or `<` alone.
   */
  function SplitOperator(expr: string): (r: Option<(string, string)>)
    ensures r.Some? ==> r.value.0 in Operators && r.value.0 + r.value.1 == expr
    ensures r.Some? && |r.value.0| == 1 ==> !(|expr| >= 2 && expr[..2] in TwoCharOperators)
    ensures r.None? <==> !(|expr| >= 2 && expr[..2] in TwoCharOperators) && !(|expr| >= 1 && expr[0] in "<>")
  {
    if |expr| >= 2 && expr[..2] in TwoCharOperators then
      assert expr == expr[..2] + expr[2..];
      Some((expr[..2], expr[2..]))
    else if |expr| >= 1 && expr[0] in "<>" then
      assert expr == [expr[0]] + expr[1..];
      Some(([expr[0]], expr[1..]))
    else
      None
  }

  /** The comparison results each operator accepts. */
  function Possibilities(op: string): set<int>
    requires op in Operators
  {
    match op
    case ">" => {1}
    case "<" => {-1}
    case "==" => {0}
    case "!=" => {-1, 1}
    case ">=" => {0, 1}
    case "<=" => {-1, 0}
  }

  /** What an operator means of a three-way comparison result `c`. */
  predicate Relation(op: string, c: int)
    requires op in Operators
  {
    if op == ">" then c > 0
    else if op == "<" then c < 0
    else if op == "==" then c == 0
    else if op == "!=" then c != 0
    else if op == ">=" then c >= 0
    else c <= 0
  }

  /** `match`: an expression without an operator is a ValueError; so is a version text `compare` refuses. */
  function Match(v: Version, expr: string): (r: Result<bool, Error>)
    ensures SplitOperator(expr).None? ==> r == Failure(InvalidMatchExpression(expr))
  {
    match SplitOperator(expr)
    case None => Failure(InvalidMatchExpression(expr))
    case Some((op, text)) => Judge(op, CompareTo(v, AString(text)))
  }

  /** The verdict of an operator on what `compare` gave: its error, or whether the result is in its set. */
  function Judge(op: string, res: Result<int, Error>): Result<bool, Error>
    requires op in Operators
  {
    var c :- res;
    Success(c in Possibilities(op))
  }

  /** Every result `compare` can give lies in the operator's set exactly when the relation holds. */
  lemma PossibilitiesMeaning(op: string, c: int)
    requires op in Operators
    requires c == -1 || c == 0 || c == 1
    ensures c in Possibilities(op) <==> Relation(op, c)
  {
  }

  /** The text of a version starts with a digit. */
  lemma ToStringStartsWithDigit(w: Version)
    ensures |ToString(w)| > 0 && IsDigit(ToString(w)[0])
  {
    var m := NatToString(w.major);
    var rest := ToString(w)[|m|..];
    assert ToString(w) == m + rest;
    assert ToString(w)[0] == m[0];
  }

  /** An operator written before a version text is read back as that operator. */
  lemma SplitOperatorOfVersion(op: string, w: Version)
    requires op in Operators
    ensures SplitOperator(op + ToString(w)) == Some((op, ToString(w)))
  {
    var s := ToString(w);
    var expr := op + s;
    ToStringStartsWithDigit(w);
    if |op| == 1 {
      assert expr[..2] == [op[0], s[0]];
      assert expr[1..] == s;
    } else {
      assert expr[..2] == op;
      assert expr[2..] == s;
    }
  }

  /** `v.match(op + str(w))` holds exactly when `compare(v, w)` stands in the operator's relation. */
  lemma MatchMeaning(v: Version, op: string, w: Version)
    requires WellFormed(w)
    requires op in Operators
    ensures Match(v, op + ToString(w)) == Success(Relation(op, Compare(v, w)))
  {
    SplitOperatorOfVersion(op, w);
    CompareToString(v, w);
    PossibilitiesMeaning(op, Compare(v, w));
  }

  lemma CompareToRange(v: Version, other: Comparable)
    ensures CompareTo(v, other).Success? ==> CompareTo(v, other).value in {-1, 0, 1}
  {
  }

  /** `v.match("==" + str(w))` holds exactly when the two agree on everything but the build. */
  lemma MatchEqual(v: Version, w: Version)
    requires WellFormed(v) && WellFormed(w)
    ensures Match(v, "==" + ToString(w)) == Success(v.(build := None) == w.(build := None))
  {
    MatchMeaning(v, "==", w);
    CompareZero(v, w);
  }

  /** `!=` and `==`, and `<` and `>=`, give opposite verdicts on every comparison result. */
  lemma JudgeComplements(res: Result<int, Error>)
    requires res.Success? ==> res.value in {-1, 0, 1}
    ensures Judge("!=", res).Success? == res.Success? == Judge("==", res).Success?
    ensures Judge("<", res).Success? == res.Success? == Judge(">=", res).Success?
    ensures res.Success? ==> Judge("!=", res).value == !Judge("==", res).value
    ensures res.Success? ==> Judge("<", res).value == !Judge(">=", res).value
  {
  }

  lemma SplitTwo(op: string, text: string)
    requires op in TwoCharOperators
    ensures SplitOperator(op + text) == Some((op, text))
  {
    assert (op + text)[..2] == op && (op + text)[2..] == text;
  }

  lemma SplitOne(c: char, text: string)
    requires c in "<>"
    requires |text| == 0 || text[0] != '='
    ensures SplitOperator([c] + text) == Some(([c], text))
  {
    var expr := [c] + text;
    assert expr[0] == c && expr[1..] == text;
    if |text| > 0 {
      assert expr[..2] == [c, text[0]];
    }
  }

  /** `!=` is the negation of `==` on every text. */
  lemma MatchNotEqual(v: Version, text: string)
    ensures Match(v, "==" + text).Success? <==> Match(v, "!=" + text).Success?
    ensures Match(v, "==" + text).Success? ==> Match(v, "!=" + text).value == !Match(v, "==" + text).value
  {
    SplitTwo("==", text);
    SplitTwo("!=", text);
    CompareToRange(v, AString(text));
    JudgeComplements(CompareTo(v, AString(text)));
  }

  /** `<` is the negation of `>=`, unless the text starts with `=` (then `"<" + text` is read as `<=`). */
  lemma MatchLessThan(v: Version, text: string)
    requires |text| == 0 || text[0] != '='
    ensures Match(v, ">=" + text).Success? <==> Match(v, "<" + text).Success?
    ensures Match(v, ">=" + text).Success? ==> Match(v, "<" + text).value == !Match(v, ">=" + text).value
  {
    SplitTwo(">=", text);
    SplitOne('<', text);
    CompareToRange(v, AString(text));
    JudgeComplements(CompareTo(v, AString(text)));
  }

  /** An expression whose operator is followed by text without a dot is refused by `compare`. */
  lemma MatchNeedsVersionString(v: Version, expr: string)
    requires SplitOperator(expr).Some? && '.' !in SplitOperator(expr).value.1
    ensures Match(v, expr) == Failure(NotAVersionString(SplitOperator(expr).value.1))
  {
  }
}
