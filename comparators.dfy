/**
 * The part of go-version's `NewConstraint` and `Constraints.Check` that the expanded
 * constraints rely on: the text is split on `,`; each clause is
 * `\s*(=|!=|>|<|>=|<=|)\s*version\s*`; a list holds for a version when every clause does.
 */
module Comparators {
  import opened Wrappers
  import opened Strings
  import opened Versions

  datatype Op = Eq | Ne | Gt | Lt | Ge | Le

  datatype Clause = Clause(op: Op, version: Version)

  function OpText(op: Op): string {
    match op
    case Eq => "="
    case Ne => "!="
    case Gt => ">"
    case Lt => "<"
    case Ge => ">="
    case Le => "<="
  }

  /**
   * The operator at the start of `t` and its length. A two-character operator wins over
   * its one-character prefix, because what is left after `>` or `<` would then start `=`,
   * which no version does; no operator at all means `=`.
   */
  function OperatorOf(t: string): (r: (Op, nat))
    ensures r.1 <= |t|
  {
    if |t| >= 2 && t[1] == '=' && t[0] == '!' then (Ne, 2)
    else if |t| >= 2 && t[1] == '=' && t[0] == '>' then (Ge, 2)
    else if |t| >= 2 && t[1] == '=' && t[0] == '<' then (Le, 2)
    else if |t| >= 1 && t[0] == '>' then (Gt, 1)
    else if |t| >= 1 && t[0] == '<' then (Lt, 1)
    else if |t| >= 1 && t[0] == '=' then (Eq, 1)
    else (Eq, 0)
  }

  /** The text without its leading `\s` characters. */
  function TrimLeft(s: string): (t: string)
    ensures t == s[SpaceRun(s)..]
  {
    s[SpaceRun(s)..]
  }

  /** The text without its trailing `\s` characters. */
  function TrimRight(s: string): (t: string)
    ensures |t| <= |s| && t == s[..|t|]
    ensures |t| == 0 || !IsSpace(t[|t| - 1])
    ensures forall i :: |t| <= i < |s| ==> IsSpace(s[i])
    decreases |s|
  {
    if |s| > 0 && IsSpace(s[|s| - 1]) then TrimRight(s[..|s| - 1]) else s
  }

  /** One clause; a clause that does not parse is reported with its own text. */
  function ParseClause(c: string): Result<Clause, string> {
    var t := TrimRight(TrimLeft(c));
    var (op, n) := OperatorOf(t);
    match Parse(TrimLeft(t[n..]))
    case Success(v) => Success(Clause(op, v))
    case Failure(_) => Failure("Malformed constraint: " + c)
  }

  /** Each text parsed in order; the first one that does not parse decides the error. */
  function ParseEach<T>(cs: seq<string>, parse: string -> Result<T, string>): Result<seq<T>, string> {
    if |cs| == 0 then Success([])
    else
      match parse(cs[0])
      case Failure(e) => Failure(e)
      case Success(c) =>
        match ParseEach(cs[1..], parse)
        case Failure(e) => Failure(e)
        case Success(rest) => Success([c] + rest)
  }

  /** The list parses exactly when every text does, and then each text gives its entry. */
  lemma {:induction false} ParseEachMeaning<T>(cs: seq<string>, parse: string -> Result<T, string>)
    ensures ParseEach(cs, parse).Success? <==> forall i :: 0 <= i < |cs| ==> parse(cs[i]).Success?
    ensures ParseEach(cs, parse).Success? ==> var r := ParseEach(cs, parse).value;
      |r| == |cs| && forall i :: 0 <= i < |cs| ==> parse(cs[i]) == Success(r[i])
  {
    if |cs| > 0 {
      ParseEachMeaning(cs[1..], parse);
      assert forall i :: 1 <= i < |cs| ==> cs[i] == cs[1..][i - 1];
    }
  }

  /** The clauses of a constraint, in order. */
  function ParseClauses(cs: seq<string>): Result<seq<Clause>, string> {
    ParseEach(cs, ParseClause)
  }

  /** `version.NewConstraint`. */
  function ParseConstraint(s: string): Result<seq<Clause>, string> {
    ParseClauses(Split(s, ','))
  }

  predicate Holds(c: Clause, v: Version) {
    match c.op
    case Eq => v == c.version
    case Ne => v != c.version
    case Gt => Less(c.version, v)
    case Lt => Less(v, c.version)
    case Ge => LessEq(c.version, v)
    case Le => LessEq(v, c.version)
  }

  /** `Constraints.Check`: every clause holds. */
  predicate Check(cs: seq<Clause>, v: Version) {
    forall i :: 0 <= i < |cs| ==> Holds(cs[i], v)
  }

  // ------------------------------------------------------------ printing clauses

  function ClauseText(c: Clause): string {
    OpText(c.op) + ToString(c.version)
  }

  /** Clauses printed and separated by `", "`. */
  function ConstraintText(cs: seq<Clause>): string {
    if |cs| == 0 then ""
    else if |cs| == 1 then ClauseText(cs[0])
    else ClauseText(cs[0]) + ", " + ConstraintText(cs[1..])
  }

  /** A printed version is digits and dots, starting and ending with a digit. */
  lemma ToStringShape(v: Version)
    ensures var t := ToString(v);
      && |t| > 0 && IsDigit(t[0]) && IsDigit(t[|t| - 1])
      && forall i :: 0 <= i < |t| ==> IsDigit(t[i]) || t[i] == '.'
  {
    var a, b, c := Decimal(v.major), Decimal(v.minor), Decimal(v.patch);
    DotsTriple(a, b, c);
    assert ToString(v) == a + ['.'] + (b + ['.'] + c);
  }

  /** An operator is followed by the version: the operator read back is the one printed. */
  lemma OperatorOfText(op: Op, rest: string)
    requires |rest| > 0 && IsDigit(rest[0])
    ensures OperatorOf(OpText(op) + rest) == (op, |OpText(op)|)
  {
    var t := OpText(op) + rest;
    assert t[|OpText(op)|] == rest[0];
  }

  /** A printed clause, after any spaces, parses back to the clause. */
  lemma ParseClauseText(lead: string, c: Clause)
    requires AllSpaces(lead)
    ensures ParseClause(lead + ClauseText(c)) == Success(c)
  {
    var text := ClauseText(c);
    var vt := ToString(c.version);
    ToStringShape(c.version);
    assert text[0] == OpText(c.op)[0];
    SpaceRunOfSpaces(lead, text);
    assert TrimLeft(lead + text) == text;
    assert text[|text| - 1] == vt[|vt| - 1];
    assert TrimRight(text) == text;
    OperatorOfText(c.op, vt);
    assert text[|OpText(c.op)|..] == vt;
    SpaceRunOfSpaces([], vt);
    assert TrimLeft(vt) == vt;
    ParseToString(c.version);
  }

  /** A printed clause holds no `,`, so splitting on `,` cannot cut it. */
  lemma ClauseTextLacksComma(c: Clause)
    ensures ',' !in ClauseText(c)
  {
    ToStringShape(c.version);
  }

  /** Printing a non-empty list of clauses and parsing it back gives the same list. */
  lemma ParseConstraintText(cs: seq<Clause>)
    requires |cs| >= 1
    ensures ParseConstraint(ConstraintText(cs)) == Success(cs)
  {
    ParseClausesText([], cs);
    assert [] + ConstraintText(cs) == ConstraintText(cs);
  }

  lemma {:induction false} ParseClausesText(lead: string, cs: seq<Clause>)
    requires AllSpaces(lead) && |cs| >= 1
    ensures ParseClauses(Split(lead + ConstraintText(cs), ',')) == Success(cs)
    decreases |cs|
  {
    var first := lead + ClauseText(cs[0]);
    ClauseTextLacksComma(cs[0]);
    assert ',' !in first by {
      assert ',' !in lead;
    }
    ParseClauseText(lead, cs[0]);
    HeadTail(cs);
    if |cs| == 1 {
      SplitWhole(first, ',');
      ClausesCons(first, [], cs[0], []);
      assert [first] + [] == [first];
    } else {
      var more := " " + ConstraintText(cs[1..]);
      CommaSpace();
      Regroup5(lead, ClauseText(cs[0]), [','], " ", ConstraintText(cs[1..]));
      SplitAt(first, more, ',');
      ParseClausesText(" ", cs[1..]);
      ClausesCons(first, Split(more, ','), cs[0], cs[1..]);
    }
  }

  lemma ClausesCons(x: string, xs: seq<string>, c: Clause, rest: seq<Clause>)
    requires ParseClause(x) == Success(c) && ParseClauses(xs) == Success(rest)
    ensures ParseClauses([x] + xs) == Success([c] + rest)
  {
    EachCons(x, xs, ParseClause, c, rest);
  }

  lemma EachCons<T>(x: string, xs: seq<string>, parse: string -> Result<T, string>, c: T, rest: seq<T>)
    requires parse(x) == Success(c) && ParseEach(xs, parse) == Success(rest)
    ensures ParseEach([x] + xs, parse) == Success([c] + rest)
  {
    assert ([x] + xs)[0] == x && ([x] + xs)[1..] == xs;
  }

  lemma CommaSpace()
    ensures ", " == [','] + " "
  {
  }

  lemma Regroup5<T>(l: seq<T>, c: seq<T>, x: seq<T>, y: seq<T>, r: seq<T>)
    ensures l + ((c + (x + y)) + r) == ((l + c) + x) + (y + r)
  {
  }

  /** The pair `>=lo, <hi` holds exactly for the versions from `lo` up to, not including, `hi`. */
  lemma CheckRange(lo: Version, hi: Version, v: Version)
    ensures Check([Clause(Ge, lo), Clause(Lt, hi)], v) <==> LessEq(lo, v) && Less(v, hi)
  {
    var cs := [Clause(Ge, lo), Clause(Lt, hi)];
    if LessEq(lo, v) && Less(v, hi) {
      forall i | 0 <= i < 2 ensures Holds(cs[i], v) {
        if i == 0 { assert cs[i] == Clause(Ge, lo); } else { assert cs[i] == Clause(Lt, hi); }
      }
    } else {
      assert !Holds(cs[0], v) || !Holds(cs[1], v);
    }
  }
}
