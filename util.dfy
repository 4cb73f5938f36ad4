/**
 * The remaining helpers of pkg/tfs/util.go: `versionFromFileName`, and
 * `newConstraintExtended`, which expands `~>` and hands the result to `version.NewConstraint`.
 */
module Util {
  import opened Wrappers
  import opened Strings
  import opened Versions
  import opened Constraints
  import opened Expansion
  import opened Comparators

  /** Every occurrence of the prefix removed, the rest parsed as a version. */
  function VersionFromFileName(fileName: string, prefix: string): Result<Version, string> {
    Parse(DeleteAll(fileName, prefix))
  }

  /** `expandPessimistic`, then `version.NewConstraint` on its result; an expansion error is passed on. */
  function NewConstraintExtended(expr: string): Result<seq<Clause>, string> {
    match Expand(expr)
    case Failure(e) => Failure(e)
    case Success(expanded) => ParseConstraint(expanded)
  }

  /**
   * The file name a release is cached under reads back as its version, provided the
   * prefix holds a character a printed version never does (a letter, `_`, `-`).
   */
  lemma VersionFromFileNameOf(prefix: string, v: Version, c: char)
    requires c in prefix && !IsDigit(c) && c != '.'
    ensures VersionFromFileName(prefix + ToString(v), prefix) == Success(v)
  {
    ToStringShape(v);
    NotContainsForeign(ToString(v), prefix, c);
    DeletePrefix(prefix, ToString(v));
    ParseToString(v);
  }

  /** Text without `~>` goes to `version.NewConstraint` untouched. */
  lemma NewConstraintWithoutOperator(expr: string)
    requires !Contains(expr, "~>")
    ensures NewConstraintExtended(expr) == ParseConstraint(expr)
  {
  }

  /** The clause pair is the printed form of `>=lower` and `<upper`. */
  lemma BoundsText(segs: seq<string>)
    ensures Bounds(segs) == ConstraintText([Clause(Ge, Lower(segs)), Clause(Lt, Upper(segs))])
  {
    var lo, hi := Clause(Ge, Lower(segs)), Clause(Lt, Upper(segs));
    var cs := [lo, hi];
    assert cs[1..] == [hi];
    assert ConstraintText(cs) == ClauseText(lo) + ", " + ClauseText(hi);
    SplitLiteral();
    Assoc(ClauseText(lo) + ", ", "<", ToString(Upper(segs)));
  }

  lemma SplitLiteral()
    ensures ", <" == ", " + "<" && ">=" == OpText(Ge) && "<" == OpText(Lt)
  {
  }

  /**
   * `~> X[.Y[.Z]]` on its own: the constraint is the pair `>=lower, <upper`, so it holds
   * exactly for the versions from the operand padded with zeros up to, not including,
   * the next minor (or the next major for `~> X`).
   */
  lemma PessimisticRange(sp: string, parts: seq<string>, v: Version)
    requires AllSpaces(sp) && 1 <= |parts| <= 3 && AllNumerals(parts)
    ensures var r := NewConstraintExtended("~>" + sp + Join(parts, ['.']));
      && r == Success([Clause(Ge, Lower(parts)), Clause(Lt, Upper(parts))])
      && (Check(r.value, v) <==> LessEq(Lower(parts), v) && Less(v, Upper(parts)))
  {
    var op := "~>" + sp + Join(parts, ['.']);
    ExpandSingle([], sp, parts, []);
    Empties(op);
    Empties(Bounds(parts));
    BoundsText(parts);
    ParseConstraintText([Clause(Ge, Lower(parts)), Clause(Lt, Upper(parts))]);
    CheckRange(Lower(parts), Upper(parts), v);
  }

  /** A constraint parsed as `>=lo, <hi` holds exactly from `lo` up to, not including, `hi`. */
  lemma RangeResult(r: Result<seq<Clause>, string>, lo: Version, hi: Version, v: Version)
    requires r == Success([Clause(Ge, lo), Clause(Lt, hi)])
    ensures r.Success? && (Check(r.value, v) <==> LessEq(lo, v) && Less(v, hi))
  {
    CheckRange(lo, hi, v);
  }

  lemma Empties(s: string)
    ensures [] + (s + []) == s && [] + s + [] == s
  {
  }

  /** `~> X` holds exactly for X.0.0 <= v < (X+1).0.0, where the numeral `a` reads `x`. */
  lemma {:induction false} PessimisticMajor(sp: string, a: string, x: nat, v: Version)
    requires AllSpaces(sp) && IsNumeral(a) && x == DecimalValue(a)
    ensures var r := NewConstraintExtended("~>" + sp + a);
      r.Success? && (Check(r.value, v) <==> LessEq(Version(x, 0, 0), v) && Less(v, Version(x + 1, 0, 0)))
  {
    MajorParts(a, x);
    PessimisticRange(sp, [a], v);
    RangeResult(NewConstraintExtended("~>" + sp + a), Version(x, 0, 0), Version(x + 1, 0, 0), v);
  }

  lemma MajorParts(a: string, x: nat)
    requires IsNumeral(a) && x == DecimalValue(a)
    ensures AllNumerals([a]) && Join([a], ['.']) == a
    ensures Lower([a]) == Version(x, 0, 0) && Upper([a]) == Version(x + 1, 0, 0)
  {
    assert Part([a], 0) == x;
  }

  /** `~> X.Y` holds exactly for X.Y.0 <= v < X.(Y+1).0. */
  lemma {:induction false} PessimisticMinor(sp: string, a: string, b: string, x: nat, y: nat, v: Version)
    requires AllSpaces(sp) && IsNumeral(a) && IsNumeral(b) && x == DecimalValue(a) && y == DecimalValue(b)
    ensures var r := NewConstraintExtended("~>" + sp + (a + "." + b));
      r.Success? && (Check(r.value, v) <==> LessEq(Version(x, y, 0), v) && Less(v, Version(x, y + 1, 0)))
  {
    var parts := [a, b];
    PairNumerals(a, b);
    JoinCons(a, [b], ['.']);
    DotsPair(a, b);
    PessimisticRange(sp, parts, v);
    assert Part(parts, 0) == x && Part(parts, 1) == y;
    var lo, hi := Version(x, y, 0), Version(x, y + 1, 0);
    assert Lower(parts) == lo && Upper(parts) == hi;
    RangeResult(NewConstraintExtended("~>" + sp + (a + "." + b)), lo, hi, v);
  }

  /** `~> X.Y.Z` holds exactly for X.Y.Z <= v < X.(Y+1).0. */
  lemma {:induction false} PessimisticPatch(sp: string, a: string, b: string, c: string, x: nat, y: nat, z: nat, v: Version)
    requires AllSpaces(sp) && IsNumeral(a) && IsNumeral(b) && IsNumeral(c)
    requires x == DecimalValue(a) && y == DecimalValue(b) && z == DecimalValue(c)
    ensures var r := NewConstraintExtended("~>" + sp + (a + "." + b + "." + c));
      r.Success? && (Check(r.value, v) <==> LessEq(Version(x, y, z), v) && Less(v, Version(x, y + 1, 0)))
  {
    var parts := [a, b, c];
    TripleNumerals(a, b, c);
    JoinCons(a, [b, c], ['.']);
    assert [a] + [b, c] == parts;
    JoinCons(b, [c], ['.']);
    DotsTriple(a, b, c);
    PessimisticRange(sp, parts, v);
    assert Part(parts, 0) == x && Part(parts, 1) == y && Part(parts, 2) == z;
    var lo, hi := Version(x, y, z), Version(x, y + 1, 0);
    assert Lower(parts) == lo && Upper(parts) == hi;
    RangeResult(NewConstraintExtended("~>" + sp + (a + "." + b + "." + c)), lo, hi, v);
  }
}
