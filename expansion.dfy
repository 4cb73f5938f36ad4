/**
 * What `expandPessimistic` does to texts of a known shape: a `~>` operand followed by
 * text that cannot extend it, text without `~`, and a `~>` that no version follows.
 * The cases of pkg/tfs/constraint_test.go are instances of these lemmas.
 */
module Expansion {
  import opened Wrappers
  import opened Strings
  import opened Versions
  import opened Constraints

  // ------------------------------------------------------------ the rewrite, piece by piece

  /** The rewrite from an index depends only on the text from that index on. */
  lemma {:induction false} RewriteSame(s: string, j: nat, t: string, k: nat, f: string -> string)
    requires j <= |s| && k <= |t| && s[j..] == t[k..]
    ensures RewriteWith(s, j, f) == RewriteWith(t, k, f)
    decreases |s| - j
  {
    assert |s| - j == |t[k..]|;
    if j < |s| {
      if Anchored(s[j..]) {
        var l := MatchLen(s[j..]);
        DropShift(s, j, t, k, l);
        RewriteSame(s, MatchEnd(s, j), t, MatchEnd(t, k), f);
        GlueMatch(s, j, t, k, f);
      } else {
        DropShift(s, j, t, k, 1);
        RewriteSame(s, j + 1, t, k + 1, f);
        GlueSkip(s, j, t, k, f);
      }
    }
  }

  lemma DropShift(s: string, j: nat, t: string, k: nat, l: nat)
    requires j + l <= |s| && k <= |t| && s[j..] == t[k..]
    ensures k + l <= |t| && s[j + l..] == t[k + l..]
  {
    assert s[j + l..] == s[j..][l..];
    assert t[k + l..] == t[k..][l..];
  }

  lemma GlueMatch(s: string, j: nat, t: string, k: nat, f: string -> string)
    requires j < |s| && k < |t| && s[j..] == t[k..] && Anchored(s[j..])
    requires RewriteWith(s, MatchEnd(s, j), f) == RewriteWith(t, MatchEnd(t, k), f)
    ensures RewriteWith(s, j, f) == RewriteWith(t, k, f)
  {
    RewriteAtMatch(s, j, f);
    RewriteAtMatch(t, k, f);
  }

  lemma GlueSkip(s: string, j: nat, t: string, k: nat, f: string -> string)
    requires j < |s| && k < |t| && s[j..] == t[k..] && !Anchored(s[j..])
    requires RewriteWith(s, j + 1, f) == RewriteWith(t, k + 1, f)
    ensures RewriteWith(s, j, f) == RewriteWith(t, k, f)
  {
    RewriteSkipsOne(s, j, NextMatch(s, j), f);
    RewriteSkipsOne(t, k, NextMatch(t, k), f);
    assert s[j] == s[j..][0];
  }

  /** A match that spans exactly `m` is replaced, and the rewrite goes on after it. */
  lemma RewriteAfterMatch(m: string, rest: string)
    requires Anchored(m + rest) && MatchLen(m + rest) == |m|
    ensures Rewrite(m + rest) == Replacement(m + rest) + Rewrite(rest)
  {
    var s := m + rest;
    assert s[0..] == s;
    assert MatchEnd(s, 0) == |m|;
    RewriteSame(s, |m|, rest, 0, Replacement);
    assert s[|m|..] == rest;
  }

  /** A character where no match starts is kept. */
  lemma RewriteKeeps(c: char, rest: string)
    requires !Anchored([c] + rest)
    ensures Rewrite([c] + rest) == [c] + Rewrite(rest)
  {
    var s := [c] + rest;
    assert s[0..] == s;
    RewriteSame(s, 1, rest, 0, Replacement);
    assert s[1..] == rest;
  }

  /** Text without `~` is copied as it is. */
  lemma {:induction false} RewritePlain(a: string, rest: string)
    requires '~' !in a
    ensures Rewrite(a + rest) == a + Rewrite(rest)
    decreases |a|
  {
    if |a| > 0 {
      var tail := a[1..] + rest;
      assert a + rest == [a[0]] + tail;
      NoTildeNoAnchor([a[0]] + tail);
      RewriteKeeps(a[0], tail);
      RewritePlain(a[1..], rest);
      assert a == [a[0]] + a[1..];
    }
  }

  /** A text without `~` is its own rewrite. */
  lemma RewriteNoTilde(s: string)
    requires '~' !in s
    ensures Rewrite(s) == s
  {
    RewritePlain(s, []);
    assert s + [] == s;
  }

  /** A `~>` that no version follows is copied, and the rewrite goes on after it. */
  lemma RewriteDangling(rest: string)
    requires !Anchored("~>" + rest)
    ensures Rewrite("~>" + rest) == "~>" + Rewrite(rest)
  {
    var t := ['>'] + rest;
    assert "~>" + rest == ['~'] + t;
    RewriteKeeps('~', t);
    NoTildeNoAnchor(t);
    RewriteKeeps('>', rest);
  }

  /** A text in which `~>` never occurs is its own rewrite: the early return of util.go agrees with the loop. */
  lemma RewriteWithoutOperator(s: string)
    requires !Contains(s, "~>")
    ensures Rewrite(s) == s
  {
    NextMatchFacts(s, 0);
    if NextMatch(s, 0) < |s| {
      var n := NextMatch(s, 0);
      assert s[n..n + 2] == s[n..][..2];
      ContainsAt(s, "~>", n);
    }
    SkipRewrite(s, 0, Replacement);
    assert s[0..|s|] == s;
  }

  // ------------------------------------------------------------ an operand and what may follow it

  /** `rest` cannot extend a token of `count` numerals: no digit, nor a further `.digit` group while one is allowed. */
  predicate Ends(count: nat, rest: string) {
    && (|rest| == 0 || !IsDigit(rest[0]))
    && (count < 3 && |rest| >= 2 && rest[0] == '.' ==> !IsDigit(rest[1]))
  }

  /** The groups `(?:\.\d+){0,k}` take exactly the dotted numerals written before `rest`. */
  lemma {:induction false} GroupsOf(ps: seq<string>, rest: string, k: nat)
    requires |ps| <= k && AllNumerals(ps)
    requires |rest| == 0 || !IsDigit(rest[0])
    requires |ps| < k && |rest| >= 2 && rest[0] == '.' ==> !IsDigit(rest[1])
    ensures GroupsLen(DotJoin(ps) + rest, k) == |DotJoin(ps)|
    ensures GroupParts(DotJoin(ps) + rest, k) == ps
    decreases |ps|
  {
    if |ps| == 0 {
      assert DotJoin(ps) + rest == rest;
      assert GroupParts(rest, k) == [];
      assert ps == [];
    } else {
      var x, ys := ps[0], ps[1..];
      assert ps == [x] + ys;
      assert IsNumeral(x);
      assert AllNumerals(ys) by {
        assert forall j :: 0 <= j < |ys| ==> ys[j] == ps[j + 1];
      }
      var tail := DotJoin(ys) + rest;
      DotJoinCons(x, ys);
      Assoc(['.'] + x, DotJoin(ys), rest);
      if |ys| > 0 {
        DotJoinCons(ys[0], ys[1..]);
        assert ys == [ys[0]] + ys[1..];
      }
      GroupsOf(ys, rest, k - 1);
      GroupOfNumeral(x, tail, k);
      assert DotJoin(ps) + rest == ['.'] + x + tail;
      assert GroupParts(['.'] + x + tail, k) == [x] + ys;
    }
  }

  /** One `.digits` group: the numeral `x`, ended by whatever is not a digit. */
  lemma GroupOfNumeral(x: string, tail: string, k: nat)
    requires k > 0 && IsNumeral(x) && (|tail| == 0 || !IsDigit(tail[0]))
    ensures var w := ['.'] + x + tail;
      && GroupsLen(w, k) == 1 + |x| + GroupsLen(tail, k - 1)
      && GroupParts(w, k) == [x] + GroupParts(tail, k - 1)
  {
    var w := ['.'] + x + tail;
    assert w[1..] == x + tail;
    DigitRunOfNumeral(x, tail);
    assert w[1 + |x|..] == tail;
    assert w[1..1 + |x|] == x;
    GroupStep(w, k, |x|, tail);
  }

  /** The token `\d+(?:\.\d+){0,2}` takes exactly the numerals written before `rest`. */
  lemma TokenOf(parts: seq<string>, rest: string)
    requires 1 <= |parts| <= 3 && AllNumerals(parts) && Ends(|parts|, rest)
    ensures var u := Join(parts, ['.']) + rest;
      TokenLen(u) == |Join(parts, ['.'])| && TokenParts(u) == parts
  {
    var x, ps := parts[0], parts[1..];
    assert parts == [x] + ps;
    JoinDot(x, ps);
    assert IsNumeral(x);
    assert AllNumerals(ps) by {
      assert forall j :: 0 <= j < |ps| ==> ps[j] == parts[j + 1];
    }
    var tail := DotJoin(ps) + rest;
    Assoc(x, DotJoin(ps), rest);
    if |ps| > 0 {
      DotJoinCons(ps[0], ps[1..]);
      assert ps == [ps[0]] + ps[1..];
    }
    GroupsOf(ps, rest, 2);
    TokenStep(x, tail);
  }

  /** The leading numeral of a token, ended by whatever is not a digit. */
  lemma TokenStep(x: string, tail: string)
    requires IsNumeral(x) && (|tail| == 0 || !IsDigit(tail[0]))
    ensures TokenLen(x + tail) == |x| + GroupsLen(tail, 2)
    ensures TokenParts(x + tail) == [x] + GroupParts(tail, 2)
  {
    var u := x + tail;
    DigitRunOfNumeral(x, tail);
    assert u[|x|..] == tail;
    assert u[..|x|] == x;
  }

  /** `~>`, then spaces, then dotted numerals that `rest` cannot extend: one match, spanning exactly that text. */
  lemma OperatorMatch(sp: string, parts: seq<string>, rest: string)
    requires AllSpaces(sp) && 1 <= |parts| <= 3 && AllNumerals(parts) && Ends(|parts|, rest)
    ensures var m := "~>" + sp + Join(parts, ['.']);
      Anchored(m + rest) && MatchLen(m + rest) == |m| && Operand(m + rest) == parts
  {
    var tok := Join(parts, ['.']);
    var t := "~>" + sp + tok + rest;
    var u := tok + rest;
    TokenOf(parts, rest);
    LeadingDigit(parts);
    DropPrefix("~>", sp, tok, rest);
    SpaceRunOfSpaces(sp, u);
    assert OperandStart(t) == 2 + |sp|;
    assert MatchAt(t).token == u[..|tok|];
    assert u[..|tok|] == tok;
    SplitNumerals(parts);
  }

  /** Dotted numerals start with a digit. */
  lemma LeadingDigit(parts: seq<string>)
    requires 1 <= |parts| && AllNumerals(parts)
    ensures |Join(parts, ['.'])| > 0 && IsDigit(Join(parts, ['.'])[0])
  {
    JoinDot(parts[0], parts[1..]);
    assert parts == [parts[0]] + parts[1..];
    assert IsNumeral(parts[0]);
  }

  /** Dotted numerals split back into the numerals. */
  lemma SplitNumerals(parts: seq<string>)
    requires 1 <= |parts| && AllNumerals(parts)
    ensures Split(Join(parts, ['.']), '.') == parts
  {
    forall k | 0 <= k < |parts| ensures '.' !in parts[k] {
      NumeralLacks(parts[k], '.');
    }
    SplitJoin(parts, '.');
  }

  /** Such an operand is replaced by its clause pair, and the rewrite goes on after it. */
  lemma RewriteOperator(sp: string, parts: seq<string>, rest: string)
    requires AllSpaces(sp) && 1 <= |parts| <= 3 && AllNumerals(parts) && Ends(|parts|, rest)
    ensures Rewrite("~>" + sp + Join(parts, ['.']) + rest) == Bounds(parts) + Rewrite(rest)
  {
    OperatorMatch(sp, parts, rest);
    RewriteAfterMatch("~>" + sp + Join(parts, ['.']), rest);
  }

  // ------------------------------------------------------------ outcomes of expandPessimistic

  /** Text in which `~>` never occurs, the empty text among them, comes back unchanged. */
  lemma ExpandWithoutOperator(expr: string)
    requires !Contains(expr, "~>")
    ensures Expand(expr) == Success(expr) && Rewrite(expr) == expr
  {
    RewriteWithoutOperator(expr);
  }

  /** A rewrite left without `~` is the result; one that keeps a `~>` is an error naming the input. */
  lemma ExpandOutcome(expr: string, out: string)
    requires Contains(expr, "~>") && Rewrite(expr) == out
    ensures '~' !in out ==> Expand(expr) == Success(out)
    ensures Contains(out, "~>") ==> Expand(expr) == Failure("invalid pessimistic constraint: " + expr)
  {
    if '~' !in out {
      NotContainsForeign(out, "~>", '~');
    }
  }

  /** A lone operand, with text after it that holds no `~`, becomes its clause pair followed by that text. */
  lemma ExpandSingle(pre: string, sp: string, parts: seq<string>, rest: string)
    requires '~' !in pre && '~' !in rest
    requires AllSpaces(sp) && 1 <= |parts| <= 3 && AllNumerals(parts) && Ends(|parts|, rest)
    ensures Expand(pre + ("~>" + sp + Join(parts, ['.']) + rest)) == Success(pre + Bounds(parts) + rest)
  {
    var expr := pre + ("~>" + sp + Join(parts, ['.']) + rest);
    RewritePlain(pre, "~>" + sp + Join(parts, ['.']) + rest);
    RewriteOperator(sp, parts, rest);
    RewriteNoTilde(rest);
    ReplacementHasNoTilde(parts);
    var out := pre + Bounds(parts) + rest;
    OccursAfter(pre, "~>", sp + Join(parts, ['.']) + rest);
    Assoc3("~>", sp, Join(parts, ['.']), rest);
    ContainsAt(expr, "~>", |pre|);
    Assoc(pre, Bounds(parts), rest);
    ExpandOutcome(expr, out);
  }

  /** Two operands, with text between and after them that holds no `~`: both are expanded, in place. */
  lemma ExpandTwo(sp1: string, p1: seq<string>, mid: string, sp2: string, p2: seq<string>, rest: string)
    requires '~' !in mid && '~' !in rest
    requires AllSpaces(sp1) && 1 <= |p1| <= 3 && AllNumerals(p1)
    requires AllSpaces(sp2) && 1 <= |p2| <= 3 && AllNumerals(p2) && Ends(|p2|, rest)
    requires Ends(|p1|, mid + ("~>" + sp2 + Join(p2, ['.']) + rest))
    ensures Expand("~>" + sp1 + Join(p1, ['.']) + (mid + ("~>" + sp2 + Join(p2, ['.']) + rest)))
      == Success(Bounds(p1) + (mid + (Bounds(p2) + rest)))
  {
    var second := "~>" + sp2 + Join(p2, ['.']) + rest;
    var expr := "~>" + sp1 + Join(p1, ['.']) + (mid + second);
    RewriteOperator(sp1, p1, mid + second);
    RewritePlain(mid, second);
    RewriteOperator(sp2, p2, rest);
    RewriteNoTilde(rest);
    ReplacementHasNoTilde(p1);
    ReplacementHasNoTilde(p2);
    OccursAfter([], "~>", sp1 + Join(p1, ['.']) + (mid + second));
    Assoc3("~>", sp1, Join(p1, ['.']), mid + second);
    ContainsAt(expr, "~>", 0);
    ExpandOutcome(expr, Bounds(p1) + (mid + (Bounds(p2) + rest)));
  }

  /** A `~>` that no version follows survives the rewrite, so the whole input is rejected. */
  lemma ExpandDangling(pre: string, rest: string)
    requires '~' !in pre && !Anchored("~>" + rest)
    ensures Expand(pre + ("~>" + rest)) == Failure("invalid pessimistic constraint: " + (pre + ("~>" + rest)))
  {
    var expr := pre + ("~>" + rest);
    RewritePlain(pre, "~>" + rest);
    RewriteDangling(rest);
    OccursAfter(pre, "~>", rest);
    ContainsAt(expr, "~>", |pre|);
    OccursAfter(pre, "~>", Rewrite(rest));
    ContainsAt(pre + ("~>" + Rewrite(rest)), "~>", |pre|);
    ExpandOutcome(expr, pre + ("~>" + Rewrite(rest)));
  }

  /** An operand that is expanded does not save a later `~>` that no version follows. */
  lemma ExpandDanglingAfter(sp: string, parts: seq<string>, mid: string, rest: string)
    requires '~' !in mid && !Anchored("~>" + rest)
    requires AllSpaces(sp) && 1 <= |parts| <= 3 && AllNumerals(parts) && Ends(|parts|, mid + ("~>" + rest))
    ensures var expr := "~>" + sp + Join(parts, ['.']) + (mid + ("~>" + rest));
      Expand(expr) == Failure("invalid pessimistic constraint: " + expr)
  {
    var expr := "~>" + sp + Join(parts, ['.']) + (mid + ("~>" + rest));
    RewriteOperator(sp, parts, mid + ("~>" + rest));
    RewritePlain(mid, "~>" + rest);
    RewriteDangling(rest);
    OccursAfter([], "~>", sp + Join(parts, ['.']) + (mid + ("~>" + rest)));
    Assoc3("~>", sp, Join(parts, ['.']), mid + ("~>" + rest));
    ContainsAt(expr, "~>", 0);
    var out := Bounds(parts) + (mid + ("~>" + Rewrite(rest)));
    Assoc(Bounds(parts), mid, "~>" + Rewrite(rest));
    OccursAfter(Bounds(parts) + mid, "~>", Rewrite(rest));
    ContainsAt(out, "~>", |Bounds(parts) + mid|);
    ExpandOutcome(expr, out);
  }

  // ------------------------------------------------------------ the three operand forms

  /** `~> X` becomes `>=X.0.0, <(X+1).0.0`; what follows the operand is kept after it. */
  lemma ExpandMajor(pre: string, sp: string, a: string, rest: string)
    requires '~' !in pre && '~' !in rest && AllSpaces(sp) && IsNumeral(a) && Ends(1, rest)
    ensures var x := DecimalValue(a);
      Expand(pre + ("~>" + sp + a + rest))
        == Success(pre + (">=" + Decimal(x) + ".0.0" + ", " + ("<" + Decimal(x + 1) + ".0.0")) + rest)
  {
    var parts := [a];
    assert AllNumerals(parts);
    assert Join(parts, ['.']) == a;
    ExpandSingle(pre, sp, parts, rest);
    BoundsOne(parts);
  }

  /** `~> X.Y` becomes `>=X.Y.0, <X.(Y+1).0`. */
  lemma ExpandMinor(pre: string, sp: string, a: string, b: string, rest: string)
    requires '~' !in pre && '~' !in rest && AllSpaces(sp) && IsNumeral(a) && IsNumeral(b) && Ends(2, rest)
    ensures var x, y := DecimalValue(a), DecimalValue(b);
      Expand(pre + ("~>" + sp + (a + "." + b) + rest))
        == Success(pre + (">=" + Decimal(x) + "." + Decimal(y) + ".0" + ", " + ("<" + Decimal(x) + "." + Decimal(y + 1) + ".0")) + rest)
  {
    var parts := [a, b];
    PairNumerals(a, b);
    JoinCons(a, [b], ['.']);
    DotsPair(a, b);
    ExpandSingle(pre, sp, parts, rest);
    BoundsTwo(parts);
    assert Part(parts, 0) == DecimalValue(a) && Part(parts, 1) == DecimalValue(b);
  }

  /** `~> X.Y.Z` becomes `>=X.Y.Z, <X.(Y+1).0`. */
  lemma ExpandPatch(pre: string, sp: string, a: string, b: string, c: string, rest: string)
    requires '~' !in pre && '~' !in rest && AllSpaces(sp) && IsNumeral(a) && IsNumeral(b) && IsNumeral(c)
    requires Ends(3, rest)
    ensures var x, y, z := DecimalValue(a), DecimalValue(b), DecimalValue(c);
      Expand(pre + ("~>" + sp + (a + "." + b + "." + c) + rest))
        == Success(pre + (">=" + Decimal(x) + "." + Decimal(y) + "." + Decimal(z) + ", " + ("<" + Decimal(x) + "." + Decimal(y + 1) + ".0")) + rest)
  {
    var parts := [a, b, c];
    TripleNumerals(a, b, c);
    JoinCons(a, [b, c], ['.']);
    assert [a] + [b, c] == parts;
    JoinCons(b, [c], ['.']);
    DotsTriple(a, b, c);
    ExpandSingle(pre, sp, parts, rest);
    BoundsThree(parts);
    assert Part(parts, 0) == DecimalValue(a) && Part(parts, 1) == DecimalValue(b) && Part(parts, 2) == DecimalValue(c);
  }

  lemma PairNumerals(a: string, b: string)
    requires IsNumeral(a) && IsNumeral(b)
    ensures AllNumerals([a, b])
  {
    var segs := [a, b];
    forall k | 0 <= k < 2 ensures IsNumeral(segs[k]) {
      if k == 0 { assert segs[k] == a; } else { assert segs[k] == b; }
    }
  }
}
