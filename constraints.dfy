/**
 * Terraform's pessimistic operator `~>` and its translation into go-version comparators
 * (pkg/tfs/util.go): the matcher for `~>\s*(\d+(?:\.\d+){0,2})`, the in-place rewrite it
 * drives, the imperative `expandPessimistic`, and the comparator semantics that the
 * expanded text is given by `version.NewConstraint`.
 */
module Constraints {
  import opened Wrappers
  import opened Strings
  import opened Versions

  // ------------------------------------------------------------ the regular expression

  /** Length of `(?:\.\d+){0,k}` matched greedily at the start of `w`. */
  function GroupsLen(w: string, k: nat): (n: nat)
    ensures n <= |w|
    decreases k
  {
    if k > 0 && |w| >= 2 && w[0] == '.' && IsDigit(w[1]) then
      var d := DigitRun(w[1..]);
      1 + d + GroupsLen(w[1 + d..], k - 1)
    else 0
  }

  /** The digit runs of the groups that `GroupsLen` consumes. */
  function GroupParts(w: string, k: nat): (parts: seq<string>)
    ensures |parts| <= k
    decreases k
  {
    if k > 0 && |w| >= 2 && w[0] == '.' && IsDigit(w[1]) then
      var d := DigitRun(w[1..]);
      [w[1..1 + d]] + GroupParts(w[1 + d..], k - 1)
    else []
  }

  lemma {:induction false} GroupPartsNumerals(w: string, k: nat)
    ensures AllNumerals(GroupParts(w, k))
    decreases k
  {
    if k > 0 && |w| >= 2 && w[0] == '.' && IsDigit(w[1]) {
      var d := DigitRun(w[1..]);
      DigitRunDigits(w[1..]);
      GroupPartsNumerals(w[1 + d..], k - 1);
      assert IsNumeral(w[1..1 + d]) by {
        assert forall i :: 0 <= i < d ==> w[1..1 + d][i] == w[1..][i];
      }
    }
  }

  /** `.p1.p2...`: each part preceded by a dot. */
  function DotJoin(parts: seq<string>): string {
    if |parts| == 0 then "" else ['.'] + parts[0] + DotJoin(parts[1..])
  }

  /** Length of the greedy `\d+(?:\.\d+){0,2}` at the start of `u`. */
  function TokenLen(u: string): (n: nat)
    ensures n <= |u|
  {
    var d := DigitRun(u);
    d + GroupsLen(u[d..], 2)
  }

  /** The numerals of that token: the first run, then up to two groups. */
  function TokenParts(u: string): seq<string> {
    var d := DigitRun(u);
    [u[..d]] + GroupParts(u[d..], 2)
  }

  /** Where the operand starts in a text that begins with `~>`: after `\s*`. */
  function OperandStart(t: string): (i: nat)
    requires |t| >= 2
    ensures 2 <= i <= |t|
  {
    2 + SpaceRun(t[2..])
  }

  /** The pattern matches at the very start of `t`. */
  predicate Anchored(t: string) {
    && |t| >= 2 && t[0] == '~' && t[1] == '>'
    && OperandStart(t) < |t| && IsDigit(t[OperandStart(t)])
  }

  /**
   * The pattern fails at the start of `t`, and this is decided by the characters of
   * `t` alone, so it fails at the start of every extension of `t` too.
   */
  predicate NoAnchor(t: string) {
    && |t| >= 1
    && (t[0] != '~'
        || (|t| >= 2 && (t[1] != '>' || (OperandStart(t) < |t| && !IsDigit(t[OperandStart(t)])))))
  }

  /** Number of characters the leftmost match consumes. */
  function MatchLen(t: string): (n: nat)
    requires Anchored(t)
    ensures OperandStart(t) < n <= |t|
  {
    var i := OperandStart(t);
    i + TokenLen(t[i..])
  }

  /** One result of `FindAllStringSubmatch`: the whole match and capture group 1. */
  datatype Submatch = Submatch(full: string, token: string)

  function MatchAt(t: string): Submatch
    requires Anchored(t)
  {
    Submatch(t[..MatchLen(t)], t[OperandStart(t)..MatchLen(t)])
  }

  /** Where the match starting at index `p` of `s` ends. */
  function MatchEnd(s: string, p: nat): (q: nat)
    requires p < |s| && Anchored(s[p..])
    ensures p < q <= |s|
  {
    p + MatchLen(s[p..])
  }

  /**
   * `FindAllStringSubmatch(s, -1)` from index `p` on: leftmost matches, left to right,
   * not overlapping; the scan resumes where the previous match ended.
   */
  function FindAllFrom(s: string, p: nat): seq<Submatch>
    requires p <= |s|
    decreases |s| - p
  {
    if p == |s| then []
    else if Anchored(s[p..]) then [MatchAt(s[p..])] + FindAllFrom(s, MatchEnd(s, p))
    else FindAllFrom(s, p + 1)
  }

  function FindAll(s: string): seq<Submatch> {
    FindAllFrom(s, 0)
  }

  // ------------------------------------------------------------ the rewrite

  /** The version `~> X[.Y[.Z]]` starts at: the operand padded with zeros. */
  function Lower(segs: seq<string>): Version {
    Version(Part(segs, 0), Part(segs, 1), Part(segs, 2))
  }

  /** The first version `~> X[.Y[.Z]]` excludes: the next major for `X`, the next minor otherwise. */
  function Upper(segs: seq<string>): Version {
    if |segs| == 1 then Version(Part(segs, 0) + 1, 0, 0)
    else Version(Part(segs, 0), Part(segs, 1) + 1, 0)
  }

  /** The clause pair that replaces one `~>` operand. */
  function Bounds(segs: seq<string>): string {
    ">=" + ToString(Lower(segs)) + ", <" + ToString(Upper(segs))
  }

  /** The numerals of the token that the match at the start of `t` captures. */
  function Operand(t: string): seq<string>
    requires Anchored(t)
  {
    Split(MatchAt(t).token, '.')
  }

  /** The captured token is one to three numerals. */
  lemma OperandShape(t: string)
    requires Anchored(t)
    ensures var segs := Operand(t); 1 <= |segs| <= 3 && AllNumerals(segs)
  {
    var u := t[OperandStart(t)..];
    TokenShape(u);
    assert MatchAt(t).token == u[..TokenLen(u)];
  }

  /**
   * From index `p` on, every match of the pattern replaced, in place, by `f` of the text
   * it starts; the text between matches is kept verbatim.
   */
  function RewriteWith(s: string, p: nat, f: string -> string): string
    requires p <= |s|
    decreases |s| - p
  {
    if p == |s| then ""
    else if Anchored(s[p..]) then f(s[p..]) + RewriteWith(s, MatchEnd(s, p), f)
    else [s[p]] + RewriteWith(s, p + 1, f)
  }

  /** The clause pair for the match at the start of `t` (nothing where there is none). */
  function Replacement(t: string): string {
    if Anchored(t) then Bounds(Operand(t)) else ""
  }

  /** Every `~>` operand replaced by its clause pair. */
  function Rewrite(s: string): string {
    RewriteWith(s, 0, Replacement)
  }

  /** What `expandPessimistic` computes: the rewrite, rejected if a `~>` survives it. */
  function Expand(expr: string): Result<string, string> {
    if !Contains(expr, "~>") then Success(expr)
    else if Contains(Rewrite(expr), "~>") then Failure("invalid pessimistic constraint: " + expr)
    else Success(Rewrite(expr))
  }

  // ------------------------------------------------------------ lemmas about the matcher

  lemma {:induction false} DigitRunAppend(a: string, b: string)
    requires DigitRun(a) < |a|
    ensures DigitRun(a + b) == DigitRun(a)
  {
    if |a| > 0 && IsDigit(a[0]) {
      assert (a + b)[1..] == a[1..] + b;
      DigitRunAppend(a[1..], b);
    }
  }

  lemma {:induction false} SpaceRunAppend(a: string, b: string)
    requires SpaceRun(a) < |a|
    ensures SpaceRun(a + b) == SpaceRun(a)
  {
    if |a| > 0 && IsSpace(a[0]) {
      assert (a + b)[1..] == a[1..] + b;
      SpaceRunAppend(a[1..], b);
    }
  }

  /** The digit run of a numeral followed by a non-digit is the numeral. */
  lemma {:induction false} DigitRunOfNumeral(n: string, y: string)
    requires forall i :: 0 <= i < |n| ==> IsDigit(n[i])
    requires |y| == 0 || !IsDigit(y[0])
    ensures DigitRun(n + y) == |n|
  {
    if |n| > 0 {
      assert (n + y)[1..] == n[1..] + y;
      DigitRunOfNumeral(n[1..], y);
    }
  }

  lemma {:induction false} GroupsConsumed(w: string, k: nat)
    ensures w[..GroupsLen(w, k)] == DotJoin(GroupParts(w, k))
    decreases k
  {
    if k > 0 && |w| >= 2 && w[0] == '.' && IsDigit(w[1]) {
      var d := DigitRun(w[1..]);
      var rest := w[1 + d..];
      GroupsConsumed(rest, k - 1);
      GroupStep(w, k, d, rest);
      DotJoinCons(w[1..1 + d], GroupParts(rest, k - 1));
      ConsumedStep(w, d, GroupsLen(rest, k - 1), DotJoin(GroupParts(rest, k - 1)));
    }
  }

  /** One group consumed: a dot, a digit run of length `d`, then the groups of `rest`. */
  lemma GroupStep(w: string, k: nat, d: nat, rest: string)
    requires k > 0 && |w| >= 2 && w[0] == '.' && IsDigit(w[1])
    requires d == DigitRun(w[1..]) && rest == w[1 + d..]
    ensures GroupsLen(w, k) == 1 + d + GroupsLen(rest, k - 1)
    ensures GroupParts(w, k) == [w[1..1 + d]] + GroupParts(rest, k - 1)
  {
  }

  lemma ConsumedStep(w: string, d: nat, g: nat, tail: string)
    requires 1 + d + g <= |w| && w[0] == '.' && w[1 + d..][..g] == tail
    ensures w[..1 + d + g] == ['.'] + w[1..1 + d] + tail
  {
    PrefixSplit(w, 1 + d, g);
    assert w[..1 + d] == ['.'] + w[1..1 + d];
  }

  lemma DotJoinCons(x: string, ps: seq<string>)
    ensures DotJoin([x] + ps) == ['.'] + x + DotJoin(ps)
  {
    assert ([x] + ps)[1..] == ps;
  }

  lemma {:induction false} JoinDot(a: string, ps: seq<string>)
    ensures Join([a] + ps, ['.']) == a + DotJoin(ps)
    decreases |ps|
  {
    if |ps| > 0 {
      JoinDot(ps[0], ps[1..]);
      assert ([a] + ps)[1..] == [ps[0]] + ps[1..];
    }
  }

  /** The token's text is its numerals joined by dots. */
  lemma TokenText(u: string)
    ensures Join(TokenParts(u), ['.']) == u[..TokenLen(u)]
  {
    var d := DigitRun(u);
    var w := u[d..];
    GroupsConsumed(w, 2);
    JoinDot(u[..d], GroupParts(w, 2));
    PrefixSplit(u, d, GroupsLen(w, 2));
  }

  /** A token that starts with a digit has one to three numerals, none holding a dot. */
  lemma TokenNumerals(u: string)
    requires |u| > 0 && IsDigit(u[0])
    ensures var parts := TokenParts(u);
      && 1 <= |parts| <= 3 && AllNumerals(parts)
      && forall k :: 0 <= k < |parts| ==> '.' !in parts[k]
  {
    var d := DigitRun(u);
    var parts := TokenParts(u);
    DigitRunDigits(u);
    GroupPartsNumerals(u[d..], 2);
    assert IsNumeral(u[..d]);
    forall k | 0 <= k < |parts| ensures '.' !in parts[k] {
      NumeralLacks(parts[k], '.');
    }
  }

  /** The token is one to three numerals joined by dots, and splitting it recovers them. */
  lemma TokenShape(u: string)
    requires |u| > 0 && IsDigit(u[0])
    ensures var parts := TokenParts(u);
      && 1 <= |parts| <= 3 && AllNumerals(parts)
      && Split(u[..TokenLen(u)], '.') == parts
  {
    TokenText(u);
    TokenNumerals(u);
    SplitJoin(TokenParts(u), '.');
  }

  /** A match found at the start of `x` is found at the start of every extension of `x`. */
  lemma AnchoredExtends(x: string, y: string)
    requires Anchored(x)
    ensures Anchored(x + y)
  {
    var t := x + y;
    assert t[2..] == x[2..] + y;
    SpaceRunAppend(x[2..], y);
  }

  /** A decisive failure stays a failure however the text continues. */
  lemma NoAnchorExtends(t: string, y: string)
    requires NoAnchor(t)
    ensures NoAnchor(t + y) && !Anchored(t + y)
  {
    if |t| >= 2 && t[0] == '~' && t[1] == '>' {
      assert (t + y)[2..] == t[2..] + y;
      SpaceRunAppend(t[2..], y);
    }
  }

  /** A run that stops inside `a` stops at the same place in `a` alone. */
  lemma {:induction false} SpaceRunPrefix(a: string, b: string)
    requires SpaceRun(a + b) < |a|
    ensures SpaceRun(a) == SpaceRun(a + b)
  {
    if |a| > 0 && IsSpace(a[0]) {
      assert (a + b)[1..] == a[1..] + b;
      SpaceRunPrefix(a[1..], b);
    }
  }

  /** The whole match is itself anchored: the spaces and the first digit lie inside it. */
  lemma MatchAnchored(t: string)
    requires Anchored(t)
    ensures Anchored(MatchAt(t).full)
  {
    var n := MatchLen(t);
    var a := t[2..n];
    assert t[2..] == a + t[n..];
    SpaceRunPrefix(a, t[n..]);
    assert MatchAt(t).full[2..] == a;
  }

  /** A text without `~` is never where a match starts. */
  lemma NoTildeNoAnchor(t: string)
    requires |t| > 0 && t[0] != '~'
    ensures NoAnchor(t)
  {
  }

  /** Where the next match at or after `p` starts, or `|s|` when there is none. */
  function NextMatch(s: string, p: nat): (q: nat)
    requires p <= |s|
    ensures p <= q <= |s|
    decreases |s| - p
  {
    if p == |s| || Anchored(s[p..]) then p else NextMatch(s, p + 1)
  }

  /** The skipped positions are not match starts, and the next match (if any) starts where the skip ends. */
  lemma {:induction false} NextMatchFacts(s: string, p: nat)
    requires p <= |s|
    ensures forall q {:trigger Anchored(s[q..])} :: p <= q < NextMatch(s, p) ==> !Anchored(s[q..])
    ensures NextMatch(s, p) < |s| ==> Anchored(s[NextMatch(s, p)..])
    decreases |s| - p
  {
    if p < |s| && !Anchored(s[p..]) {
      NextMatchFacts(s, p + 1);
    }
  }

  /** Skipping to the next match start changes neither the matches found ... */
  lemma {:induction false} SkipFind(s: string, p: nat)
    requires p <= |s|
    ensures FindAllFrom(s, p) == FindAllFrom(s, NextMatch(s, p))
    decreases |s| - p
  {
    if p < |s| && !Anchored(s[p..]) {
      SkipFind(s, p + 1);
    }
  }

  /** ... nor the rewrite, which keeps the skipped text verbatim. */
  lemma {:induction false} SkipRewrite(s: string, p: nat, f: string -> string)
    requires p <= |s|
    ensures RewriteWith(s, p, f) == s[p..NextMatch(s, p)] + RewriteWith(s, NextMatch(s, p), f)
    decreases |s| - p
  {
    var n := NextMatch(s, p);
    if p < |s| && !Anchored(s[p..]) {
      SkipRewrite(s, p + 1, f);
      RewriteSkipsOne(s, p, n, f);
      SliceCons(s, p, n);
      Assoc([s[p]], s[p + 1..n], RewriteWith(s, n, f));
    } else {
      assert s[p..n] == [];
    }
  }

  /** Where no match starts, the rewrite keeps the character and the next match is unchanged. */
  lemma RewriteSkipsOne(s: string, p: nat, n: nat, f: string -> string)
    requires p < |s| && !Anchored(s[p..]) && n == NextMatch(s, p)
    ensures RewriteWith(s, p, f) == [s[p]] + RewriteWith(s, p + 1, f)
    ensures NextMatch(s, p + 1) == n
  {
  }

  /** Everything the loop has already written can never start a match. */
  ghost predicate Clean(d: string) {
    forall q {:trigger NoAnchor(d[q..])} :: 0 <= q < |d| ==> NoAnchor(d[q..])
  }

  /**
   * Text skipped before a match (so not a match start while a `~` followed it), then a
   * replacement beginning `>=`: the pattern still fails at every position of the
   * skipped text, decisively.
   */
  lemma GapBeforeReplacement(g: string, y: string, repl: string)
    requires |g| >= 1 && |y| >= 1 && y[0] == '~' && !Anchored(g + y)
    requires |repl| >= 2 && repl[0] == '>' && repl[1] == '='
    ensures NoAnchor(g + repl)
  {
    var t := g + repl;
    if g[0] == '~' && |g| >= 2 && g[1] == '>' {
      var gy := g + y;
      assert gy[2..] == g[2..] + y && t[2..] == g[2..] + repl;
      var sp := SpaceRun(g[2..]);
      if 2 + sp < |g| {
        SpaceRunAppend(g[2..], y);
        SpaceRunAppend(g[2..], repl);
      } else {
        SpaceRunSpaces(g[2..]);
        SpaceRunOfSpaces(g[2..], y);
        SpaceRunOfSpaces(g[2..], repl);
      }
    } else if g[0] == '~' && |g| == 1 {
      assert t[2..] == repl[1..];
    }
  }

  lemma CleanStep(done: string, gap: string, y: string, repl: string)
    requires Clean(done)
    requires |y| >= 1 && y[0] == '~'
    requires forall q {:trigger Anchored(gap[q..] + y)} :: 0 <= q < |gap| ==> !Anchored(gap[q..] + y)
    requires |repl| >= 2 && repl[0] == '>' && repl[1] == '=' && '~' !in repl
    ensures Clean(done + gap + repl)
  {
    var d := done + gap + repl;
    forall q | 0 <= q < |d| ensures NoAnchor(d[q..]) {
      if q < |done| {
        assert d[q..] == done[q..] + (gap + repl);
        NoAnchorExtends(done[q..], gap + repl);
      } else if q < |done| + |gap| {
        var g := gap[q - |done|..];
        assert d[q..] == g + repl;
        GapBeforeReplacement(g, y, repl);
      } else {
        assert d[q..] == repl[q - |done| - |gap|..];
        assert d[q] == repl[q - |done| - |gap|];
      }
    }
  }

  /** An anchored text occurs only where the pattern matches. */
  lemma OccursOnlyAtMatch(out: string, full: string, j: nat)
    requires j <= |out| && Anchored(full) && !Anchored(out[j..])
    ensures !OccursAt(out, full, j)
  {
    if OccursAt(out, full, j) {
      assert out[j..] == full + out[j + |full|..];
      AnchoredExtends(full, out[j + |full|..]);
    }
  }

  /** No position before the next match, in the text built so far, starts a match. */
  lemma NoMatchBefore(done: string, s: string, p: nat, j: nat)
    requires Clean(done) && p <= |s|
    requires j < |done| + NextMatch(s, p) - p
    ensures !Anchored((done + s[p..])[j..])
  {
    var out := done + s[p..];
    if j < |done| {
      assert out[j..] == done[j..] + s[p..];
      NoAnchorExtends(done[j..], s[p..]);
    } else {
      NextMatchFacts(s, p);
      assert out[j..] == s[j - |done| + p..];
    }
  }

  /** The whole text of a match at `n` occurs in `s` at `n`. */
  lemma MatchOccurs(s: string, n: nat, full: string)
    requires n <= |s| && Anchored(s[n..]) && full == MatchAt(s[n..]).full
    ensures OccursAt(s, full, n)
    ensures |full| == MatchLen(s[n..])
  {
    var m := MatchLen(s[n..]);
    assert full == s[n..][0..m];
    SliceOfSuffix(s, n, 0, m);
  }

  /** `strings.Index(done + s[p..], full)` lands on the next match. */
  lemma FirstOccurrence(done: string, s: string, p: nat, n: nat, full: string)
    requires Clean(done) && p <= |s| && n == NextMatch(s, p) && n < |s| && Anchored(s[n..])
    requires full == MatchAt(s[n..]).full
    ensures IndexOf(done + s[p..], full) == Some(|done| + n - p)
  {
    MatchOccurs(s, n, full);
    OccursInSuffix(done, s, p, n, full);
    NoEarlierOccurrence(done, s, p, n, full);
    var out := done + s[p..];
    var i := |done| + n - p;
    assert OccursAt(out, full, i) && forall j :: 0 <= j < i ==> !OccursAt(out, full, j);
    IndexOfFirst(out, full, i);
  }

  /** Neither the text already written nor the skipped text holds the match's text. */
  lemma NoEarlierOccurrence(done: string, s: string, p: nat, n: nat, full: string)
    requires Clean(done) && p <= |s| && n == NextMatch(s, p) && n < |s| && Anchored(s[n..])
    requires full == MatchAt(s[n..]).full
    ensures forall j :: 0 <= j < |done| + n - p ==> !OccursAt(done + s[p..], full, j)
  {
    var out := done + s[p..];
    MatchAnchored(s[n..]);
    forall j | 0 <= j < |done| + n - p ensures !OccursAt(out, full, j) {
      NoMatchBefore(done, s, p, j);
      OccursOnlyAtMatch(out, full, j);
    }
  }

  // ------------------------------------------------------------ expandPessimistic

  /**
   * The loop of util.go: each match found in the original text is located again in the
   * text built so far with `strings.Replace(out, full, replacement, 1)`.
   */
  method ExpandPessimistic(expr: string) returns (out: string, err: Option<string>)
    ensures !Contains(expr, "~>") ==> out == expr && err == None
    ensures err.None? ==> !Contains(out, "~>")
    ensures err.Some? ==> out == expr
    ensures Expand(expr) == if err.None? then Success(out) else Failure(err.value)
  {
    if !Contains(expr, "~>") {
      return expr, None;
    }
    out := ReplaceMatches(expr);
    if Contains(out, "~>") {
      return expr, Some("invalid pessimistic constraint: " + expr);
    }
    return out, None;
  }

  /**
   * The loop of `expandPessimistic`: every match found in the original text is
   * located again in the text built so far and replaced there with
   * `strings.Replace(out, full, replacement, 1)`.
   */
  method ReplaceMatches(expr: string) returns (out: string)
    ensures out == Rewrite(expr)
  {
    out := expr;
    var matches := FindAll(expr);
    LoopStart(expr);
    ghost var target := Rewrite(expr);
    ghost var done: string := [];
    ghost var p: nat := 0;
    var k := 0;
    while k < |matches|
      invariant 0 <= k <= |matches| && p <= |expr|
      invariant out == done + expr[p..]
      invariant target == done + RewriteWith(expr, p, Replacement)
      invariant matches[k..] == FindAllFrom(expr, p)
      invariant Clean(done)
    {
      FoundShape(expr, p, matches, k);
      var full := matches[k].full;
      var verToken := matches[k].token;
      var segments := Split(verToken, '.');
      var replacement := ClausePair(segments);
      ghost var written, q := Advance(done, expr, p, replacement, out, target, matches, k);
      out := ReplaceFirst(out, full, replacement);
      done, p := written, q;
      k := k + 1;
    }
    LoopEnd(expr, matches, k, done, p, out, target);
  }

  /** The loop invariant holds before the first match: nothing written, nothing consumed. */
  lemma LoopStart(expr: string)
    ensures expr == [] + expr[0..]
    ensures Rewrite(expr) == [] + RewriteWith(expr, 0, Replacement)
    ensures FindAll(expr)[0..] == FindAllFrom(expr, 0)
    ensures Clean([])
  {
  }

  /** After the last match the text built is the rewrite. */
  lemma LoopEnd(expr: string, matches: seq<Submatch>, k: nat, done: string, p: nat, out: string, target: string)
    requires p <= |expr| && k == |matches| && matches[k..] == FindAllFrom(expr, p)
    requires out == done + expr[p..] && target == done + RewriteWith(expr, p, Replacement)
    ensures out == target
  {
    NoMoreMatches(expr, p, Replacement);
  }

  /**
   * The body of the loop after the split: `strconv.Atoi` on every numeral, then the
   * `switch` on their number and the two `fmt.Sprintf` calls.
   */
  method ClausePair(segments: seq<string>) returns (replacement: string)
    requires 1 <= |segments| <= 3 && AllNumerals(segments)
    ensures replacement == Bounds(segments)
  {
    var ints := new nat[|segments|];
    for i := 0 to |segments|
      invariant forall j :: 0 <= j < i ==> ints[j] == Part(segments, j)
    {
      assert Part(segments, i) == DecimalValue(segments[i]);
      ints[i] := DecimalValue(segments[i]);
    }
    var major := ints[0];
    var lower, upper;
    if ints.Length == 1 {
      lower := ">=" + Decimal(major) + ".0.0";
      upper := "<" + Decimal(major + 1) + ".0.0";
      BoundsOne(segments);
    } else if ints.Length == 2 {
      var minor := ints[1];
      lower := ">=" + Decimal(major) + "." + Decimal(minor) + ".0";
      upper := "<" + Decimal(major) + "." + Decimal(minor + 1) + ".0";
      BoundsTwo(segments);
    } else {
      var minor := ints[1];
      var patch := ints[2];
      lower := ">=" + Decimal(major) + "." + Decimal(minor) + "." + Decimal(patch);
      upper := "<" + Decimal(major) + "." + Decimal(minor + 1) + ".0";
      BoundsThree(segments);
    }
    replacement := lower + ", " + upper;
  }

  /**
   * Everything one turn of the loop needs: the next match, the text after replacing it,
   * the rewrite still to come, and the cleanliness of what is written.
   */
  lemma Advance(done: string, s: string, p: nat, repl: string, out: string, target: string,
                matches: seq<Submatch>, k: nat)
      returns (written: string, q: nat)
    requires Clean(done) && p <= |s|
    requires k < |matches| && matches[k..] == FindAllFrom(s, p)
    requires repl == Bounds(Split(matches[k].token, '.'))
    requires out == done + s[p..]
    requires target == done + RewriteWith(s, p, Replacement)
    ensures q <= |s|
    ensures ReplaceFirst(out, matches[k].full, repl) == written + s[q..]
    ensures target == written + RewriteWith(s, q, Replacement)
    ensures Clean(written)
    ensures matches[k + 1..] == FindAllFrom(s, q)
  {
    var n;
    n, q := NextFound(s, p, matches, k);
    written := done + s[p..n] + repl;
    FoundReplacement(s[n..], matches[k], repl);
    StepRewrite(done, s, p, n, q, repl, target, written);
    StepReplace(done, s, p, n, q, repl, out, written, matches[k].full);
  }

  /** The version token of a match found splits into one to three numerals. */
  lemma FoundShape(s: string, p: nat, matches: seq<Submatch>, k: nat)
    requires p <= |s| && k < |matches| && matches[k..] == FindAllFrom(s, p)
    ensures var segs := Split(matches[k].token, '.'); 1 <= |segs| <= 3 && AllNumerals(segs)
  {
    var n, _ := NextFound(s, p, matches, k);
    OperandShape(s[n..]);
  }

  /** The `k`-th match found is the next match after `p`; the rest are found after its end `q`. */
  lemma NextFound(s: string, p: nat, matches: seq<Submatch>, k: nat) returns (n: nat, q: nat)
    requires p <= |s| && k < |matches| && matches[k..] == FindAllFrom(s, p)
    ensures n == NextMatch(s, p) && n < |s| && Anchored(s[n..])
    ensures q == MatchEnd(s, n) && q <= |s|
    ensures matches[k] == MatchAt(s[n..])
    ensures matches[k + 1..] == FindAllFrom(s, q)
  {
    StepFind(s, p);
    n := NextMatch(s, p);
    q := MatchEnd(s, n);
    DropCons(matches, k, MatchAt(s[n..]), FindAllFrom(s, q));
  }

  /** The text the loop computes for a match is the one the rewrite puts there. */
  lemma FoundReplacement(t: string, m: Submatch, repl: string)
    requires Anchored(t) && m == MatchAt(t) && repl == Bounds(Split(m.token, '.'))
    ensures repl == Replacement(t)
    ensures |repl| >= 2 && repl[0] == '>' && repl[1] == '=' && '~' !in repl
  {
    OperandShape(t);
    ReplacementHasNoTilde(Operand(t));
  }

  /** The next match found is the one that follows the skipped text. */
  lemma StepFind(s: string, p: nat)
    requires p <= |s| && FindAllFrom(s, p) != []
    ensures NextMatch(s, p) < |s| && Anchored(s[NextMatch(s, p)..])
    ensures var n := NextMatch(s, p);
      FindAllFrom(s, p) == [MatchAt(s[n..])] + FindAllFrom(s, MatchEnd(s, n))
  {
    SkipFind(s, p);
    NextMatchFacts(s, p);
  }

  /** At a match start the rewrite puts `f` of the text there and resumes after the match. */
  lemma RewriteAtMatch(s: string, n: nat, f: string -> string)
    requires n < |s| && Anchored(s[n..])
    ensures RewriteWith(s, n, f) == f(s[n..]) + RewriteWith(s, MatchEnd(s, n), f)
  {
  }

  /** The rewrite keeps the skipped text, replaces the match, and goes on after it. */
  lemma StepRewrite(done: string, s: string, p: nat, n: nat, q: nat, repl: string,
                    target: string, written: string)
    requires p <= |s| && n == NextMatch(s, p) && n < |s| && Anchored(s[n..])
    requires q == MatchEnd(s, n) && repl == Replacement(s[n..])
    requires target == done + RewriteWith(s, p, Replacement)
    requires written == done + s[p..n] + repl
    ensures target == written + RewriteWith(s, q, Replacement)
  {
    SkipRewrite(s, p, Replacement);
    RewriteAtMatch(s, n, Replacement);
    Regroup(done, s[p..n], repl, RewriteWith(s, q, Replacement));
  }

  /**
   * `strings.Replace(out, full, replacement, 1)` rewrites exactly the next match, and
   * what has been written so far still holds no match start.
   */
  lemma StepReplace(done: string, s: string, p: nat, n: nat, q: nat, repl: string,
                    out: string, written: string, full: string)
    requires Clean(done) && p <= |s| && n == NextMatch(s, p) && n < |s| && Anchored(s[n..])
    requires q == MatchEnd(s, n) && full == MatchAt(s[n..]).full
    requires |repl| >= 2 && repl[0] == '>' && repl[1] == '=' && '~' !in repl
    requires out == done + s[p..]
    requires written == done + s[p..n] + repl
    ensures q <= |s|
    ensures ReplaceFirst(out, full, repl) == written + s[q..]
    ensures Clean(written)
  {
    ReplaceText(done, s, p, n, q, repl, full);
    StepClean(done, s, p, n, repl);
  }

  lemma ReplaceText(done: string, s: string, p: nat, n: nat, q: nat, repl: string, full: string)
    requires Clean(done) && p <= |s| && n == NextMatch(s, p) && n < |s| && Anchored(s[n..])
    requires q == MatchEnd(s, n) && full == MatchAt(s[n..]).full
    ensures q <= |s|
    ensures ReplaceFirst(done + s[p..], full, repl) == (done + s[p..n] + repl) + s[q..]
  {
    FirstOccurrence(done, s, p, n, full);
    MatchOccurs(s, n, full);
    ReplaceInSuffix(done, s, p, n, q, full, repl);
  }

  lemma StepClean(done: string, s: string, p: nat, n: nat, repl: string)
    requires Clean(done) && p <= |s| && n == NextMatch(s, p) && n < |s| && Anchored(s[n..])
    requires |repl| >= 2 && repl[0] == '>' && repl[1] == '=' && '~' !in repl
    ensures Clean(done + s[p..n] + repl)
  {
    NextMatchFacts(s, p);
    var t := s[n..];
    var gap := s[p..n];
    forall i | 0 <= i < |gap| ensures !Anchored(gap[i..] + t) {
      SuffixJoin(s, p, n, i);
    }
    CleanStep(done, gap, t, repl);
  }

  /** Once no match is left, the rest is kept verbatim. */
  lemma NoMoreMatches(s: string, p: nat, f: string -> string)
    requires p <= |s| && FindAllFrom(s, p) == []
    ensures RewriteWith(s, p, f) == s[p..]
  {
    SkipFind(s, p);
    SkipRewrite(s, p, f);
    NextMatchFacts(s, p);
  }

  /** The clause pair as `fmt.Sprintf(">=%d.0.0", ...)` and `"<%d.0.0"` print it for `~> X`. */
  lemma BoundsOne(segs: seq<string>)
    requires |segs| == 1 && AllNumerals(segs)
    ensures var x := Part(segs, 0);
      Bounds(segs) == ">=" + Decimal(x) + ".0.0" + ", " + ("<" + Decimal(x + 1) + ".0.0")
  {
    var x := Part(segs, 0);
    DecimalZero();
    TextOne(Decimal(x), Decimal(x + 1));
  }

  /** ... as `">=%d.%d.0"` and `"<%d.%d.0"` print it for `~> X.Y`. */
  lemma BoundsTwo(segs: seq<string>)
    requires |segs| == 2 && AllNumerals(segs)
    ensures var x, y := Part(segs, 0), Part(segs, 1);
      Bounds(segs) == ">=" + Decimal(x) + "." + Decimal(y) + ".0" + ", " + ("<" + Decimal(x) + "." + Decimal(y + 1) + ".0")
  {
    var x, y := Part(segs, 0), Part(segs, 1);
    DecimalZero();
    TextTwo(Decimal(x), Decimal(y), Decimal(y + 1));
  }

  /** ... as `">=%d.%d.%d"` and `"<%d.%d.0"` print it for `~> X.Y.Z`. */
  lemma BoundsThree(segs: seq<string>)
    requires |segs| == 3 && AllNumerals(segs)
    ensures var x, y, z := Part(segs, 0), Part(segs, 1), Part(segs, 2);
      Bounds(segs) == ">=" + Decimal(x) + "." + Decimal(y) + "." + Decimal(z) + ", " + ("<" + Decimal(x) + "." + Decimal(y + 1) + ".0")
  {
    var x, y, z := Part(segs, 0), Part(segs, 1), Part(segs, 2);
    DecimalZero();
    TextThree(Decimal(x), Decimal(y), Decimal(z), Decimal(y + 1));
  }

  lemma DecimalZero()
    ensures Decimal(0) == "0"
  {
  }

  lemma TextOne(d: string, e: string)
    ensures ">=" + (d + "." + "0" + "." + "0") + ", <" + (e + "." + "0" + "." + "0")
      == ">=" + d + ".0.0" + ", " + ("<" + e + ".0.0")
  {
  }

  lemma TextTwo(d: string, e: string, f: string)
    ensures ">=" + (d + "." + e + "." + "0") + ", <" + (d + "." + f + "." + "0")
      == ">=" + d + "." + e + ".0" + ", " + ("<" + d + "." + f + ".0")
  {
  }

  lemma TextThree(d: string, e: string, g: string, f: string)
    ensures ">=" + (d + "." + e + "." + g) + ", <" + (d + "." + f + "." + "0")
      == ">=" + d + "." + e + "." + g + ", " + ("<" + d + "." + f + ".0")
  {
  }

  /** The clause pair never contains a `~`, so it can neither hold nor create a match start of its own. */
  lemma ReplacementHasNoTilde(segs: seq<string>)
    requires 1 <= |segs| <= 3 && AllNumerals(segs)
    ensures var r := Bounds(segs); |r| >= 2 && r[0] == '>' && r[1] == '=' && '~' !in r
  {
    var lo, hi := Lower(segs), Upper(segs);
    NumeralLacks(Decimal(lo.major), '~');
    NumeralLacks(Decimal(lo.minor), '~');
    NumeralLacks(Decimal(lo.patch), '~');
    NumeralLacks(Decimal(hi.major), '~');
    NumeralLacks(Decimal(hi.minor), '~');
    NumeralLacks(Decimal(hi.patch), '~');
  }
}
