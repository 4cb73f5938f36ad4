/**
 * The version decision of pkg/tfs/terraform.go: `parseVersionConstraint`, which pulls the
 * first dotted number out of a `required_version` constraint and normalises it to three
 * parts, and the exact-first, extraction-second choice made by `GetTfVersion`.
 */
module Terraform {
  import opened Wrappers
  import opened Strings
  import opened Versions
  import opened Constraints

  // ------------------------------------------------------------ strings.TrimSpace

  /** `unicode.IsSpace`: the ASCII `\s` characters, `\v`, and the Unicode white space. */
  predicate IsWhiteSpace(c: char) {
    || IsSpace(c) || c == '\U{000B}' || c == '\U{0085}' || c == '\U{00A0}' || c == '\U{1680}'
    || ('\U{2000}' <= c <= '\U{200A}') || c == '\U{2028}' || c == '\U{2029}'
    || c == '\U{202F}' || c == '\U{205F}' || c == '\U{3000}'
  }

  /** The text without its leading white space. */
  function TrimLeading(s: string): (t: string)
    ensures |t| <= |s| && t == s[|s| - |t|..]
    ensures forall i :: 0 <= i < |s| - |t| ==> IsWhiteSpace(s[i])
    decreases |s|
  {
    if |s| > 0 && IsWhiteSpace(s[0]) then TrimLeading(s[1..]) else s
  }

  /** The text without its trailing white space. */
  function TrimTrailing(s: string): (t: string)
    ensures |t| <= |s| && t == s[..|t|]
    ensures forall i :: |t| <= i < |s| ==> IsWhiteSpace(s[i])
    decreases |s|
  {
    if |s| > 0 && IsWhiteSpace(s[|s| - 1]) then TrimTrailing(s[..|s| - 1]) else s
  }

  /** `strings.TrimSpace`. */
  function TrimSpace(s: string): string {
    TrimTrailing(TrimLeading(s))
  }

  // ------------------------------------------------------------ the regular expression

  predicate NoDigit(s: string) {
    forall i :: 0 <= i < |s| ==> !IsDigit(s[i])
  }

  /** Index of the first digit of `s`, if any. */
  function FirstDigit(s: string): (r: Option<nat>)
    ensures r.None? <==> NoDigit(s)
    ensures r.Some? ==> r.value < |s| && IsDigit(s[r.value]) && NoDigit(s[..r.value])
    decreases |s|
  {
    if |s| == 0 then None
    else if IsDigit(s[0]) then Some(0)
    else
      match FirstDigit(s[1..])
      case None => None
      case Some(i) => Some(i + 1)
  }

  /** Length of `(?:\.[0-9]+)*` matched greedily at the start of `w`. */
  function DotGroupsLen(w: string): (n: nat)
    ensures n <= |w|
    decreases |w|
  {
    if |w| >= 2 && w[0] == '.' && IsDigit(w[1]) then
      var d := DigitRun(w[1..]);
      1 + d + DotGroupsLen(w[1 + d..])
    else 0
  }

  /** The digit runs of those groups. */
  function DotGroupParts(w: string): seq<string>
    decreases |w|
  {
    if |w| >= 2 && w[0] == '.' && IsDigit(w[1]) then
      var d := DigitRun(w[1..]);
      [w[1..1 + d]] + DotGroupParts(w[1 + d..])
    else []
  }

  /** `[0-9]+(?:\.[0-9]+)*` matched greedily at the start of `u`. */
  function VersionToken(u: string): string {
    var d := DigitRun(u);
    u[..d + DotGroupsLen(u[d..])]
  }

  /**
   * Capture group 1 of `[~>=<!]*\s*([0-9]+(?:\.[0-9]+)*(?:\.[0-9]+)*)` in its leftmost match:
   * the group always starts at the first digit, because the operator and space prefix may
   * be empty and nothing else in the pattern can precede a digit.
   */
  function FindVersionText(s: string): Option<string> {
    match FirstDigit(s)
    case None => None
    case Some(i) => Some(VersionToken(s[i..]))
  }

  /** The version `parseVersionConstraint` settles on, or its error. */
  function ConstraintVersion(constraint: string): Result<Version, string> {
    match FindVersionText(TrimSpace(constraint))
    case None => Failure("no version found in constraint: " + constraint)
    case Some(token) => Success(Lower(Split(token, '.')))
  }

  // ------------------------------------------------------------ what the extraction finds

  /** No text after the token could extend it: neither a digit nor a dot and a digit. */
  predicate Stops(rest: string) {
    && !(|rest| >= 1 && IsDigit(rest[0]))
    && !(|rest| >= 2 && rest[0] == '.' && IsDigit(rest[1]))
  }

  /**
   * Only a constraint without any digit has no version: then the error names the
   * constraint as given.
   */
  lemma {:induction false} NoVersionFound(constraint: string)
    ensures ConstraintVersion(constraint).Failure? <==> NoDigit(constraint)
    ensures ConstraintVersion(constraint).Failure? ==>
      ConstraintVersion(constraint).error == "no version found in constraint: " + constraint
  {
    FindIgnoresTrim(constraint);
  }

  /**
   * Whatever precedes the first number (operators, spaces, letters) is ignored; the number
   * and its `.digits` groups are taken whole, then padded with zeros or cut to three parts.
   */
  lemma {:induction false} VersionAfter(pre: string, parts: seq<string>, rest: string)
    requires NoDigit(pre) && |parts| >= 1 && AllNumerals(parts) && Stops(rest)
    ensures ConstraintVersion(pre + Join(parts, ['.']) + rest) == Success(Lower(parts))
  {
    var j := Join(parts, ['.']);
    Assoc(pre, j, rest);
    FindAfter(pre, j + rest);
    TokenOfJoin(parts, rest);
    WholeSuffix(j + rest);
    assert FindVersionText(j + rest) == Some(j);
    forall k | 0 <= k < |parts| ensures '.' !in parts[k] {
      NumeralLacks(parts[k], '.');
    }
    SplitJoin(parts, '.');
    Found(pre + j + rest, j);
  }

  /** What is found in the constraint decides the version. */
  lemma {:induction false} Found(c: string, token: string)
    requires FindVersionText(c) == Some(token)
    ensures ConstraintVersion(c) == Success(Lower(Split(token, '.')))
  {
    FindIgnoresTrim(c);
  }

  lemma WholeSuffix<T>(s: seq<T>)
    ensures s[0..] == s
  {
  }

  lemma Cut<T>(s: seq<T>, i: nat)
    requires i <= |s|
    ensures s == s[..i] + s[i..]
  {
  }

  /** An exact version is also what the extraction finds, so the fallback agrees with it. */
  lemma {:induction false} ExactVersion(s: string)
    requires Parse(s).Success?
    ensures ConstraintVersion(s) == Parse(s)
  {
    var b := Body(s);
    var segs := Split(b, '.');
    JoinSplit(b, '.');
    var pre := s[..|s| - |b|];
    assert s == pre + Join(segs, ['.']) + [];
    assert NoDigit(pre);
    VersionAfter(pre, segs, []);
  }

  /** Trimming removes white space only, which the extraction skips anyway. */
  lemma {:induction false} FindIgnoresTrim(c: string)
    ensures FindVersionText(TrimSpace(c)) == FindVersionText(c)
    ensures NoDigit(TrimSpace(c)) <==> NoDigit(c)
  {
    var l := TrimLeading(c);
    var t := TrimSpace(c);
    var x, y := c[..|c| - |l|], l[|t|..];
    Cut(c, |c| - |l|);
    Cut(l, |t|);
    WhitePrefix(c, |c| - |l|);
    WhiteSuffix(l, |t|);
    FindAfter(x, l);
    FindBefore(t, y);
    NoDigitConcat(x, l);
    NoDigitConcat(t, y);
  }

  lemma {:induction false} WhitePrefix(s: string, k: nat)
    requires k <= |s| && forall i :: 0 <= i < k ==> IsWhiteSpace(s[i])
    ensures NoDigit(s[..k])
  {
    forall i | 0 <= i < k ensures !IsDigit(s[..k][i]) {
      assert s[..k][i] == s[i];
    }
  }

  lemma {:induction false} WhiteSuffix(s: string, k: nat)
    requires k <= |s| && forall i :: k <= i < |s| ==> IsWhiteSpace(s[i])
    ensures NoDigit(s[k..])
  {
    forall i | 0 <= i < |s| - k ensures !IsDigit(s[k..][i]) {
      assert s[k..][i] == s[k + i];
    }
  }

  lemma {:induction false} NoDigitConcat(a: string, b: string)
    ensures NoDigit(a + b) <==> NoDigit(a) && NoDigit(b)
  {
    if NoDigit(a) && NoDigit(b) {
      forall i | 0 <= i < |a + b| ensures !IsDigit((a + b)[i]) {
        if i >= |a| { assert (a + b)[i] == b[i - |a|]; }
      }
    }
    if NoDigit(a + b) {
      assert forall i :: 0 <= i < |a| ==> a[i] == (a + b)[i];
      assert forall i :: 0 <= i < |b| ==> b[i] == (a + b)[|a| + i];
    }
  }

  /** Text without digits in front of `t` does not change what is found. */
  lemma {:induction false} FindAfter(x: string, t: string)
    requires NoDigit(x)
    ensures FindVersionText(x + t) == FindVersionText(t)
  {
    FirstDigitAfter(x, t);
    if FirstDigit(t).Some? {
      assert (x + t)[|x| + FirstDigit(t).value..] == t[FirstDigit(t).value..];
    }
  }

  lemma {:induction false} FirstDigitAfter(x: string, t: string)
    requires NoDigit(x)
    ensures FirstDigit(x + t) == match FirstDigit(t) case None => None case Some(i) => Some(|x| + i)
    decreases |x|
  {
    if |x| == 0 {
      assert x + t == t;
    } else {
      assert (x + t)[0] == x[0];
      assert (x + t)[1..] == x[1..] + t;
      FirstDigitAfter(x[1..], t);
    }
  }

  /** Text without digits after `t` does not change what is found. */
  lemma {:induction false} FindBefore(t: string, y: string)
    requires NoDigit(y)
    ensures FindVersionText(t + y) == FindVersionText(t)
  {
    FirstDigitBefore(t, y);
    if FirstDigit(t).Some? {
      var i := FirstDigit(t).value;
      assert (t + y)[i..] == t[i..] + y;
      TokenAppend(t[i..], y);
    }
  }

  lemma {:induction false} FirstDigitBefore(t: string, y: string)
    requires NoDigit(y)
    ensures FirstDigit(t + y) == FirstDigit(t)
    decreases |t|
  {
    if |t| == 0 {
      assert t + y == y;
    } else {
      assert (t + y)[0] == t[0];
      assert (t + y)[1..] == t[1..] + y;
      FirstDigitBefore(t[1..], y);
    }
  }

  lemma {:induction false} TokenAppend(u: string, y: string)
    requires NoDigit(y)
    ensures VersionToken(u + y) == VersionToken(u)
  {
    var d := DigitRun(u);
    DigitRunBefore(u, y);
    assert (u + y)[d..] == u[d..] + y;
    GroupsBefore(u[d..], y);
    var g := DotGroupsLen(u[d..]);
    assert (u + y)[..d + g] == u[..d + g];
  }

  lemma {:induction false} DigitRunBefore(a: string, y: string)
    requires NoDigit(y)
    ensures DigitRun(a + y) == DigitRun(a)
  {
    if DigitRun(a) < |a| {
      DigitRunAppend(a, y);
    } else {
      DigitRunDigits(a);
      DigitRunOfNumeral(a, y);
    }
  }

  lemma {:induction false} GroupsBefore(w: string, y: string)
    requires NoDigit(y)
    ensures DotGroupsLen(w + y) == DotGroupsLen(w)
    decreases |w|
  {
    var v := w + y;
    if |w| >= 2 && w[0] == '.' && IsDigit(w[1]) {
      var d := DigitRun(w[1..]);
      assert v[0] == w[0] && v[1] == w[1];
      assert v[1..] == w[1..] + y;
      DigitRunBefore(w[1..], y);
      assert v[1 + d..] == w[1 + d..] + y;
      GroupsBefore(w[1 + d..], y);
    } else if |w| >= 2 {
      assert v[0] == w[0] && v[1] == w[1];
    } else if |w| == 1 {
      assert |v| >= 2 ==> v[1] == y[0];
    } else {
      assert v == y;
    }
  }

  /** A dotted number followed by a stop is found whole. */
  lemma {:induction false} TokenOfJoin(parts: seq<string>, rest: string)
    requires |parts| >= 1 && AllNumerals(parts) && Stops(rest)
    ensures FirstDigit(Join(parts, ['.']) + rest) == Some(0)
    ensures VersionToken(Join(parts, ['.']) + rest) == Join(parts, ['.'])
  {
    var a, ps := parts[0], parts[1..];
    assert [a] + ps == parts;
    JoinDot(a, ps);
    var tail := DotJoin(ps) + rest;
    var u := a + tail;
    assert Join(parts, ['.']) + rest == u;
    assert u[0] == a[0];
    TailNumerals(parts);
    DotJoinHead(ps, rest);
    DigitRunOfNumeral(a, tail);
    assert u[|a|..] == tail;
    GroupsOfJoin(ps, rest);
    assert u[..|a| + |DotJoin(ps)|] == a + DotJoin(ps);
  }

  /** What follows a numeral inside a dotted number: a dot, or the stop. */
  lemma {:induction false} DotJoinHead(ps: seq<string>, rest: string)
    requires Stops(rest)
    ensures var t := DotJoin(ps) + rest; |t| == 0 || !IsDigit(t[0])
  {
    if |ps| > 0 {
      assert (DotJoin(ps) + rest)[0] == '.';
    } else {
      assert DotJoin(ps) + rest == rest;
    }
  }

  lemma {:induction false} GroupsOfJoin(ps: seq<string>, rest: string)
    requires AllNumerals(ps) && Stops(rest)
    ensures DotGroupsLen(DotJoin(ps) + rest) == |DotJoin(ps)|
    decreases |ps|
  {
    if |ps| == 0 {
      assert DotJoin(ps) + rest == rest;
    } else {
      var p, qs := ps[0], ps[1..];
      TailNumerals(ps);
      var tail := DotJoin(qs) + rest;
      var w := ['.'] + (p + tail);
      Regroup(['.'], p, DotJoin(qs), rest);
      ConsShape('.', p, tail);
      DotJoinHead(qs, rest);
      DigitRunOfNumeral(p, tail);
      DotGroupStep(w, |p|, tail);
      GroupsOfJoin(qs, rest);
    }
  }

  lemma TailNumerals(ps: seq<string>)
    requires |ps| > 0 && AllNumerals(ps)
    ensures IsNumeral(ps[0]) && AllNumerals(ps[1..])
  {
    assert forall k :: 0 <= k < |ps| - 1 ==> ps[1..][k] == ps[k + 1];
  }

  lemma ConsShape<T>(c: T, p: seq<T>, tail: seq<T>)
    requires |p| > 0
    ensures var w := [c] + (p + tail);
      && |w| >= 2 && w[0] == c && w[1] == p[0] && w[1..] == p + tail && w[1 + |p|..] == tail
  {
  }

  /** The token taken at a digit is a dotted number: numerals joined by dots. */
  lemma {:induction false} TokenParts(u: string)
    requires |u| > 0 && IsDigit(u[0])
    ensures AllNumerals(Split(VersionToken(u), '.'))
  {
    var d := DigitRun(u);
    var w := u[d..];
    var g := DotGroupsLen(w);
    var head, ps := u[..d], DotGroupParts(w);
    var parts := [head] + ps;
    PrefixSplit(u, d, g);
    DotGroupsConsumed(w);
    JoinDot(head, ps);
    assert VersionToken(u) == Join(parts, ['.']);
    HeadNumeral(u);
    DotGroupPartsNumerals(w);
    ConsNumerals(head, ps);
    forall k | 0 <= k < |parts| ensures '.' !in parts[k] {
      NumeralLacks(parts[k], '.');
    }
    SplitJoin(parts, '.');
  }

  lemma {:induction false} HeadNumeral(u: string)
    requires |u| > 0 && IsDigit(u[0])
    ensures IsNumeral(u[..DigitRun(u)])
  {
    DigitRunDigits(u);
  }

  lemma {:induction false} ConsNumerals(x: string, ps: seq<string>)
    requires IsNumeral(x) && AllNumerals(ps)
    ensures AllNumerals([x] + ps)
  {
    var parts := [x] + ps;
    forall k | 0 <= k < |parts| ensures IsNumeral(parts[k]) {
      if k > 0 { assert parts[k] == ps[k - 1]; }
    }
  }

  /** One group: a dot, a digit run of length `d`, then the groups of `rest`. */
  lemma DotGroupStep(w: string, d: nat, rest: string)
    requires |w| >= 2 && w[0] == '.' && IsDigit(w[1])
    requires d == DigitRun(w[1..]) && rest == w[1 + d..]
    ensures DotGroupsLen(w) == 1 + d + DotGroupsLen(rest)
    ensures DotGroupParts(w) == [w[1..1 + d]] + DotGroupParts(rest)
  {
  }

  lemma {:induction false} DotGroupsConsumed(w: string)
    ensures w[..DotGroupsLen(w)] == DotJoin(DotGroupParts(w))
    decreases |w|
  {
    if |w| >= 2 && w[0] == '.' && IsDigit(w[1]) {
      var d := DigitRun(w[1..]);
      var rest := w[1 + d..];
      DotGroupsConsumed(rest);
      DotGroupStep(w, d, rest);
      DotJoinCons(w[1..1 + d], DotGroupParts(rest));
      ConsumedStep(w, d, DotGroupsLen(rest), DotJoin(DotGroupParts(rest)));
    }
  }

  lemma {:induction false} DotGroupPartsNumerals(w: string)
    ensures AllNumerals(DotGroupParts(w))
    decreases |w|
  {
    if |w| >= 2 && w[0] == '.' && IsDigit(w[1]) {
      var d := DigitRun(w[1..]);
      var rest := w[1 + d..];
      DotGroupPartsNumerals(rest);
      DotGroupStep(w, d, rest);
      HeadNumeral(w[1..]);
      assert w[1..][..d] == w[1..1 + d];
      ConsNumerals(w[1..1 + d], DotGroupParts(rest));
    }
  }

  /** The parts of the token the extraction finds are numerals, at least one. */
  lemma {:induction false} TokenSplitNumerals(s: string)
    requires FindVersionText(s).Some?
    ensures AllNumerals(TokenSplit(s)) && |TokenSplit(s)| >= 1
  {
    TokenParts(s[FirstDigit(s).value..]);
  }

  // ------------------------------------------------------------ the imperative code

  /**
   * `parseVersionConstraint`: the first dotted number, split on `.`, padded with `"0"`
   * up to three parts, cut at three and parsed as a version. `normalized` is the text the
   * version is parsed from, which the version value keeps.
   */
  method ParseVersionConstraint(constraint: string) returns (r: Result<Version, string>, normalized: string)
    ensures r == ConstraintVersion(constraint)
    ensures r.Success? ==> Parse(normalized) == r
  {
    var found := FindVersionText(TrimSpace(constraint));
    if found.None? {
      return Failure("no version found in constraint: " + constraint), "";
    }
    var versionStr := found.value;
    ghost var segs := TokenSplit(TrimSpace(constraint));
    var parts := Split(versionStr, '.');
    TokenSplitNumerals(TrimSpace(constraint));
    assert parts == Padded(segs, |parts|);
    while |parts| < 3
      invariant parts == Padded(segs, |parts|)
      invariant 1 <= |segs| <= |parts|
      invariant AllNumerals(parts)
      decreases 3 - |parts|
    {
      PaddedStep(segs, |parts|);
      parts := parts + ["0"];
    }
    normalized := Join(parts[..3], ['.']);
    r := Parse(normalized);
    PaddedParse(segs, parts);
  }

  /** `segs` followed by `"0"` parts up to length `n`. */
  function Padded(segs: seq<string>, n: nat): (p: seq<string>)
    requires |segs| <= n
    ensures |p| == n
  {
    segs + seq(n - |segs|, _ => "0")
  }

  lemma {:induction false} PaddedStep(segs: seq<string>, n: nat)
    requires |segs| <= n
    ensures Padded(segs, n) + ["0"] == Padded(segs, n + 1)
  {
    assert seq(n - |segs|, _ => "0") + ["0"] == seq(n + 1 - |segs|, _ => "0");
  }

  /** The first three padded parts parse to the zero-padded version of the token's parts. */
  lemma {:induction false} PaddedParse(segs: seq<string>, parts: seq<string>)
    requires 1 <= |segs| <= |parts| && 3 <= |parts| && parts == Padded(segs, |parts|) && AllNumerals(parts)
    ensures Parse(Join(parts[..3], ['.'])) == Success(Lower(segs))
  {
    var a, b, c := parts[0], parts[1], parts[2];
    assert parts[..3] == [a, b, c];
    JoinCons(a, [b, c], ['.']);
    JoinCons(b, [c], ['.']);
    assert [a] + [b, c] == [a, b, c] && [b] + [c] == [b, c];
    ParseTriple(a, b, c);
    forall k | 0 <= k < 3 ensures DecimalValue(parts[k]) == Part(segs, k) {
      if k >= |segs| {
        assert parts[k] == "0";
      }
    }
  }

  /** The token's parts, when there is a token. */
  function TokenSplit(s: string): seq<string> {
    match FindVersionText(s)
    case None => [""]
    case Some(token) => Split(token, '.')
  }

  /**
   * `GetTfVersion` from the moment the module's `required_version` entries are known:
   * none gives no version and no error; otherwise the first entry is read as an exact
   * version, and only when that fails is a version extracted from it. `original` is the
   * text the version is parsed from: the entry itself when it is an exact version.
   */
  method GetTfVersion(requiredCore: seq<string>) returns (r: Result<Option<Version>, string>, original: string)
    ensures |requiredCore| == 0 ==> r == Success(None)
    ensures |requiredCore| > 0 ==> var s := requiredCore[0];
      && (Parse(s).Success? ==> r == Success(Some(Parse(s).value)))
      && (Parse(s).Failure? ==> match ConstraintVersion(s)
          case Success(v) => r == Success(Some(v))
          case Failure(e) => r == Failure(e))
    ensures |requiredCore| > 0 ==> (r.Failure? <==> NoDigit(requiredCore[0]))
    ensures |requiredCore| > 0 && Parse(requiredCore[0]).Success? ==> original == requiredCore[0]
    ensures r.Success? && r.value.Some? ==> Parse(original) == Success(r.value.value)
  {
    if |requiredCore| == 0 {
      return Success(None), "";
    }
    var tfVersion := requiredCore[0];
    NoVersionFound(tfVersion);
    var v := Parse(tfVersion);
    original := tfVersion;
    if v.Failure? {
      v, original := ParseVersionConstraint(tfVersion);
      if v.Failure? {
        return Failure(v.error), original;
      }
    } else {
      ExactVersion(tfVersion);
    }
    return Success(Some(v.value)), original;
  }
}
