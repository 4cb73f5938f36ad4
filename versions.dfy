/**
 * Release versions as the tool uses them: a `(major, minor, patch)` triple ordered
 * lexicographically, printed as `"X.Y.Z"` (go-version's `String()`), and parsed from
 * text the way go-version's `NewVersion` parses a plain numeric version: an optional
 * leading `v`, one to three dot-separated numerals, missing parts filled with zero.
 */
module Versions {
  import opened Wrappers
  import opened Strings
  import Ordering

  datatype Version = Version(major: nat, minor: nat, patch: nat)

  /** Semantic precedence: compare major, then minor, then patch. */
  predicate Less(a: Version, b: Version) {
    a.major < b.major
    || (a.major == b.major && a.minor < b.minor)
    || (a.major == b.major && a.minor == b.minor && a.patch < b.patch)
  }

  predicate LessEq(a: Version, b: Version) {
    a == b || Less(a, b)
  }

  lemma LessStrictTotalOrder()
    ensures Ordering.StrictTotalOrder(Less)
  {
  }

  /** `String()`: the three parts printed in decimal, joined by dots. */
  function ToString(v: Version): string {
    Decimal(v.major) + "." + Decimal(v.minor) + "." + Decimal(v.patch)
  }

  /** Parts of a version string: digits only. */
  predicate AllNumerals(segs: seq<string>) {
    forall k :: 0 <= k < |segs| ==> IsNumeral(segs[k])
  }

  /** The value of the `k`-th part, zero where the text stops short (or is not a numeral). */
  function Part(segs: seq<string>, k: nat): nat {
    if k < |segs| && IsNumeral(segs[k]) then DecimalValue(segs[k]) else 0
  }

  /** The text after an optional leading `v`. */
  function Body(s: string): (b: string)
    ensures |b| <= |s| && b == s[|s| - |b|..]
  {
    if |s| > 0 && s[0] == 'v' then s[1..] else s
  }

  /** go-version's `NewVersion` restricted to plain numeric versions with at most three parts. */
  function Parse(s: string): Result<Version, string> {
    var segs := Split(Body(s), '.');
    if |segs| <= 3 && AllNumerals(segs) then
      Success(Version(Part(segs, 0), Part(segs, 1), Part(segs, 2)))
    else
      Failure("Malformed version: " + s)
  }

  /** Only digits and dots, after the optional `v`, ever parse; the empty text does not. */
  lemma ParseAlphabet(s: string)
    requires Parse(s).Success?
    ensures |Body(s)| > 0 && forall i :: 0 <= i < |Body(s)| ==> IsDigit(Body(s)[i]) || Body(s)[i] == '.'
  {
    JoinSplit(Body(s), '.');
    NumeralsAlphabet(Split(Body(s), '.'));
  }

  lemma {:induction false} NumeralsAlphabet(segs: seq<string>)
    requires |segs| >= 1 && AllNumerals(segs)
    ensures var s := Join(segs, ['.']);
      |s| > 0 && forall i :: 0 <= i < |s| ==> IsDigit(s[i]) || s[i] == '.'
  {
    if |segs| > 1 {
      NumeralsAlphabet(segs[1..]);
      assert Join(segs, ['.']) == segs[0] + ['.'] + Join(segs[1..], ['.']);
    }
  }

  /** The printed form splits into its three numerals. */
  lemma SplitTriple(a: string, b: string, c: string)
    requires IsNumeral(a) && IsNumeral(b) && IsNumeral(c)
    ensures var s := a + ['.'] + (b + ['.'] + c); Body(s) == s && Split(s, '.') == [a, b, c]
  {
    NumeralLacks(a, '.');
    NumeralLacks(b, '.');
    NumeralLacks(c, '.');
    SplitAt(a, b + ['.'] + c, '.');
    SplitAt(b, c, '.');
    assert IndexOfChar(c, '.').None?;
  }

  lemma DotsTriple(a: string, b: string, c: string)
    ensures a + "." + b + "." + c == a + ['.'] + (b + ['.'] + c)
  {
  }

  /** Printing a version and parsing it back gives the same version. */
  lemma ParseToString(v: Version)
    ensures Parse(ToString(v)) == Success(v)
  {
    DotsTriple(Decimal(v.major), Decimal(v.minor), Decimal(v.patch));
    ParseTriple(Decimal(v.major), Decimal(v.minor), Decimal(v.patch));
    DecimalRoundTrip(v.major);
    DecimalRoundTrip(v.minor);
    DecimalRoundTrip(v.patch);
  }

  /** Three numerals joined by dots parse to their values. */
  lemma ParseTriple(a: string, b: string, c: string)
    requires IsNumeral(a) && IsNumeral(b) && IsNumeral(c)
    ensures Parse(a + ['.'] + (b + ['.'] + c)) == Success(Version(DecimalValue(a), DecimalValue(b), DecimalValue(c)))
  {
    SplitTriple(a, b, c);
    TripleNumerals(a, b, c);
    assert Part([a, b, c], 0) == DecimalValue(a);
    assert Part([a, b, c], 1) == DecimalValue(b);
    assert Part([a, b, c], 2) == DecimalValue(c);
    ParseNumerals([a, b, c], a + ['.'] + (b + ['.'] + c));
  }

  lemma TripleNumerals(a: string, b: string, c: string)
    requires IsNumeral(a) && IsNumeral(b) && IsNumeral(c)
    ensures AllNumerals([a, b, c])
  {
    var segs := [a, b, c];
    forall k | 0 <= k < 3 ensures IsNumeral(segs[k]) {
      if k == 0 { assert segs[k] == a; }
      else if k == 1 { assert segs[k] == b; }
      else { assert segs[k] == c; }
    }
  }

  /** A text that is its own body and splits into at most three numerals parses to their values. */
  lemma ParseNumerals(segs: seq<string>, s: string)
    requires 1 <= |segs| <= 3 && Body(s) == s && Split(s, '.') == segs && AllNumerals(segs)
    ensures Parse(s) == Success(Version(Part(segs, 0), Part(segs, 1), Part(segs, 2)))
  {
  }

  /** The optional `v` prefix is accepted. */
  lemma ParseWithV(v: Version)
    ensures Parse("v" + ToString(v)) == Success(v)
  {
    assert Body("v" + ToString(v)) == ToString(v);
    ParseToString(v);
  }

  /** Two versions print alike only when they are equal, so the printed form can be a map key. */
  lemma ToStringInjective(v: Version, w: Version)
    requires ToString(v) == ToString(w)
    ensures v == w
  {
    ParseToString(v);
    ParseToString(w);
  }

  /** A missing minor and patch read as zero. */
  lemma ParseMajorOnly(x: nat)
    ensures Parse(Decimal(x)) == Success(Version(x, 0, 0))
  {
    var a := Decimal(x);
    assert IndexOfChar(a, '.').None?;
    assert Body(a) == a;
    DecimalRoundTrip(x);
  }

  /** A missing patch reads as zero. */
  lemma ParseMajorMinor(x: nat, y: nat)
    ensures Parse(Decimal(x) + "." + Decimal(y)) == Success(Version(x, y, 0))
  {
    DotsPair(Decimal(x), Decimal(y));
    SplitPair(Decimal(x), Decimal(y));
    DecimalRoundTrip(x);
    DecimalRoundTrip(y);
  }

  lemma SplitPair(a: string, b: string)
    requires IsNumeral(a) && IsNumeral(b)
    ensures var s := a + ['.'] + b; Body(s) == s && Split(s, '.') == [a, b]
  {
    NumeralLacks(a, '.');
    NumeralLacks(b, '.');
    SplitAt(a, b, '.');
    assert IndexOfChar(b, '.').None?;
  }

  lemma DotsPair(a: string, b: string)
    ensures a + "." + b == a + ['.'] + b
  {
  }
}
