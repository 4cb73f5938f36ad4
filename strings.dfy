/**
 * The pieces of Go's `strings`, `strconv` and `regexp` packages that the tool relies on,
 * over `string` = `seq<char>`: character classes, decimal numerals, `strings.Split`,
 * `strings.Join`, `strings.Contains`, `strings.Replace(s, old, new, 1)`,
 * `strings.ReplaceAll(s, old, "")` and byte-wise string order (`sort.Strings`).
 */
module Strings {
  import opened Wrappers
  import Ordering

  // ---------------------------------------------------------------- slices

  /** A slice that lies in the right operand of a concatenation. */
  lemma SliceRight<T>(a: seq<T>, b: seq<T>, i: nat, j: nat)
    requires |a| <= i <= j <= |a| + |b|
    ensures (a + b)[i..j] == b[i - |a|..j - |a|]
  {
  }

  /** A slice of a suffix is a slice of the whole. */
  lemma SliceOfSuffix<T>(s: seq<T>, p: nat, i: nat, j: nat)
    requires p <= |s| && i <= j <= |s| - p
    ensures s[p..][i..j] == s[p + i..p + j]
  {
  }

  /** A piece of a suffix followed by the rest is again a suffix. */
  lemma SuffixJoin<T>(s: seq<T>, p: nat, n: nat, q: nat)
    requires p <= n <= |s| && q <= n - p
    ensures s[p..n][q..] + s[n..] == s[p + q..]
  {
  }

  /** A prefix cut in two at `d`. */
  lemma PrefixSplit<T>(u: seq<T>, d: nat, n: nat)
    requires d + n <= |u|
    ensures u[..d + n] == u[..d] + u[d..][..n]
  {
  }

  lemma ConsTail<T>(x: T, xs: seq<T>)
    ensures ([x] + xs)[0] == x && ([x] + xs)[1..] == xs
  {
  }

  lemma Regroup<T>(a: seq<T>, b: seq<T>, c: seq<T>, d: seq<T>)
    ensures a + (b + (c + d)) == ((a + b) + c) + d
  {
  }

  lemma DropPrefix<T>(a: seq<T>, b: seq<T>, c: seq<T>, d: seq<T>)
    ensures (((a + b) + c) + d)[|a|..] == b + (c + d)
    ensures (((a + b) + c) + d)[|a| + |b|..] == c + d
  {
  }

  lemma HeadTail<T>(s: seq<T>)
    requires |s| >= 1
    ensures s == [s[0]] + s[1..]
  {
  }

  lemma Assoc3<T>(a: seq<T>, b: seq<T>, c: seq<T>, d: seq<T>)
    ensures ((a + b) + c) + d == a + ((b + c) + d)
  {
  }

  lemma OccursAfter(pre: string, sub: string, x: string)
    ensures OccursAt(pre + (sub + x), sub, |pre|)
  {
    assert (pre + (sub + x))[|pre|..|pre| + |sub|] == sub;
  }

  lemma SliceCons<T>(s: seq<T>, p: nat, n: nat)
    requires p < n <= |s|
    ensures s[p..n] == [s[p]] + s[p + 1..n]
  {
  }

  lemma Assoc<T>(a: seq<T>, b: seq<T>, c: seq<T>)
    ensures (a + b) + c == a + (b + c)
  {
  }

  /** A suffix that starts with `x` and continues with `ys`. */
  lemma DropCons<T>(xs: seq<T>, k: nat, x: T, ys: seq<T>)
    requires k <= |xs| && xs[k..] == [x] + ys
    ensures k < |xs| && xs[k] == x && xs[k + 1..] == ys
  {
    assert xs[k..][0] == x;
    assert xs[k + 1..] == xs[k..][1..];
  }

  // ---------------------------------------------------------------- characters

  predicate IsDigit(c: char) { '0' <= c <= '9' }

  /** RE2's `\s`: space, tab, newline, form feed and carriage return. */
  predicate IsSpace(c: char) {
    c == ' ' || c == '\t' || c == '\n' || c == '\U{000C}' || c == '\r'
  }

  /** Nothing but `\s` characters (possibly nothing at all). */
  predicate AllSpaces(sp: string) {
    forall i :: 0 <= i < |sp| ==> IsSpace(sp[i])
  }

  /** `\d+`: a non-empty run of ASCII digits. */
  predicate IsNumeral(s: string) {
    |s| > 0 && forall i :: 0 <= i < |s| ==> IsDigit(s[i])
  }

  /** Length of the longest prefix of `s` made of digits. */
  function DigitRun(s: string): (n: nat)
    ensures n <= |s|
    ensures n < |s| ==> !IsDigit(s[n])
  {
    if |s| > 0 && IsDigit(s[0]) then 1 + DigitRun(s[1..]) else 0
  }

  /** Every character of that prefix is a digit. */
  lemma {:induction false} DigitRunDigits(s: string)
    ensures forall i :: 0 <= i < DigitRun(s) ==> IsDigit(s[i])
  {
    if |s| > 0 && IsDigit(s[0]) {
      DigitRunDigits(s[1..]);
      assert forall i :: 1 <= i < DigitRun(s) ==> s[i] == s[1..][i - 1];
    }
  }

  /** Length of the longest prefix of `s` made of `\s` characters. */
  function SpaceRun(s: string): (n: nat)
    ensures n <= |s|
    ensures n < |s| ==> !IsSpace(s[n])
  {
    if |s| > 0 && IsSpace(s[0]) then 1 + SpaceRun(s[1..]) else 0
  }

  /** Every character of that prefix is a space. */
  lemma {:induction false} SpaceRunSpaces(s: string)
    ensures forall i :: 0 <= i < SpaceRun(s) ==> IsSpace(s[i])
  {
    if |s| > 0 && IsSpace(s[0]) {
      SpaceRunSpaces(s[1..]);
      assert forall i :: 1 <= i < SpaceRun(s) ==> s[i] == s[1..][i - 1];
    }
  }

  /** Spaces followed by anything else: the run is exactly those spaces. */
  lemma {:induction false} SpaceRunOfSpaces(ws: string, y: string)
    requires forall i :: 0 <= i < |ws| ==> IsSpace(ws[i])
    requires |y| == 0 || !IsSpace(y[0])
    ensures SpaceRun(ws + y) == |ws|
  {
    if |ws| > 0 {
      assert (ws + y)[1..] == ws[1..] + y;
      SpaceRunOfSpaces(ws[1..], y);
    }
  }

  // ---------------------------------------------------------------- numerals

  /** A numeral holds no character other than digits. */
  lemma NumeralLacks(s: string, c: char)
    requires IsNumeral(s) && !IsDigit(c)
    ensures c !in s
  {
  }

  function DigitValue(c: char): (d: nat)
    requires IsDigit(c)
    ensures d < 10
  {
    (c as int - '0' as int) as nat
  }

  function DigitChar(d: nat): (c: char)
    requires d < 10
    ensures IsDigit(c) && DigitValue(c) == d
  {
    ('0' as int + d) as char
  }

  /** `strconv.Atoi` on a run of digits; leading zeros are accepted and ignored. */
  function DecimalValue(s: string): nat
    requires forall i :: 0 <= i < |s| ==> IsDigit(s[i])
  {
    if |s| == 0 then 0 else 10 * DecimalValue(s[..|s| - 1]) + DigitValue(s[|s| - 1])
  }

  /** `%d` / `strconv.Itoa` of a natural number: the canonical numeral, no leading zero. */
  function Decimal(n: nat): (s: string)
    ensures IsNumeral(s)
    ensures s[0] == '0' ==> n == 0 && |s| == 1
    decreases n
  {
    if n < 10 then [DigitChar(n)] else Decimal(n / 10) + [DigitChar(n % 10)]
  }

  lemma {:induction false} DecimalRoundTrip(n: nat)
    ensures DecimalValue(Decimal(n)) == n
    decreases n
  {
    if n >= 10 {
      var s := Decimal(n);
      assert s[..|s| - 1] == Decimal(n / 10);
      DecimalRoundTrip(n / 10);
    }
  }

  /** Printing is injective: different numbers never print alike. */
  lemma DecimalInjective(m: nat, n: nat)
    requires Decimal(m) == Decimal(n)
    ensures m == n
  {
    DecimalRoundTrip(m);
    DecimalRoundTrip(n);
  }

  /** A canonical numeral (no leading zero) is what `%d` prints for its own value. */
  lemma {:induction false} DecimalOfCanonical(s: string)
    requires IsNumeral(s) && (s[0] == '0' ==> |s| == 1)
    ensures Decimal(DecimalValue(s)) == s
    decreases |s|
  {
    if |s| > 1 {
      var init := s[..|s| - 1];
      assert init[0] == s[0];
      DecimalOfCanonical(init);
      PositiveValue(init);
      var n := DecimalValue(s);
      assert n / 10 == DecimalValue(init) && n % 10 == DigitValue(s[|s| - 1]);
      assert DigitChar(n % 10) == s[|s| - 1];
      assert s == init + [s[|s| - 1]];
    } else {
      assert DigitChar(DigitValue(s[0])) == s[0];
    }
  }

  lemma {:induction false} PositiveValue(s: string)
    requires IsNumeral(s) && s[0] != '0'
    ensures DecimalValue(s) > 0
    decreases |s|
  {
    if |s| > 1 {
      var init := s[..|s| - 1];
      assert init[0] == s[0];
      PositiveValue(init);
    }
  }

  // ---------------------------------------------------------------- searching

  /** The first index of `c` in `s`, as `strings.IndexByte` finds it. */
  function IndexOfChar(s: string, c: char): (r: Option<nat>)
    ensures r.None? ==> c !in s
    ensures r.Some? ==> r.value < |s| && s[r.value] == c && c !in s[..r.value]
  {
    if |s| == 0 then None
    else if s[0] == c then Some(0)
    else match IndexOfChar(s[1..], c)
      case None => None
      case Some(i) => assert s[..i + 1] == [s[0]] + s[1..][..i]; Some(i + 1)
  }

  predicate HasPrefix(s: string, p: string) {
    |p| <= |s| && s[..|p|] == p
  }

  /** `sub` occurs in `s` starting at index `i`. */
  predicate OccursAt(s: string, sub: string, i: int) {
    0 <= i && i + |sub| <= |s| && s[i..i + |sub|] == sub
  }

  /** The first index at which `sub` occurs in `s`, as `strings.Index` finds it. */
  function IndexOf(s: string, sub: string): (r: Option<nat>)
    ensures r.Some? ==> OccursAt(s, sub, r.value)
    ensures r.Some? ==> forall j :: 0 <= j < r.value ==> !OccursAt(s, sub, j)
    ensures r.None? ==> forall j :: 0 <= j <= |s| ==> !OccursAt(s, sub, j)
  {
    if HasPrefix(s, sub) then
      assert s[0..|sub|] == s[..|sub|];
      Some(0)
    else if |s| == 0 then None
    else
      var r := IndexOf(s[1..], sub);
      assert !OccursAt(s, sub, 0) by {
        if |sub| <= |s| { assert s[..|sub|] == s[0..|sub|]; }
      }
      assert forall j :: 1 <= j <= |s| ==> (OccursAt(s, sub, j) <==> OccursAt(s[1..], sub, j - 1)) by {
        forall j | 1 <= j <= |s| ensures OccursAt(s, sub, j) <==> OccursAt(s[1..], sub, j - 1) {
          if j + |sub| <= |s| {
            assert s[1..][j - 1..j - 1 + |sub|] == s[j..j + |sub|];
          }
        }
      }
      match r
      case None => None
      case Some(i) => Some(i + 1)
  }

  /** An occurrence in `s` at or after `p` is an occurrence in `d + s[p..]`, shifted. */
  lemma OccursInSuffix(d: string, s: string, p: nat, n: nat, sub: string)
    requires p <= n && OccursAt(s, sub, n)
    ensures OccursAt(d + s[p..], sub, |d| + n - p)
  {
    var out := d + s[p..];
    var i := |d| + n - p;
    forall k | 0 <= k < |sub| ensures out[i + k] == sub[k] {
      assert out[i + k] == s[n + k];
      assert s[n..n + |sub|][k] == s[n + k];
    }
    assert out[i..i + |sub|] == sub;
  }

  /** An occurrence with none before it is the one `strings.Index` reports. */
  lemma IndexOfFirst(s: string, sub: string, i: nat)
    requires OccursAt(s, sub, i)
    requires forall j :: 0 <= j < i ==> !OccursAt(s, sub, j)
    ensures IndexOf(s, sub) == Some(i)
  {
  }

  /** `strings.Contains`. */
  predicate Contains(s: string, sub: string) {
    IndexOf(s, sub).Some?
  }

  lemma ContainsAt(s: string, sub: string, i: int)
    requires OccursAt(s, sub, i)
    ensures Contains(s, sub)
  {
  }

  /** `strings.Replace(s, pat, repl, 1)`: the first occurrence of `pat` becomes `repl`. */
  function ReplaceFirst(s: string, pat: string, repl: string): (r: string)
    ensures !Contains(s, pat) ==> r == s
    ensures Contains(s, pat) ==>
      var i := IndexOf(s, pat).value;
      r == s[..i] + repl + s[i + |pat|..]
  {
    match IndexOf(s, pat)
    case None => s
    case Some(i) => s[..i] + repl + s[i + |pat|..]
  }

  /** Replacing an occurrence found at or after `p` in `d + s[p..]`. */
  lemma ReplaceInSuffix(d: string, s: string, p: nat, n: nat, q: nat, pat: string, repl: string)
    requires p <= n && OccursAt(s, pat, n) && q == n + |pat|
    requires IndexOf(d + s[p..], pat) == Some(|d| + n - p)
    ensures q <= |s|
    ensures ReplaceFirst(d + s[p..], pat, repl) == (d + s[p..n] + repl) + s[q..]
  {
    var out := d + s[p..];
    var i := |d| + (n - p);
    assert q <= |s|;
    assert ReplaceFirst(out, pat, repl) == out[..i] + repl + out[i + |pat|..];
    ConcatSlices(d, s[p..], n - p, |pat|);
    assert out[..i] == d + s[p..n] by { assert s[p..][..n - p] == s[p..n]; }
    assert out[i + |pat|..] == s[q..] by { assert s[p..][n - p + |pat|..] == s[q..]; }
  }

  /** Cutting a concatenation inside its second part. */
  lemma ConcatSlices<T>(d: seq<T>, t: seq<T>, j: nat, m: nat)
    requires j + m <= |t|
    ensures (d + t)[..|d| + j] == d + t[..j]
    ensures (d + t)[|d| + j + m..] == t[j + m..]
  {
  }

  /** `strings.ReplaceAll(s, pat, "")`: every non-overlapping occurrence, left to right, removed. */
  function DeleteAll(s: string, pat: string): (r: string)
    ensures |r| <= |s|
    ensures |pat| == 0 || !Contains(s, pat) ==> r == s
    decreases |s|
  {
    if |pat| == 0 then s
    else match IndexOf(s, pat)
      case None => s
      case Some(i) => s[..i] + DeleteAll(s[i + |pat|..], pat)
  }

  /** Deleting a prefix whose text cannot occur in the rest leaves exactly the rest. */
  lemma DeletePrefix(p: string, t: string)
    requires |p| == 0 || !Contains(t, p)
    ensures DeleteAll(p + t, p) == t
  {
    if |p| > 0 {
      assert HasPrefix(p + t, p);
      assert (p + t)[|p|..] == t;
    }
  }

  /** A text holding a character that `t` lacks does not occur in `t`. */
  lemma NotContainsForeign(t: string, p: string, c: char)
    requires c in p && c !in t
    ensures !Contains(t, p)
  {
    forall i | 0 <= i <= |t| ensures !OccursAt(t, p, i) {
      var k :| 0 <= k < |p| && p[k] == c;
      if i + |p| <= |t| {
        assert t[i..i + |p|][k] == t[i + k];
      }
    }
  }

  // ---------------------------------------------------------------- split and join

  /** `strings.Split(s, string(sep))`: the pieces between the separators, at least one. */
  function Split(s: string, sep: char): (parts: seq<string>)
    ensures |parts| >= 1
    ensures forall k :: 0 <= k < |parts| ==> sep !in parts[k]
    decreases |s|
  {
    match IndexOfChar(s, sep)
    case None => [s]
    case Some(i) => [s[..i]] + Split(s[i + 1..], sep)
  }

  /** `strings.Join(parts, sep)`. */
  function Join(parts: seq<string>, sep: string): string
  {
    if |parts| == 0 then ""
    else if |parts| == 1 then parts[0]
    else parts[0] + sep + Join(parts[1..], sep)
  }

  /** Splitting and joining back with the same separator reproduces the input. */
  lemma {:induction false} JoinSplit(s: string, sep: char)
    ensures Join(Split(s, sep), [sep]) == s
    decreases |s|
  {
    match IndexOfChar(s, sep)
    case None =>
    case Some(i) =>
      var rest := s[i + 1..];
      JoinSplit(rest, sep);
      JoinCons(s[..i], Split(rest, sep), [sep]);
      SplitAround(s, i);
  }

  lemma JoinCons(a: string, parts: seq<string>, sep: string)
    requires |parts| >= 1
    ensures Join([a] + parts, sep) == a + sep + Join(parts, sep)
  {
    assert ([a] + parts)[1..] == parts;
  }

  lemma SplitAround<T>(s: seq<T>, i: nat)
    requires i < |s|
    ensures s == s[..i] + [s[i]] + s[i + 1..]
  {
  }

  /** Joining pieces that do not contain the separator and splitting again gives the pieces. */
  lemma {:induction false} SplitJoin(parts: seq<string>, sep: char)
    requires |parts| >= 1
    requires forall k :: 0 <= k < |parts| ==> sep !in parts[k]
    ensures Split(Join(parts, [sep]), sep) == parts
  {
    if |parts| == 1 {
      assert IndexOfChar(parts[0], sep).None?;
    } else {
      var s := Join(parts, [sep]);
      var rest := Join(parts[1..], [sep]);
      assert s == parts[0] + [sep] + rest;
      SplitAt(parts[0], rest, sep);
      SplitJoin(parts[1..], sep);
    }
  }

  /** A text without the separator is a single part. */
  lemma SplitWhole(a: string, sep: char)
    requires sep !in a
    ensures Split(a, sep) == [a]
  {
    assert IndexOfChar(a, sep).None?;
  }

  /** Splitting `a + sep + b` where `a` has no separator: `a`, then the pieces of `b`. */
  lemma SplitAt(a: string, b: string, sep: char)
    requires sep !in a
    ensures Split(a + [sep] + b, sep) == [a] + Split(b, sep)
  {
    var s := a + [sep] + b;
    assert s[|a|] == sep && s[..|a|] == a;
    assert IndexOfChar(s, sep) == Some(|a|);
    assert s[|a| + 1..] == b;
  }

  // ---------------------------------------------------------------- order

  /**
   * Go's `<` on strings: byte-wise lexicographic order. On UTF-8 text it agrees with
   * code-point order, which is what is compared here.
   */
  predicate LexLess(a: string, b: string)
    decreases |a|
  {
    if |a| == 0 then |b| > 0
    else if |b| == 0 then false
    else if a[0] != b[0] then a[0] < b[0]
    else LexLess(a[1..], b[1..])
  }

  lemma {:induction false} LexIrreflexive(a: string)
    ensures !LexLess(a, a)
    decreases |a|
  {
    if |a| > 0 { LexIrreflexive(a[1..]); }
  }

  lemma {:induction false} LexTransitive(a: string, b: string, c: string)
    requires LexLess(a, b) && LexLess(b, c)
    ensures LexLess(a, c)
    decreases |a|
  {
    if |a| > 0 && |b| > 0 && |c| > 0 && a[0] == b[0] && b[0] == c[0] {
      LexTransitive(a[1..], b[1..], c[1..]);
    }
  }

  lemma {:induction false} LexConnected(a: string, b: string)
    requires a != b
    ensures LexLess(a, b) || LexLess(b, a)
    decreases |a|
  {
    if |a| > 0 && |b| > 0 && a[0] == b[0] {
      assert a == [a[0]] + a[1..] && b == [b[0]] + b[1..];
      LexConnected(a[1..], b[1..]);
    }
  }

  /** `sort.Strings` sorts by a strict total order. */
  lemma LexStrictTotalOrder()
    ensures Ordering.StrictTotalOrder(LexLess)
  {
    forall a ensures !LexLess(a, a) { LexIrreflexive(a); }
    forall a, b, c | LexLess(a, b) && LexLess(b, c) ensures LexLess(a, c) { LexTransitive(a, b, c); }
    forall a, b | a != b ensures LexLess(a, b) || LexLess(b, a) { LexConnected(a, b); }
  }
}
