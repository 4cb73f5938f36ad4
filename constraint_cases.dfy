/**
 * The cases of pkg/tfs/constraint_test.go, each an instance of the general lemmas about
 * `expandPessimistic` and `newConstraintExtended`.
 */
module ConstraintCases {
  import opened Wrappers
  import opened Strings
  import opened Versions
  import opened Constraints
  import opened Expansion
  import opened Comparators
  import opened Util

  lemma Small()
    ensures Decimal(0) == "0" && Decimal(1) == "1" && Decimal(2) == "2" && Decimal(3) == "3" && Decimal(4) == "4"
    ensures DecimalValue("1") == 1 && DecimalValue("2") == 2 && DecimalValue("3") == 3
    ensures DecimalValue("02") == 2 && DecimalValue("12") == 12 && Decimal(12) == "12" && Decimal(13) == "13"
  {
    assert DecimalValue("0") == 0;
    assert "02"[..1] == "0";
    assert "12"[..1] == "1";
    assert Decimal(1) == "1";
    assert Decimal(12) == Decimal(1) + ['2'];
    assert Decimal(13) == Decimal(1) + ['3'];
  }

  lemma Digits()
    ensures DecimalValue("1") == 1 && DecimalValue("2") == 2 && DecimalValue("3") == 3
    ensures Decimal(1) == "1" && Decimal(2) == "2" && Decimal(3) == "3"
  {
    Small();
  }

  // The texts the general lemmas build, written as the literals of the cases.

  lemma MajorIn(e: string, sp: string, a: string, rest: string)
    requires e == "~>" + sp + a + rest
    ensures [] + ("~>" + sp + a + rest) == e
  {
  }

  lemma MajorOut(o: string, d: string, f: string, rest: string)
    requires o == ">=" + d + ".0.0" + ", " + ("<" + f + ".0.0") + rest
    ensures [] + (">=" + d + ".0.0" + ", " + ("<" + f + ".0.0")) + rest == o
  {
  }

  lemma MinorIn(e: string, sp: string, a: string, b: string, rest: string)
    requires e == "~>" + sp + (a + "." + b) + rest
    ensures [] + ("~>" + sp + (a + "." + b) + rest) == e
  {
  }

  lemma MinorOut(o: string, d: string, g: string, h: string, rest: string)
    requires o == ">=" + d + "." + g + ".0" + ", " + ("<" + d + "." + h + ".0") + rest
    ensures [] + (">=" + d + "." + g + ".0" + ", " + ("<" + d + "." + h + ".0")) + rest == o
  {
  }

  lemma PatchIn(e: string, sp: string, a: string, b: string, c: string, rest: string)
    requires e == "~>" + sp + (a + "." + b + "." + c) + rest
    ensures [] + ("~>" + sp + (a + "." + b + "." + c) + rest) == e
  {
  }

  lemma PatchOut(o: string, d: string, g: string, k: string, h: string, rest: string)
    requires o == ">=" + d + "." + g + "." + k + ", " + ("<" + d + "." + h + ".0") + rest
    ensures [] + (">=" + d + "." + g + "." + k + ", " + ("<" + d + "." + h + ".0")) + rest == o
  {
  }

  /** A text without `~` comes back unchanged. */
  lemma PlainCase(e: string)
    requires '~' !in e
    ensures Expand(e) == Success(e)
  {
    NotContainsForeign(e, "~>", '~');
    ExpandWithoutOperator(e);
  }

  /** TestExpandPessimistic_NoOp: plain comparators pass through untouched. */
  lemma NoOpCase()
    ensures Expand(">=1.2.3, <2.0.0") == Success(">=1.2.3, <2.0.0")
  {
    PlainCase(">=1.2.3, <2.0.0");
  }

  /** TestExpandPessimistic_OnlyRegularConstraints. */
  lemma OnlyRegularCase()
    ensures Expand(">=1.0.0, <2.0.0, !=1.5.0") == Success(">=1.0.0, <2.0.0, !=1.5.0")
  {
    PlainCase(">=1.0.0, <2.0.0, !=1.5.0");
  }

  /** TestExpandPessimistic_EmptyString. */
  lemma EmptyCase()
    ensures Expand("") == Success("")
  {
    PlainCase("");
  }

  /** TestExpandPessimistic_Major: `~> 1` is the next-major range. */
  lemma MajorCase()
    ensures Expand("~> 1") == Success(">=1.0.0, <2.0.0")
  {
    Digits();
    MajorIn("~> 1", " ", "1", []);
    MajorOut(">=1.0.0, <2.0.0", "1", "2", []);
    ExpandMajor([], " ", "1", []);
  }

  lemma BadSuffixText()
    ensures '~' !in ".bad" && Ends(1, ".bad") && AllSpaces(" ") && IsNumeral("1")
    ensures [] + ("~>" + " " + "1" + ".bad") == "~> 1.bad"
    ensures [] + (">=" + "1" + ".0.0" + ", " + ("<" + "2" + ".0.0")) + ".bad" == ">=1.0.0, <2.0.0.bad"
  {
    MajorIn("~> 1.bad", " ", "1", ".bad");
    MajorOut(">=1.0.0, <2.0.0.bad", "1", "2", ".bad");
  }

  /** TestExpandPessimistic_Invalid: `.bad` cannot extend the operand and stays after the pair. */
  lemma BadSuffixCase()
    ensures Expand("~> 1.bad") == Success(">=1.0.0, <2.0.0.bad")
  {
    Digits();
    BadSuffixText();
    ExpandMajor([], " ", "1", ".bad");
  }

  /** TestExpandPessimistic_Minor: `~> 1.2` is the next-minor range. */
  lemma MinorCase()
    ensures Expand("~> 1.2") == Success(">=1.2.0, <1.3.0")
  {
    Digits();
    MinorIn("~> 1.2", " ", "1", "2", []);
    MinorOut(">=1.2.0, <1.3.0", "1", "2", "3", []);
    ExpandMinor([], " ", "1", "2", []);
  }

  /** TestExpandPessimistic_NoSpace: the space after `~>` is optional. */
  lemma NoSpaceCase()
    ensures Expand("~>1.2") == Success(">=1.2.0, <1.3.0")
  {
    Digits();
    MinorIn("~>1.2", "", "1", "2", []);
    MinorOut(">=1.2.0, <1.3.0", "1", "2", "3", []);
    ExpandMinor([], "", "1", "2", []);
  }

  lemma TrailingCharsText()
    ensures '~' !in "alpha" && Ends(2, "alpha") && AllSpaces("") && IsNumeral("1") && IsNumeral("2")
    ensures [] + ("~>" + "" + ("1" + "." + "2") + "alpha") == "~>1.2alpha"
    ensures [] + (">=" + "1" + "." + "2" + ".0" + ", " + ("<" + "1" + "." + "3" + ".0")) + "alpha" == ">=1.2.0, <1.3.0alpha"
  {
    MinorIn("~>1.2alpha", "", "1", "2", "alpha");
    MinorOut(">=1.2.0, <1.3.0alpha", "1", "2", "3", "alpha");
  }

  /** TestExpandPessimistic_InvalidTrailingChars: letters after the operand are kept. */
  lemma TrailingCharsCase()
    ensures Expand("~>1.2alpha") == Success(">=1.2.0, <1.3.0alpha")
  {
    Digits();
    TrailingCharsText();
    ExpandMinor([], "", "1", "2", "alpha");
  }

  lemma CompositeText()
    ensures '~' !in ", >=1.2.5" && Ends(2, ", >=1.2.5") && AllSpaces(" ") && IsNumeral("1") && IsNumeral("2")
    ensures [] + ("~>" + " " + ("1" + "." + "2") + ", >=1.2.5") == "~> 1.2, >=1.2.5"
    ensures [] + (">=" + "1" + "." + "2" + ".0" + ", " + ("<" + "1" + "." + "3" + ".0")) + ", >=1.2.5" == ">=1.2.0, <1.3.0, >=1.2.5"
  {
    MinorIn("~> 1.2, >=1.2.5", " ", "1", "2", ", >=1.2.5");
    MinorOut(">=1.2.0, <1.3.0, >=1.2.5", "1", "2", "3", ", >=1.2.5");
  }

  /** TestExpandPessimistic_Composite: a further clause after the operand is kept. */
  lemma CompositeCase()
    ensures Expand("~> 1.2, >=1.2.5") == Success(">=1.2.0, <1.3.0, >=1.2.5")
  {
    Digits();
    CompositeText();
    ExpandMinor([], " ", "1", "2", ", >=1.2.5");
  }

  lemma PatchText()
    ensures '~' !in [] && Ends(3, []) && AllSpaces(" ") && IsNumeral("1") && IsNumeral("2") && IsNumeral("3")
    ensures [] + ("~>" + " " + ("1" + "." + "2" + "." + "3") + []) == "~> 1.2.3"
    ensures [] + (">=" + "1" + "." + "2" + "." + "3" + ", " + ("<" + "1" + "." + "3" + ".0")) + [] == ">=1.2.3, <1.3.0"
  {
    PatchIn("~> 1.2.3", " ", "1", "2", "3", []);
    PatchOut(">=1.2.3, <1.3.0", "1", "2", "3", "3", []);
  }

  /** TestExpandPessimistic_Patch: `~> 1.2.3` is the range up to the next minor. */
  lemma PatchCase()
    ensures Expand("~> 1.2.3") == Success(">=1.2.3, <1.3.0")
  {
    Digits();
    PatchText();
    ExpandPatch([], " ", "1", "2", "3", []);
  }

  /** TestExpandPessimistic_LeadingZeros: `02` reads as 2. */
  lemma LeadingZerosCase()
    ensures Expand("~> 1.02.3") == Success(">=1.2.3, <1.3.0")
  {
    Small();
    PatchIn("~> 1.02.3", " ", "1", "02", "3", []);
    PatchOut(">=1.2.3, <1.3.0", "1", "2", "3", "3", []);
    ExpandPatch([], " ", "1", "02", "3", []);
  }

  lemma PreReleaseText()
    ensures '~' !in "-beta" && Ends(3, "-beta") && AllSpaces(" ") && IsNumeral("1") && IsNumeral("2") && IsNumeral("3")
    ensures [] + ("~>" + " " + ("1" + "." + "2" + "." + "3") + "-beta") == "~> 1.2.3-beta"
    ensures [] + (">=" + "1" + "." + "2" + "." + "3" + ", " + ("<" + "1" + "." + "3" + ".0")) + "-beta" == ">=1.2.3, <1.3.0-beta"
  {
    PatchIn("~> 1.2.3-beta", " ", "1", "2", "3", "-beta");
    PatchOut(">=1.2.3, <1.3.0-beta", "1", "2", "3", "3", "-beta");
  }

  /** TestExpandPessimistic_PreRelease: a pre-release suffix is left after the pair. */
  lemma PreReleaseCase()
    ensures Expand("~> 1.2.3-beta") == Success(">=1.2.3, <1.3.0-beta")
  {
    Digits();
    PreReleaseText();
    ExpandPatch([], " ", "1", "2", "3", "-beta");
  }

  lemma BuildMetadataText()
    ensures '~' !in "+meta" && Ends(3, "+meta") && AllSpaces(" ") && IsNumeral("1") && IsNumeral("2") && IsNumeral("3")
    ensures [] + ("~>" + " " + ("1" + "." + "2" + "." + "3") + "+meta") == "~> 1.2.3+meta"
    ensures [] + (">=" + "1" + "." + "2" + "." + "3" + ", " + ("<" + "1" + "." + "3" + ".0")) + "+meta" == ">=1.2.3, <1.3.0+meta"
  {
    PatchIn("~> 1.2.3+meta", " ", "1", "2", "3", "+meta");
    PatchOut(">=1.2.3, <1.3.0+meta", "1", "2", "3", "3", "+meta");
  }

  /** TestExpandPessimistic_BuildMetadata: build metadata is left after the pair. */
  lemma BuildMetadataCase()
    ensures Expand("~> 1.2.3+meta") == Success(">=1.2.3, <1.3.0+meta")
  {
    Digits();
    BuildMetadataText();
    ExpandPatch([], " ", "1", "2", "3", "+meta");
  }

  lemma FourSegmentsText()
    ensures '~' !in ".4" && Ends(3, ".4") && AllSpaces(" ") && IsNumeral("1") && IsNumeral("2") && IsNumeral("3")
    ensures [] + ("~>" + " " + ("1" + "." + "2" + "." + "3") + ".4") == "~> 1.2.3.4"
    ensures [] + (">=" + "1" + "." + "2" + "." + "3" + ", " + ("<" + "1" + "." + "3" + ".0")) + ".4" == ">=1.2.3, <1.3.0.4"
  {
    PatchIn("~> 1.2.3.4", " ", "1", "2", "3", ".4");
    PatchOut(">=1.2.3, <1.3.0.4", "1", "2", "3", "3", ".4");
  }

  /** TestExpandPessimistic_FourSegments: the operand takes three parts; `.4` is left over. */
  lemma FourSegmentsCase()
    ensures Expand("~> 1.2.3.4") == Success(">=1.2.3, <1.3.0.4")
  {
    Digits();
    FourSegmentsText();
    ExpandPatch([], " ", "1", "2", "3", ".4");
  }

  lemma PairParts()
    ensures AllNumerals(["1", "2"]) && Join(["1", "2"], ['.']) == "1.2"
  {
    PairNumerals("1", "2");
  }

  lemma MultipleParts()
    ensures AllNumerals(["1", "2"]) && Join(["1", "2"], ['.']) == "1.2"
    ensures AllNumerals(["1", "3", "4"]) && Join(["1", "3", "4"], ['.']) == "1.3.4"
    ensures Bounds(["1", "2"]) == ">=1.2.0, <1.3.0"
    ensures Bounds(["1", "3", "4"]) == ">=1.3.4, <1.4.0"
  {
    PairParts();
    TripleParts();
    PairBounds();
    TripleBounds();
  }

  lemma TripleParts()
    ensures AllNumerals(["1", "3", "4"]) && Join(["1", "3", "4"], ['.']) == "1.3.4"
  {
    TripleNumerals("1", "3", "4");
    assert ["1", "3", "4"][1..] == ["3", "4"];
  }

  lemma PairBounds()
    ensures Bounds(["1", "2"]) == ">=1.2.0, <1.3.0"
  {
    Digits();
    PairParts();
    BoundsTwo(["1", "2"]);
    assert Part(["1", "2"], 0) == 1 && Part(["1", "2"], 1) == 2;
  }

  lemma TripleBounds()
    ensures Bounds(["1", "3", "4"]) == ">=1.3.4, <1.4.0"
  {
    Small();
    TripleParts();
    BoundsThree(["1", "3", "4"]);
    assert Part(["1", "3", "4"], 0) == 1 && Part(["1", "3", "4"], 1) == 3 && Part(["1", "3", "4"], 2) == 4;
  }



  lemma MultipleText(e: string, o: string, j1: string, j2: string, b1: string, b2: string)
    requires j1 == "1.2" && j2 == "1.3.4" && b1 == ">=1.2.0, <1.3.0" && b2 == ">=1.3.4, <1.4.0"
    requires e == "~> 1.2, ~>1.3.4" && o == ">=1.2.0, <1.3.0, >=1.3.4, <1.4.0"
    ensures "~>" + " " + j1 + (", " + ("~>" + "" + j2 + [])) == e
    ensures b1 + (", " + (b2 + [])) == o
  {
  }

  /** TestExpandPessimistic_Multiple: both operands are expanded, in place. */
  lemma MultipleCase()
    ensures Expand("~> 1.2, ~>1.3.4") == Success(">=1.2.0, <1.3.0, >=1.3.4, <1.4.0")
  {
    MultipleParts();
    ExpandTwo(" ", ["1", "2"], ", ", "", ["1", "3", "4"], []);
    MultipleText("~> 1.2, ~>1.3.4", ">=1.2.0, <1.3.0, >=1.3.4, <1.4.0",
      Join(["1", "2"], ['.']), Join(["1", "3", "4"], ['.']), Bounds(["1", "2"]), Bounds(["1", "3", "4"]));
  }

  /** A space, then text that does not start with a digit: no version follows the `~>`. */
  lemma NoVersionAfter(rest: string)
    requires |rest| >= 2 && rest[0] == ' ' && !IsSpace(rest[1]) && !IsDigit(rest[1])
    ensures !Anchored("~>" + rest)
  {
    var t := "~>" + rest;
    assert t[2..] == rest;
    assert rest[1..][0] == rest[1];
    assert SpaceRun(rest) == 1;
  }

  lemma DanglingText(e: string, rest: string, m: string)
    requires e == "~>" + rest && m == "invalid pessimistic constraint: " + e
    ensures [] + ("~>" + rest) == e && "invalid pessimistic constraint: " + ([] + ("~>" + rest)) == m
  {
  }

  lemma InvalidDoubleText()
    ensures '~' !in [] && !Anchored("~>" + " ~> 1.2")
    ensures [] + ("~>" + " ~> 1.2") == "~> ~> 1.2"
    ensures "invalid pessimistic constraint: " + ([] + ("~>" + " ~> 1.2")) == "invalid pessimistic constraint: ~> ~> 1.2"
  {
    NoVersionAfter(" ~> 1.2");
    DanglingText("~> ~> 1.2", " ~> 1.2", "invalid pessimistic constraint: ~> ~> 1.2");
  }

  /** TestExpandPessimistic_InvalidDouble: a `~>` followed by another `~>` is an error. */
  lemma InvalidDoubleCase()
    ensures Expand("~> ~> 1.2") == Failure("invalid pessimistic constraint: ~> ~> 1.2")
  {
    InvalidDoubleText();
    ExpandDangling([], " ~> 1.2");
  }

  lemma MixedText(e: string, j: string, m: string)
    requires j == "1.2" && e == "~> 1.2, >=2.0.0, ~> bad" && m == "invalid pessimistic constraint: " + e
    ensures "~>" + " " + j + (", >=2.0.0, " + ("~>" + " bad")) == e
    ensures "invalid pessimistic constraint: " + ("~>" + " " + j + (", >=2.0.0, " + ("~>" + " bad"))) == m
  {
  }

  lemma MixedRequires()
    ensures '~' !in ", >=2.0.0, " && !Anchored("~>" + " bad") && AllSpaces(" ")
    ensures AllNumerals(["1", "2"]) && Ends(2, ", >=2.0.0, " + ("~>" + " bad"))
  {
    NoVersionAfter(" bad");
    PairParts();
  }

  lemma MixedFacts()
    ensures "~>" + " " + Join(["1", "2"], ['.']) + (", >=2.0.0, " + ("~>" + " bad")) == "~> 1.2, >=2.0.0, ~> bad"
    ensures "invalid pessimistic constraint: " + ("~>" + " " + Join(["1", "2"], ['.']) + (", >=2.0.0, " + ("~>" + " bad")))
      == "invalid pessimistic constraint: ~> 1.2, >=2.0.0, ~> bad"
  {
    PairParts();
    MixedText("~> 1.2, >=2.0.0, ~> bad", Join(["1", "2"], ['.']), "invalid pessimistic constraint: ~> 1.2, >=2.0.0, ~> bad");
  }

  /** TestExpandPessimistic_MixedValidInvalid: `~> bad` after valid clauses is an error. */
  lemma MixedValidInvalidCase()
    ensures Expand("~> 1.2, >=2.0.0, ~> bad") == Failure("invalid pessimistic constraint: ~> 1.2, >=2.0.0, ~> bad")
  {
    MixedRequires();
    MixedFacts();
    ExpandDanglingAfter(" ", ["1", "2"], ", >=2.0.0, ", " bad");
  }

  lemma OperandText()
    ensures "~>" + " " + "1" == "~> 1"
    ensures "~>" + " " + ("1" + "." + "2") == "~> 1.2"
    ensures "~>" + " " + ("1" + "." + "2" + "." + "3") == "~> 1.2.3"
    ensures "~>" + " " + ("1" + "." + "12") == "~> 1.12"
  {
  }

  /** TestExpandPessimistic_Major: `~> 1` holds for 1.5.0 and not for 2.0.0. */
  lemma MajorCheckCase()
    ensures var r := NewConstraintExtended("~> 1");
      r.Success? && Check(r.value, Version(1, 5, 0)) && !Check(r.value, Version(2, 0, 0))
  {
    Small();
    OperandText();
    PessimisticMajor(" ", "1", 1, Version(1, 5, 0));
    PessimisticMajor(" ", "1", 1, Version(2, 0, 0));
  }

  /** TestExpandPessimistic_Minor: `~> 1.2` holds for 1.2.5 and not for 1.3.0. */
  lemma MinorCheckCase()
    ensures var r := NewConstraintExtended("~> 1.2");
      r.Success? && Check(r.value, Version(1, 2, 5)) && !Check(r.value, Version(1, 3, 0))
  {
    Small();
    OperandText();
    PessimisticMinor(" ", "1", "2", 1, 2, Version(1, 2, 5));
    PessimisticMinor(" ", "1", "2", 1, 2, Version(1, 3, 0));
  }

  /** TestExpandPessimistic_Patch: `~> 1.2.3` holds for 1.2.3 and 1.2.9, not for 1.3.0. */
  lemma PatchCheckCase()
    ensures var r := NewConstraintExtended("~> 1.2.3");
      r.Success? && Check(r.value, Version(1, 2, 3)) && Check(r.value, Version(1, 2, 9)) && !Check(r.value, Version(1, 3, 0))
  {
    Small();
    OperandText();
    PessimisticPatch(" ", "1", "2", "3", 1, 2, 3, Version(1, 2, 3));
    PessimisticPatch(" ", "1", "2", "3", 1, 2, 3, Version(1, 2, 9));
    PessimisticPatch(" ", "1", "2", "3", 1, 2, 3, Version(1, 3, 0));
  }

  /** `~> 1.12` holds for 1.12.9 and not for 1.13.0. */
  lemma MinorBoundaryCase()
    ensures var r := NewConstraintExtended("~> 1.12");
      r.Success? && Check(r.value, Version(1, 12, 9)) && !Check(r.value, Version(1, 13, 0))
  {
    Small();
    OperandText();
    PessimisticMinor(" ", "1", "12", 1, 12, Version(1, 12, 9));
    PessimisticMinor(" ", "1", "12", 1, 12, Version(1, 13, 0));
  }
}
