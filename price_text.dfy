/**
 * The three regular expressions of the content script, as hand-written
 * recognisers: the detection test of `isPriceNode`, the capture of
 * `extractPrice`, and the pattern `restoreOriginalPrices` replaces.
 */
module PriceText {
  import opened Wrappers
  import opened JsText
  import opened JsNumber

  predicate IsCurrencySign(c: char) {
    c == '$' || c == '€' || c == '£' || c == '¥'
  }

  /** `\s*\d` matches at `e`: the whitespace run from `e` is followed by a digit. */
  predicate SpacesThenDigit(t: string, e: nat)
    requires e <= |t|
  {
    var k := SkipSpaces(t, e);
    k < |t| && IsDigit(t[k])
  }

  // ---------------------------------------------------------------------------
  // Detection: /(?:^\$|\$\s+|\s+\$|\s+€|\s+£|\s+¥)\s*\d+(?:,\d{3})*(?:\.\d{2})?/.test

  /** One alternative of `(?:^\$|\$\s+|\s+\$|\s+€|\s+£|\s+¥)` matches exactly `t[i..e]`. */
  predicate PrefixMatches(t: string, i: nat, e: nat)
    requires i <= e <= |t|
  {
    (i == 0 && e == 1 && t[0] == '$')
    || (i + 1 < e && t[i] == '$' && AllSpaces(t, i + 1, e))
    || (i + 2 <= e && AllSpaces(t, i, e - 1) && IsCurrencySign(t[e - 1]))
  }

  /**
   * The detection regex matches at `i` in the sense of regular-expression
   * semantics: some alternative of the prefix, then `\s*\d`. The rest of the
   * pattern can match the empty string, so it does not decide the test.
   */
  predicate DetectionMatchAt(t: string, i: nat)
    requires i <= |t|
  {
    exists e | i < e <= |t| :: PrefixMatches(t, i, e) && SpacesThenDigit(t, e)
  }

  /** `currencyRegex.test(t)` by regular-expression semantics. */
  predicate DetectionTest(t: string) {
    exists i | 0 <= i < |t| :: DetectionMatchAt(t, i)
  }

  /**
   * The sign at `j` opens a price for the detection regex: a digit follows after
   * optional whitespace, and the sign is preceded by whitespace, or it is a `$`
   * at the very start or followed by whitespace.
   */
  predicate SignOpensPrice(t: string, j: nat)
    requires j < |t|
  {
    IsCurrencySign(t[j]) && SpacesThenDigit(t, j + 1)
    && ((j > 0 && IsSpace(t[j - 1]))
        || (t[j] == '$' && (j == 0 || (j + 1 < |t| && IsSpace(t[j + 1])))))
  }

  /** The recogniser: scan the positions from `j` for a sign that opens a price. */
  function ScanForPrice(t: string, j: nat): (found: bool)
    requires j <= |t|
    decreases |t| - j
  {
    j < |t| && (SignOpensPrice(t, j) || ScanForPrice(t, j + 1))
  }

  /** `isPriceNode(node)` on the node's text `t`: false for the empty text. */
  predicate IsPriceNode(t: string) {
    t != [] && ScanForPrice(t, 0)
  }

  lemma {:induction false} ScanForPriceSpec(t: string, j: nat)
    requires j <= |t|
    ensures ScanForPrice(t, j) <==> exists k | j <= k < |t| :: SignOpensPrice(t, k)
    decreases |t| - j
  {
    if j < |t| {
      ScanForPriceSpec(t, j + 1);
      if ScanForPrice(t, j + 1) {
        var k :| j + 1 <= k < |t| && SignOpensPrice(t, k);
        assert j <= k < |t|;
      }
    }
  }

  /** A match of the regex at `i` shows a sign that opens a price. */
  lemma MatchGivesSign(t: string, i: nat, e: nat) returns (k: nat)
    requires i < e <= |t| && PrefixMatches(t, i, e) && SpacesThenDigit(t, e)
    ensures k < |t| && SignOpensPrice(t, k)
  {
    if i == 0 && e == 1 && t[0] == '$' {
      k := 0;
    } else if i + 1 < e && t[i] == '$' && AllSpaces(t, i + 1, e) {
      k := i;
      SkipSpacesAcross(t, i + 1, e);
    } else {
      k := e - 1;
      assert IsSpace(t[k - 1]);
    }
  }

  /** A sign that opens a price is where the regex matches. */
  lemma SignGivesMatch(t: string, k: nat) returns (i: nat, e: nat)
    requires k < |t| && SignOpensPrice(t, k)
    ensures i < e <= |t| && PrefixMatches(t, i, e) && SpacesThenDigit(t, e)
  {
    if k > 0 && IsSpace(t[k - 1]) {
      i, e := k - 1, k + 1;
      assert AllSpaces(t, i, e - 1);
    } else if k == 0 {
      i, e := 0, 1;
    } else {
      i, e := k, k + 2;
      assert AllSpaces(t, i + 1, e);
      SkipSpacesAcross(t, k + 1, k + 2);
    }
  }

  /** The recogniser decides exactly what the regex test decides. */
  lemma IsPriceNodeIsRegexTest(t: string)
    ensures IsPriceNode(t) <==> DetectionTest(t)
  {
    ScanForPriceSpec(t, 0);
    if IsPriceNode(t) {
      var k :| 0 <= k < |t| && SignOpensPrice(t, k);
      var i, e := SignGivesMatch(t, k);
      assert DetectionMatchAt(t, i);
    }
    if DetectionTest(t) {
      var i :| 0 <= i < |t| && DetectionMatchAt(t, i);
      var e :| i < e <= |t| && PrefixMatches(t, i, e) && SpacesThenDigit(t, e);
      var k := MatchGivesSign(t, i, e);
      assert t != [];
    }
  }

  /** `isPriceNode` holds iff some position holds a sign that opens a price. */
  lemma IsPriceNodeSigns(t: string)
    ensures IsPriceNode(t) <==> exists k | 0 <= k < |t| :: SignOpensPrice(t, k)
  {
    ScanForPriceSpec(t, 0);
  }

  /** A euro sign at the very start does not open a price: `"€5"` is rejected. */
  lemma EuroAtStartRejected()
    ensures !IsPriceNode("€5")
  {
    var t := "€5";
    IsPriceNodeSigns(t);
    assert !SignOpensPrice(t, 0);
    assert !SignOpensPrice(t, 1);
  }

  /** A dollar glued to a word does not open a price: `"abc$5"` is rejected. */
  lemma DollarAfterWordRejected()
    ensures !IsPriceNode("abc$5")
  {
    var t := "abc$5";
    IsPriceNodeSigns(t);
    forall k | 0 <= k < |t| ensures !SignOpensPrice(t, k) {
      if k == 3 { assert t[k - 1] == 'c' && t[k + 1] == '5'; }
    }
  }

  /** A dollar after a space opens a price: `"abc $5"` is accepted. */
  lemma DollarAfterSpaceAccepted()
    ensures IsPriceNode("abc $5")
  {
    var t := "abc $5";
    assert SkipSpaces(t, 5) == 5;
    assert SignOpensPrice(t, 4);
    IsPriceNodeSigns(t);
  }

  // ---------------------------------------------------------------------------
  // The amount `\d+(?:,\d{3})*(?:\.\d{2})?` that all three patterns end with.

  /** `(?:,\d{3})*` from `g`, greedy: the end of the comma groups. */
  function CommaGroups(t: string, g: nat): (r: nat)
    requires g <= |t|
    ensures g <= r <= |t|
    decreases |t| - g
  {
    if g + 3 < |t| && t[g] == ',' && IsDigit(t[g + 1]) && IsDigit(t[g + 2]) && IsDigit(t[g + 3])
    then CommaGroups(t, g + 4)
    else g
  }

  /** `\.\d{2}` matches at `g`. */
  predicate CentsAt(t: string, g: nat)
    requires g <= |t|
  {
    g + 2 < |t| && t[g] == '.' && IsDigit(t[g + 1]) && IsDigit(t[g + 2])
  }

  /** The end of `\d+(?:,\d{3})*`, the integer part of the amount starting at `p`. */
  function IntegerEnd(t: string, p: nat): (g: nat)
    requires p <= |t|
    ensures p <= g <= |t|
  {
    CommaGroups(t, DigitRun(t, p))
  }

  /** The end of the whole amount starting at `p`: the integer part and optional cents. */
  function AmountEnd(t: string, p: nat): (e: nat)
    requires p <= |t|
    ensures p <= e <= |t|
  {
    var g := IntegerEnd(t, p);
    if CentsAt(t, g) then g + 3 else g
  }

  /** Comma groups keep the comma-free integer part a (non-empty) digit string. */
  lemma {:induction false} CommaGroupsDigits(t: string, p: nat, g: nat)
    requires p <= g <= |t|
    requires RemoveCommas(t[p..g]) != [] && AllDigits(RemoveCommas(t[p..g]))
    ensures RemoveCommas(t[p..CommaGroups(t, g)]) != []
    ensures AllDigits(RemoveCommas(t[p..CommaGroups(t, g)]))
    decreases |t| - g
  {
    if g + 3 < |t| && t[g] == ',' && IsDigit(t[g + 1]) && IsDigit(t[g + 2]) && IsDigit(t[g + 3]) {
      var a, b := t[p..g], t[g + 1..g + 4];
      assert t[p..g + 4] == (a + [',']) + b;
      assert AllDigits(b);
      RemoveCommasAppend(a + [','], b);
      RemoveCommasTrailingComma(a);
      RemoveCommasDigits(b);
      AllDigitsAppend(RemoveCommas(a), b);
      CommaGroupsDigits(t, p, g + 4);
    }
  }

  /** The comma-free integer part of the amount at a digit `p` is a non-empty digit string. */
  lemma IntegerPartDigits(t: string, p: nat)
    requires p < |t| && IsDigit(t[p])
    ensures RemoveCommas(t[p..IntegerEnd(t, p)]) != [] && AllDigits(RemoveCommas(t[p..IntegerEnd(t, p)]))
  {
    var k := DigitRun(t, p);
    assert AllDigits(t[p..k]);
    RemoveCommasDigits(t[p..k]);
    CommaGroupsDigits(t, p, k);
  }

  /** Appending `.dd` to a comma-free slice. */
  lemma CentsAppended(t: string, p: nat, g: nat)
    requires p <= g && g + 2 < |t| && t[g] == '.' && IsDigit(t[g + 1]) && IsDigit(t[g + 2])
    ensures RemoveCommas(t[p..g + 3]) == RemoveCommas(t[p..g]) + "." + t[g + 1..g + 3]
  {
    var d, f := t[p..g], t[g + 1..g + 3];
    assert t[p..g + 3] == (d + ".") + f;
    RemoveCommasAppend(d + ".", f);
    RemoveCommasAppend(d, ".");
    assert RemoveCommas(".") == ".";
    assert AllDigits(f);
    RemoveCommasDigits(f);
  }

  /** The value an amount at `p` stands for: its comma-free integer part plus its cents, if any. */
  function AmountValue(t: string, p: nat): (v: real)
    requires p < |t| && IsDigit(t[p])
    ensures v >= 0.0
  {
    IntegerPartDigits(t, p);
    var g := IntegerEnd(t, p);
    assert CentsAt(t, g) ==> AllDigits(t[g + 1..g + 3]) by {
      if CentsAt(t, g) { assert t[g + 1..g + 3] == [t[g + 1], t[g + 2]]; }
    }
    DigitsValue(RemoveCommas(t[p..g])) as real + (if CentsAt(t, g) then FractionValue(t[g + 1..g + 3]) else 0.0)
  }

  /**
   * `parseFloat` of the comma-free amount at a digit `p` is exactly the integer
   * part's value plus the two cents digits as hundredths.
   */
  lemma AmountParses(t: string, p: nat, s: string)
    requires p < |t| && IsDigit(t[p])
    requires s == RemoveCommas(t[p..AmountEnd(t, p)])
    ensures ParseFloat(s) == Finite(AmountValue(t, p))
    ensures ParseFloat(s).value >= 0.0
  {
    var g := IntegerEnd(t, p);
    if CentsAt(t, g) {
      CentsParse(t, p, g, s);
    } else {
      IntegerPartDigits(t, p);
      ParseFloatDigits(s);
    }
  }

  /** `AmountParses` when cents follow the integer part ending at `g`. */
  lemma CentsParse(t: string, p: nat, g: nat, s: string)
    requires p < |t| && IsDigit(t[p]) && g == IntegerEnd(t, p) && CentsAt(t, g)
    requires s == RemoveCommas(t[p..g + 3])
    ensures ParseFloat(s) == Finite(AmountValue(t, p))
  {
    AmountValueWithCents(t, p, g);
    CentsAppended(t, p, g);
    ParseFloatDecimal(s, "", RemoveCommas(t[p..g]), t[g + 1..g + 3]);
  }

  /** A price amid words, with a thousands group and cents. */
  const GroupedExample := "Price: $1,234.56 each"

  /** In `GroupedExample` the sign is at 7 and the amount `1,234.56` runs from 8 to 16. */
  lemma GroupedExampleScan()
    ensures FindAmount(GroupedExample, 0) == Some(7) && SkipSpaces(GroupedExample, 8) == 8
    ensures IntegerEnd(GroupedExample, 8) == 13 && CentsAt(GroupedExample, 13)
  {
    GroupedExampleSign();
    GroupedExampleInteger();
  }

  /** The leftmost match in `GroupedExample` is the `$` at 7, with the digit directly after it. */
  lemma GroupedExampleSign()
    ensures FindAmount(GroupedExample, 0) == Some(7) && SkipSpaces(GroupedExample, 8) == 8
  {
    var t := GroupedExample;
    assert SkipSpaces(t, 8) == 8;
    assert SignBeforeAmount(t, 7);
    assert !IsCurrencySign(t[0]) && !IsCurrencySign(t[1]) && !IsCurrencySign(t[2]) && !IsCurrencySign(t[3]);
    assert !IsCurrencySign(t[4]) && !IsCurrencySign(t[5]) && !IsCurrencySign(t[6]);
    FindAmountFirst(t, 0, 7);
  }

  /** The integer part of `GroupedExample`'s amount ends at 13, where the cents begin. */
  lemma GroupedExampleInteger()
    ensures IntegerEnd(GroupedExample, 8) == 13 && CentsAt(GroupedExample, 13)
  {
    var t := GroupedExample;
    assert DigitRun(t, 9) == 9;
    assert DigitRun(t, 8) == 9;
    assert CommaGroups(t, 13) == 13;
    assert CommaGroups(t, 9) == 13;
  }

  /** An amount with cents is worth its comma-free integer part plus the cents as hundredths. */
  lemma AmountValueWithCents(t: string, p: nat, g: nat)
    requires p < |t| && IsDigit(t[p]) && IntegerEnd(t, p) == g && CentsAt(t, g)
    ensures AllDigits(RemoveCommas(t[p..g])) && AllDigits(t[g + 1..g + 3])
    ensures AmountValue(t, p) == DigitsValue(RemoveCommas(t[p..g])) as real + FractionValue(t[g + 1..g + 3])
  {
    IntegerPartDigits(t, p);
    assert t[g + 1..g + 3] == [t[g + 1], t[g + 2]];
  }

  /** The integer part `1,234` of `GroupedExample` loses its comma. */
  lemma GroupedExampleUnits()
    ensures RemoveCommas(GroupedExample[8..13]) == "1234"
  {
    assert GroupedExample[8..13] == "1,234";
    assert "1,234"[1..] == ",234" && ",234"[1..] == "234";
    RemoveCommasDigits("234");
  }

  /** `1234` reads as 1234. */
  lemma GroupedExampleUnitsValue()
    ensures DigitsValue("1234") == 1234
  {
    assert "1234"[..3] == "123" && "123"[..2] == "12" && "12"[..1] == "1" && "1"[..0] == "";
  }

  /** The cents `56` of `GroupedExample` read as 0.56. */
  lemma GroupedExampleCents()
    ensures GroupedExample[14..16] == "56" && FractionValue("56") == 0.56
  {
    assert "56"[1..] == "6" && "6"[1..] == "";
  }

  /** `1,234.56` is worth 1234.56. */
  lemma GroupedExampleValue()
    ensures AmountValue(GroupedExample, 8) == 1234.56
  {
    GroupedExampleScan();
    GroupedExampleUnits();
    GroupedExampleUnitsValue();
    GroupedExampleCents();
    AmountValueWithCents(GroupedExample, 8, 13);
  }

  /** `"Price: $1,234.56 each"` yields 1234.56. */
  lemma ExtractGroupedExample()
    ensures ExtractPrice(GroupedExample) == Some(Finite(1234.56))
  {
    GroupedExampleScan();
    GroupedExampleValue();
    ExtractPriceValue(GroupedExample);
  }

  /** A third decimal, which the cents group does not take. */
  const ThirdDecimalExample := "$12.345"

  /** In `ThirdDecimalExample` the sign is at 0 and the amount `12.34` runs from 1 to 6. */
  lemma ThirdDecimalExampleScan()
    ensures FindAmount(ThirdDecimalExample, 0) == Some(0) && SkipSpaces(ThirdDecimalExample, 1) == 1
    ensures IntegerEnd(ThirdDecimalExample, 1) == 3 && CentsAt(ThirdDecimalExample, 3)
  {
    var t := ThirdDecimalExample;
    assert SkipSpaces(t, 1) == 1;
    assert SignBeforeAmount(t, 0);
    assert DigitRun(t, 3) == 3;
    assert DigitRun(t, 1) == 3;
    assert CommaGroups(t, 3) == 3;
  }

  /** `12.34` is worth 12.34. */
  lemma ThirdDecimalExampleValue()
    ensures AmountValue(ThirdDecimalExample, 1) == 12.34
  {
    var t := ThirdDecimalExample;
    ThirdDecimalExampleScan();
    assert t[1..3] == "12";
    assert RemoveCommas("12") == "12";
    assert DigitsValue("12") == 12;
    assert t[4..6] == "34";
    assert FractionValue("34") == 0.34;
  }

  /** `"$12.345"` yields 12.34: the third decimal is not part of the amount. */
  lemma ExtractThirdDecimalExample()
    ensures ExtractPrice(ThirdDecimalExample) == Some(Finite(12.34))
  {
    ThirdDecimalExampleScan();
    ThirdDecimalExampleValue();
    ExtractPriceValue(ThirdDecimalExample);
  }

  /**
   * Grouped units, a `.` and two cents digits at `p` are read as one amount,
   * whatever follows them.
   */
  lemma FormattedAmount(t: string, p: nat, w: nat, c: nat, m: nat)
    requires c < 100 && m == p + |Grouped(w)| && m + 3 <= |t|
    requires t[p..m] == Grouped(w) && t[m] == '.' && t[m + 1..m + 3] == Pad2(c)
    ensures AmountEnd(t, p) == m + 3
    ensures RemoveCommas(t[p..m + 3]) == RemoveCommas(Grouped(w)) + "." + Pad2(c)
  {
    FormattedAmountEnd(t, p, w, c, m);
    assert IsDigit(t[m + 1]) && IsDigit(t[m + 2]) by {
      assert t[m + 1] == Pad2(c)[0] && t[m + 2] == Pad2(c)[1];
    }
    CentsAppended(t, p, m);
  }

  /** The amount of `FormattedAmount` ends after the two cents digits. */
  lemma FormattedAmountEnd(t: string, p: nat, w: nat, c: nat, m: nat)
    requires c < 100 && m == p + |Grouped(w)| && m + 3 <= |t|
    requires t[p..m] == Grouped(w) && t[m] == '.' && t[m + 1..m + 3] == Pad2(c)
    ensures AmountEnd(t, p) == m + 3
  {
    GroupedScan(t, p, w);
    assert CommaGroups(t, m) == m;
    assert IsDigit(Pad2(c)[0]) && IsDigit(Pad2(c)[1]);
    assert t[m + 1] == Pad2(c)[0] && t[m + 2] == Pad2(c)[1];
    assert CentsAt(t, m);
  }

  /** `t[p..]` begins with `a + b`: it begins with `a`, and `b` follows. */
  lemma SliceSplit(t: string, p: nat, a: string, b: string)
    requires p + |a| + |b| <= |t| && t[p..p + |a| + |b|] == a + b
    ensures t[p..p + |a|] == a && t[p + |a|..p + |a| + |b|] == b
  {
    assert t[p..p + |a|] == t[p..p + |a| + |b|][..|a|];
    assert t[p + |a|..p + |a| + |b|] == t[p..p + |a| + |b|][|a|..];
  }

  /** One `,ddd` group is consumed. */
  lemma CommaGroupStep(t: string, m: nat)
    requires m + 3 < |t| && t[m] == ',' && DigitsIn(t, m + 1, m + 4)
    ensures CommaGroups(t, m) == CommaGroups(t, m + 4)
  {
    assert IsDigit(t[m + 1]) && IsDigit(t[m + 2]) && IsDigit(t[m + 3]);
  }

  /** A digit string placed at `p` makes `t[p..p + |d|]` digits. */
  lemma DigitsPlaced(t: string, p: nat, d: string)
    requires AllDigits(d) && p + |d| <= |t| && t[p..p + |d|] == d
    ensures DigitsIn(t, p, p + |d|)
  {
    forall m | p <= m < p + |d| ensures IsDigit(t[m]) { assert t[m] == d[m - p]; }
  }

  /** A digit string placed at `p` and not followed by a digit is one digit run. */
  lemma DigitRunOf(t: string, p: nat, d: string)
    requires AllDigits(d) && p + |d| <= |t| && t[p..p + |d|] == d
    requires p + |d| == |t| || !IsDigit(t[p + |d|])
    ensures DigitRun(t, p) == p + |d|
  {
    DigitsPlaced(t, p, d);
    DigitRunExact(t, p, p + |d|);
  }

  /** A group `"," p3` placed after `a` at `p`: `a` is in place and the group is consumed. */
  lemma GroupPlaced(t: string, p: nat, a: string, p3: string)
    requires |p3| == 3 && AllDigits(p3)
    requires p + |a| + 4 <= |t| && t[p..p + |a| + 4] == a + "," + p3
    ensures t[p..p + |a|] == a && t[p + |a|] == ','
    ensures CommaGroups(t, p + |a|) == CommaGroups(t, p + |a| + 4)
  {
    var m := p + |a|;
    SliceSplit(t, p, a, "," + p3);
    SliceSplit(t, m, ",", p3);
    DigitsPlaced(t, m + 1, p3);
    CommaGroupStep(t, m);
  }

  /** Units `g = a "," p3` placed at `p`: `a` is in place, a comma follows it, and the group is consumed. */
  lemma GroupedStep(t: string, p: nat, a: string, p3: string, g: string)
    requires |p3| == 3 && AllDigits(p3) && g == a + "," + p3
    requires p + |g| <= |t| && t[p..p + |g|] == g
    ensures p + |a| < |t| && t[p..p + |a|] == a && !IsDigit(t[p + |a|])
    ensures CommaGroups(t, p + |a|) == CommaGroups(t, p + |g|)
  {
    GroupPlaced(t, p, a, p3);
  }

  /**
   * Grouped units at `p`: after the leading digit run, the `,ddd` groups are
   * consumed up to the end of the units.
   */
  lemma {:induction false} GroupedRun(t: string, p: nat, w: nat)
    requires p + |Grouped(w)| <= |t| && t[p..p + |Grouped(w)|] == Grouped(w)
    requires p + |Grouped(w)| == |t| || !IsDigit(t[p + |Grouped(w)|])
    ensures CommaGroups(t, DigitRun(t, p)) == CommaGroups(t, p + |Grouped(w)|)
    decreases w
  {
    if w < 1000 {
      GroupedRunUnits(t, p, w);
    } else {
      GroupedRunLeading(t, p, w);
      GroupedRun(t, p, w / 1000);
    }
  }

  /** Units below 1000 are one digit run. */
  lemma GroupedRunUnits(t: string, p: nat, w: nat)
    requires w < 1000 && p + |Grouped(w)| <= |t| && t[p..p + |Grouped(w)|] == Grouped(w)
    requires p + |Grouped(w)| == |t| || !IsDigit(t[p + |Grouped(w)|])
    ensures DigitRun(t, p) == p + |Grouped(w)|
  {
    DigitRunOf(t, p, NatToDigits(w));
  }

  /** Units of 1000 or more begin with the grouped leading part, from whose end the groups run on. */
  lemma GroupedRunLeading(t: string, p: nat, w: nat)
    requires w >= 1000 && p + |Grouped(w)| <= |t| && t[p..p + |Grouped(w)|] == Grouped(w)
    ensures p + |Grouped(w / 1000)| < |t| && t[p..p + |Grouped(w / 1000)|] == Grouped(w / 1000)
    ensures !IsDigit(t[p + |Grouped(w / 1000)|])
    ensures CommaGroups(t, p + |Grouped(w / 1000)|) == CommaGroups(t, p + |Grouped(w)|)
  {
    GroupedStep(t, p, Grouped(w / 1000), Pad3(w % 1000), Grouped(w));
  }

  /** Grouped units are read as one integer part: digits, then whole `,ddd` groups. */
  lemma GroupedScan(t: string, p: nat, w: nat)
    requires p + |Grouped(w)| <= |t| && t[p..p + |Grouped(w)|] == Grouped(w)
    requires p + |Grouped(w)| == |t| || !IsDigit(t[p + |Grouped(w)|])
    ensures IntegerEnd(t, p) == CommaGroups(t, p + |Grouped(w)|)
  {
    GroupedRun(t, p, w);
  }

  // ---------------------------------------------------------------------------
  // Extraction: text.match(/(?:\$|€|£|¥)\s*(\d+(?:,\d{3})*(?:\.\d{2})?)/)

  /** The extraction regex can start at `j`: a sign, then `\s*\d`. */
  predicate SignBeforeAmount(t: string, j: nat)
    requires j < |t|
  {
    IsCurrencySign(t[j]) && SpacesThenDigit(t, j + 1)
  }

  /** The leftmost position at or after `j` where the extraction regex matches. */
  function FindAmount(t: string, j: nat): (r: Option<nat>)
    requires j <= |t|
    ensures r.Some? ==> j <= r.value < |t| && SignBeforeAmount(t, r.value)
    ensures r.Some? ==> forall m | j <= m < r.value :: !SignBeforeAmount(t, m)
    ensures r.None? ==> forall m | j <= m < |t| :: !SignBeforeAmount(t, m)
    decreases |t| - j
  {
    if j == |t| then None
    else if SignBeforeAmount(t, j) then Some(j)
    else FindAmount(t, j + 1)
  }

  /** With no currency sign from `j` up to a match at `k`, the leftmost match from `j` is at `k`. */
  lemma {:induction false} FindAmountFirst(t: string, j: nat, k: nat)
    requires j <= k < |t| && SignBeforeAmount(t, k)
    requires forall m | j <= m < k :: !IsCurrencySign(t[m])
    ensures FindAmount(t, j) == Some(k)
    decreases k - j
  {
    if j < k {
      FindAmountFirst(t, j + 1, k);
    }
  }

  /**
   * `extractPrice(t)`: `parseFloat` of the captured amount with its commas
   * removed, or None when the regex does not match.
   */
  function ExtractPrice(t: string): Option<JsNum> {
    match FindAmount(t, 0)
    case None => None
    case Some(j) =>
      var p := SkipSpaces(t, j + 1);
      Some(ParseFloat(RemoveCommas(t[p..AmountEnd(t, p)])))
  }

  /** A price is extracted exactly when some sign is followed, after optional whitespace, by a digit. */
  lemma ExtractPriceMatches(t: string)
    ensures ExtractPrice(t).Some? <==> exists j | 0 <= j < |t| :: SignBeforeAmount(t, j)
  {
  }

  /**
   * The value extracted: the amount after the first sign that opens one, read
   * as its integer part (commas dropped) plus its cents.
   */
  lemma ExtractPriceValue(t: string)
    requires ExtractPrice(t).Some?
    ensures ExtractPrice(t) == Some(Finite(AmountValue(t, SkipSpaces(t, FindAmount(t, 0).value + 1))))
  {
    var j := FindAmount(t, 0).value;
    var p := SkipSpaces(t, j + 1);
    AmountParses(t, p, RemoveCommas(t[p..AmountEnd(t, p)]));
  }

  /** An extracted price is always a finite, non-negative number. */
  lemma ExtractPriceFinite(t: string)
    requires ExtractPrice(t).Some?
    ensures ExtractPrice(t).value.Finite? && ExtractPrice(t).value.value >= 0.0
  {
    var j := FindAmount(t, 0).value;
    var p := SkipSpaces(t, j + 1);
    var s := RemoveCommas(t[p..AmountEnd(t, p)]);
    assert ExtractPrice(t) == Some(ParseFloat(s));
    AmountParses(t, p, s);
  }

  /** Text that `isPriceNode` accepts always yields a price. */
  lemma PriceNodeHasPrice(t: string)
    requires IsPriceNode(t)
    ensures ExtractPrice(t).Some?
  {
    IsPriceNodeSigns(t);
    var k :| 0 <= k < |t| && SignOpensPrice(t, k);
    assert SignBeforeAmount(t, k);
    ExtractPriceMatches(t);
  }

  /** `t` begins with `f`. */
  predicate BeginsWith(t: string, f: string) {
    |f| <= |t| && t[..|f|] == f
  }

  /** A text that begins with `f` agrees with `f` on every slice of it. */
  lemma BeginsWithSlice(t: string, f: string, a: nat, b: nat)
    requires BeginsWith(t, f) && a <= b <= |f|
    ensures t[a..b] == f[a..b]
    ensures a < b ==> t[a] == f[a]
  {
    forall i | a <= i < b ensures t[i] == f[i] { assert t[..|f|][i] == t[i]; }
    assert t[a..b] == f[a..b];
  }

  /** In a text that begins with a currency format, a digit follows the `$` directly. */
  lemma LayoutDigit(t: string, f: string, q: nat, n: nat)
    requires FormattedLayout(f, q, n) && BeginsWith(t, f)
    ensures q + 1 < |t| && IsDigit(t[q + 1]) && SkipSpaces(t, q + 1) == q + 1
  {
    var g := Grouped(n / 100);
    assert t[q + 1] == f[q + 1] == f[q + 1..q + 1 + |g|][0] == g[0];
    SkipSpacesAtDigit(t, q + 1);
  }

  /** The amount after the `$` of a leading currency format runs to the format's end. */
  lemma LayoutAmount(t: string, f: string, q: nat, n: nat)
    requires FormattedLayout(f, q, n) && BeginsWith(t, f)
    ensures AmountEnd(t, q + 1) == |f|
    ensures RemoveCommas(t[q + 1..|f|]) == RemoveCommas(Grouped(n / 100)) + "." + Pad2(n % 100)
  {
    var m := q + 1 + |Grouped(n / 100)|;
    LayoutPieces(t, f, q, n, m);
    FormattedAmount(t, q + 1, n / 100, n % 100, m);
    assert t[q + 1..|f|] == t[q + 1..m + 3];
  }

  /** A text that begins with a currency format holds its units, its `.` and its cents where the format does. */
  lemma LayoutPieces(t: string, f: string, q: nat, n: nat, m: nat)
    requires FormattedLayout(f, q, n) && BeginsWith(t, f) && m == q + 1 + |Grouped(n / 100)|
    ensures m + 3 == |f| && t[q + 1..m] == Grouped(n / 100) && t[m] == '.' && t[m + 1..m + 3] == Pad2(n % 100)
  {
    BeginsWithSlice(t, f, q + 1, m);
    BeginsWithSlice(t, f, m, m + 1);
    BeginsWithSlice(t, f, m + 1, m + 3);
    assert f[m + 1..m + 3] == f[m + 1..];
  }

  /** Extracting from a text that begins with a currency format gives its magnitude. */
  lemma ExtractLayout(t: string, f: string, q: nat, n: nat)
    requires FormattedLayout(f, q, n) && BeginsWith(t, f)
    ensures ExtractPrice(t) == Some(Finite(n as real / 100.0))
  {
    LayoutDigit(t, f, q, n);
    LayoutAmount(t, f, q, n);
    assert t[q] == f[q];
    assert FindAmount(t, 0) == Some(q) by {
      assert SignBeforeAmount(t, q);
      if q == 1 { assert t[0] == f[0]; assert !SignBeforeAmount(t, 0); }
    }
    var s := RemoveCommas(t[q + 1..|f|]);
    assert ExtractPrice(t) == Some(ParseFloat(s));
    FormattedValue(s, n);
  }

  /**
   * Extracting from the currency format of `n` cents, followed by any text,
   * gives `n / 100`.
   */
  lemma ExtractCents(negative: bool, n: nat, suffix: string)
    ensures ExtractPrice(FormatCents(negative, n) + suffix) == Some(Finite(n as real / 100.0))
  {
    var f := FormatCents(negative, n);
    FormatCentsLayout(negative, n, f);
    assert (f + suffix)[..|f|] == f;
    ExtractLayout(f + suffix, f, if negative then 1 else 0, n);
  }

  /**
   * Extracting from the text an update writes, followed by any text, gives
   * back the formatted magnitude.
   */
  lemma ExtractFormatted(x: real, suffix: string)
    ensures ExtractPrice(FormatUsd(x) + suffix) == Some(Finite(CentsMagnitude(x) as real / 100.0))
  {
    ExtractCents(x < 0.0, CentsMagnitude(x), suffix);
  }

  /** The comma-free formatted amount of `n` cents reads back as `n / 100`. */
  lemma FormattedValue(s: string, n: nat)
    requires s == RemoveCommas(Grouped(n / 100)) + "." + Pad2(n % 100)
    ensures ParseFloat(s) == Finite(n as real / 100.0)
    ensures ToNumber(s) == Finite(n as real / 100.0)
  {
    var d := RemoveCommas(Grouped(n / 100));
    GroupedDigits(n / 100);
    ParseFloatDecimal(s, "", d, Pad2(n % 100));
    ToNumberDecimal(s, d, Pad2(n % 100));
    CentsLiteral(n, d);
  }

  lemma CentsLiteral(n: nat, d: string)
    requires AllDigits(d) && DigitsValue(d) == n / 100
    ensures DigitsValue(d) as real + FractionValue(Pad2(n % 100)) == n as real / 100.0
  {
    CentsSplitValue(n);
    assert DigitsValue(d) == DigitsValue(NatToDigits(n / 100));
  }

  // ---------------------------------------------------------------------------
  // Restoring: text.replace(/\$?\s*\d+(?:,\d{3})*(?:\.\d{2})?/, formatted)

  /** The restore regex can start at `i`: an optional `$`, then `\s*\d`. */
  predicate RestoreMatchAt(t: string, i: nat)
    requires i < |t|
  {
    (t[i] == '$' && SpacesThenDigit(t, i + 1)) || SpacesThenDigit(t, i)
  }

  /** The leftmost position at or after `j` where the restore regex matches. */
  function FindRestoreMatch(t: string, j: nat): (r: Option<nat>)
    requires j <= |t|
    ensures r.Some? ==> j <= r.value < |t| && RestoreMatchAt(t, r.value)
    ensures r.Some? ==> forall m | j <= m < r.value :: !RestoreMatchAt(t, m)
    ensures r.None? ==> forall m | j <= m < |t| :: !RestoreMatchAt(t, m)
    decreases |t| - j
  {
    if j == |t| then None
    else if RestoreMatchAt(t, j) then Some(j)
    else FindRestoreMatch(t, j + 1)
  }

  /**
   * `t.replace(pattern, formatted)`: the first match, if any, is replaced.
   * The pattern has no capture groups, so `$1` and the like in `formatted`
   * are copied literally.
   */
  function RestoreText(t: string, formatted: string): string {
    match FindRestoreMatch(t, 0)
    case None => t
    case Some(i) =>
      var p := SkipSpaces(t, if t[i] == '$' && SpacesThenDigit(t, i + 1) then i + 1 else i);
      t[..i] + formatted + t[AmountEnd(t, p)..]
  }

  /** The restore pattern matches somewhere iff the text holds a digit; a text without one is left as it is. */
  lemma RestoreMatchesDigit(t: string, formatted: string)
    ensures FindRestoreMatch(t, 0).Some? <==> ContainsDigit(t)
    ensures !ContainsDigit(t) ==> RestoreText(t, formatted) == t
  {
    if ContainsDigit(t) {
      var k :| 0 <= k < |t| && IsDigit(t[k]);
      assert SkipSpaces(t, k) == k;
      assert RestoreMatchAt(t, k);
    }
    if FindRestoreMatch(t, 0).Some? {
      var i := FindRestoreMatch(t, 0).value;
      var k := if t[i] == '$' && SpacesThenDigit(t, i + 1) then SkipSpaces(t, i + 1) else SkipSpaces(t, i);
      assert IsDigit(t[k]);
    }
  }

  /** In a text that begins with a currency format, the restore pattern matches from its `$` to the format's end. */
  lemma RestoreLayout(t: string, f: string, q: nat, n: nat, formatted: string)
    requires FormattedLayout(f, q, n) && BeginsWith(t, f)
    ensures RestoreText(t, formatted) == (if q == 1 then "-" else "") + formatted + t[|f|..]
  {
    LayoutRestoreMatch(t, f, q, n);
    LayoutAmount(t, f, q, n);
    RestoreAtDollar(t, q, formatted);
    assert t[..q] == f[..q] == (if q == 1 then "-" else "");
  }

  /** When the first match starts at a `$`, the amount after it is what is replaced. */
  lemma RestoreAtDollar(t: string, i: nat, formatted: string)
    requires FindRestoreMatch(t, 0) == Some(i) && t[i] == '$' && SpacesThenDigit(t, i + 1)
    ensures RestoreText(t, formatted) == t[..i] + formatted + t[AmountEnd(t, SkipSpaces(t, i + 1))..]
  {
  }

  /** In a text that begins with a currency format, the restore pattern first matches at the `$`. */
  lemma LayoutRestoreMatch(t: string, f: string, q: nat, n: nat)
    requires FormattedLayout(f, q, n) && BeginsWith(t, f)
    ensures FindRestoreMatch(t, 0) == Some(q) && t[q] == '$'
    ensures SpacesThenDigit(t, q + 1) && SkipSpaces(t, q + 1) == q + 1
  {
    LayoutDigit(t, f, q, n);
    assert t[q] == f[q];
    assert RestoreMatchAt(t, q);
    if q == 1 { assert t[0] == f[0]; assert SkipSpaces(t, 0) == 0; assert !RestoreMatchAt(t, 0); }
  }

  /**
   * Restoring over a currency-formatted text followed by any `suffix` replaces
   * the formatted part and keeps the suffix; a minus sign in front of the `$`
   * is kept too.
   */
  lemma RestoreFormatted(y: real, suffix: string, formatted: string)
    ensures RestoreText(FormatUsd(y) + suffix, formatted) == (if y < 0.0 then "-" else "") + formatted + suffix
  {
    var f := FormatCents(y < 0.0, CentsMagnitude(y));
    var t := f + suffix;
    FormatCentsLayout(y < 0.0, CentsMagnitude(y), f);
    assert t[..|f|] == f && t[|f|..] == suffix;
    RestoreLayout(t, f, if y < 0.0 then 1 else 0, CentsMagnitude(y), formatted);
  }
}
