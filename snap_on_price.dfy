/**
 * The Snap-on adapter: a price element carries class `ng-star-inserted` and its
 * whole trimmed text is a dollar amount such as `$1,234.56`; the price is
 * rewritten in the US currency format.
 */
module SnapOnPrice {
  import opened Wrappers
  import opened JsText
  import opened JsNumber
  import opened Dom
  import opened PriceText

  /** The class `[\d,]`. */
  predicate IsDigitOrComma(c: char) {
    IsDigit(c) || c == ','
  }

  /** Every character of `s[a..b]` is in `[\d,]`. */
  predicate DigitsOrCommasIn(s: string, a: int, b: int)
    requires 0 <= a <= b <= |s|
  {
    forall m | a <= m < b :: IsDigitOrComma(s[m])
  }

  /** The end of the maximal `[\d,]` run of `s` that starts at `j`. */
  function DigitCommaRun(s: string, j: nat): (k: nat)
    requires j <= |s|
    ensures j <= k <= |s|
    ensures k == |s| || !IsDigitOrComma(s[k])
    decreases |s| - j
  {
    if j < |s| && IsDigitOrComma(s[j]) then DigitCommaRun(s, j + 1) else j
  }

  /** The run `DigitCommaRun` finds is in `[\d,]`. */
  lemma {:induction false} DigitCommaRunSpan(s: string, j: nat)
    requires j <= |s|
    ensures DigitsOrCommasIn(s, j, DigitCommaRun(s, j))
    decreases |s| - j
  {
    if j < |s| && IsDigitOrComma(s[j]) {
      DigitCommaRunSpan(s, j + 1);
    }
  }

  /** A `[\d,]` run that stops before a character outside the class is the run `DigitCommaRun` finds. */
  lemma {:induction false} DigitCommaRunExact(s: string, j: nat, k: nat)
    requires j <= k <= |s| && DigitsOrCommasIn(s, j, k)
    requires k == |s| || !IsDigitOrComma(s[k])
    ensures DigitCommaRun(s, j) == k
    decreases k - j
  {
    if j < k {
      DigitCommaRunExact(s, j + 1, k);
    }
  }

  // ---------------------------------------------------------------------------
  // Validation: /^\$[\d,]+\.\d{2}$/.test(t)

  /** The whole of `t` is a `$`, a non-empty `[\d,]` run, a `.` and two digits. */
  predicate PriceFormatTest(t: string) {
    |t| >= 5 && t[0] == '$' && DigitsOrCommasIn(t, 1, |t| - 3) && CentsAt(t, |t| - 3)
  }

  /** `isSnapOnPriceElement`: the class, and a trimmed text in the price format. */
  predicate IsSnapOnPriceElement(e: Element)
    reads e
  {
    HasClass(e.className, "ng-star-inserted") && PriceFormatTest(Trim(e.text))
  }

  // ---------------------------------------------------------------------------
  // Extraction: text.match(/\$([\d,]+\.\d{2})/)

  /**
   * The extraction regex matches at `i` in the sense of regular-expression
   * semantics: a `$`, some non-empty `[\d,]` stretch up to `k`, then `\.\d{2}`.
   */
  predicate RegexMatchAt(t: string, i: nat)
    requires i < |t|
  {
    t[i] == '$' && exists k | i + 1 < k <= |t| :: DigitsOrCommasIn(t, i + 1, k) && CentsAt(t, k)
  }

  /** The recogniser's test at `i`: a `$`, and the maximal `[\d,]` run after it is non-empty and followed by `\.\d{2}`. */
  predicate DollarAmountAt(t: string, i: nat)
    requires i < |t|
  {
    var k := DigitCommaRun(t, i + 1);
    t[i] == '$' && i + 1 < k && CentsAt(t, k)
  }

  /**
   * The `[\d,]` stretch of a match cannot take in the `.`, so backtracking never
   * helps: the regex matches at `i` exactly when the maximal run does, and the
   * run's end is the only place its `.` can be.
   */
  lemma RegexMatchIsRun(t: string, i: nat)
    requires i < |t|
    ensures RegexMatchAt(t, i) <==> DollarAmountAt(t, i)
    ensures forall k | i + 1 < k <= |t| && DigitsOrCommasIn(t, i + 1, k) && CentsAt(t, k) :: k == DigitCommaRun(t, i + 1)
  {
    forall k | i + 1 < k <= |t| && DigitsOrCommasIn(t, i + 1, k) && CentsAt(t, k)
      ensures k == DigitCommaRun(t, i + 1)
    {
      DigitCommaRunExact(t, i + 1, k);
    }
    if DollarAmountAt(t, i) {
      var k := DigitCommaRun(t, i + 1);
      DigitCommaRunSpan(t, i + 1);
      assert i + 1 < k <= |t| && DigitsOrCommasIn(t, i + 1, k) && CentsAt(t, k);
    }
  }

  /** The leftmost position at or after `j` where the extraction regex matches. */
  function FindDollarAmount(t: string, j: nat): (r: Option<nat>)
    requires j <= |t|
    ensures r.Some? ==> j <= r.value < |t| && DollarAmountAt(t, r.value)
    decreases |t| - j
  {
    if j == |t| then None
    else if DollarAmountAt(t, j) then Some(j)
    else FindDollarAmount(t, j + 1)
  }

  /** No match lies before the one the search finds, and none at all when it finds none. */
  lemma {:induction false} FindDollarAmountLeftmost(t: string, j: nat)
    requires j <= |t|
    ensures FindDollarAmount(t, j).Some? ==> forall m | j <= m < FindDollarAmount(t, j).value :: !DollarAmountAt(t, m)
    ensures FindDollarAmount(t, j).None? ==> forall m | j <= m < |t| :: !DollarAmountAt(t, m)
    decreases |t| - j
  {
    if j < |t| && !DollarAmountAt(t, j) {
      FindDollarAmountLeftmost(t, j + 1);
    }
  }

  /**
   * `extractSnapOnPrice` on the trimmed text `t`: `Number` of the captured
   * amount with its commas removed; null for a blank text, when nothing matches
   * and when the number is NaN.
   */
  function SnapOnTextPrice(t: string): Option<JsNum> {
    if t == [] then None
    else match FindDollarAmount(t, 0)
      case None => None
      case Some(i) => CapturedPrice(t, i)
  }

  /** `Number` of the amount captured by the match at `i`, with its commas removed; null when NaN. */
  function CapturedPrice(t: string, i: nat): Option<JsNum>
    requires i < |t| && DollarAmountAt(t, i)
  {
    var k := DigitCommaRun(t, i + 1);
    var price := ToNumber(RemoveCommas(t[i + 1..k + 3]));
    if price.NaN? then None else Some(price)
  }

  /** `extractSnapOnPrice`. */
  function ExtractSnapOnPrice(e: Element): Option<JsNum>
    reads e
  {
    SnapOnTextPrice(Trim(e.text))
  }

  /** Removing the commas of a `[\d,]` string leaves digits only. */
  lemma {:induction false} RemoveCommasDigitsOrCommas(s: string)
    requires DigitsOrCommasIn(s, 0, |s|)
    ensures AllDigits(RemoveCommas(s))
  {
    if s != [] {
      assert DigitsOrCommasIn(s[1..], 0, |s| - 1) by {
        forall m | 0 <= m < |s| - 1 ensures IsDigitOrComma(s[1..][m]) {
          assert s[1..][m] == s[m + 1];
        }
      }
      RemoveCommasDigitsOrCommas(s[1..]);
      assert IsDigitOrComma(s[0]);
    }
  }

  /** A `[\d,]` stretch of `t`, taken as a string of its own. */
  lemma DigitsOrCommasSlice(t: string, a: nat, b: nat)
    requires a <= b <= |t| && DigitsOrCommasIn(t, a, b)
    ensures DigitsOrCommasIn(t[a..b], 0, b - a)
  {
    forall m | 0 <= m < b - a ensures IsDigitOrComma(t[a..b][m]) {
      assert t[a..b][m] == t[a + m];
    }
  }

  /** The two digits of `\.\d{2}` at `k`, taken as a string of their own. */
  lemma CentsDigitsAt(t: string, k: nat)
    requires k <= |t| && CentsAt(t, k)
    ensures |t[k + 1..k + 3]| == 2 && AllDigits(t[k + 1..k + 3])
  {
    var f := t[k + 1..k + 3];
    assert f[0] == t[k + 1] && f[1] == t[k + 2];
  }

  /** The amount captured at a match is its `[\d,]` run with the commas dropped, a `.` and two digits. */
  lemma CapturedLayout(t: string, i: nat, k: nat)
    requires i < |t| && DollarAmountAt(t, i) && k == DigitCommaRun(t, i + 1)
    ensures AllDigits(RemoveCommas(t[i + 1..k])) && AllDigits(t[k + 1..k + 3])
    ensures RemoveCommas(t[i + 1..k + 3]) == RemoveCommas(t[i + 1..k]) + "." + t[k + 1..k + 3]
  {
    DigitCommaRunSpan(t, i + 1);
    DigitsOrCommasSlice(t, i + 1, k);
    RemoveCommasDigitsOrCommas(t[i + 1..k]);
    CentsAppended(t, i + 1, k);
    CentsDigitsAt(t, k);
  }

  /**
   * The amount captured at a match ending its `[\d,]` run at `k` reads as the
   * digits of the run plus its two cent digits as a fraction: finite and not negative.
   */
  lemma CapturedValue(t: string, i: nat, k: nat)
    requires i < |t| && DollarAmountAt(t, i) && k == DigitCommaRun(t, i + 1)
    ensures AllDigits(RemoveCommas(t[i + 1..k]))
    ensures ToNumber(RemoveCommas(t[i + 1..k + 3]))
            == Finite(DigitsValue(RemoveCommas(t[i + 1..k])) as real + FractionValue(t[k + 1..k + 3]))
  {
    CapturedLayout(t, i, k);
    ToNumberDecimal(RemoveCommas(t[i + 1..k + 3]), RemoveCommas(t[i + 1..k]), t[k + 1..k + 3]);
  }

  /** The price read from a text is the number captured at the leftmost match, unless NaN. */
  lemma SnapOnTextPriceAt(t: string, i: nat, k: nat)
    requires FindDollarAmount(t, 0) == Some(i) && k == DigitCommaRun(t, i + 1)
    ensures k + 3 <= |t|
    ensures SnapOnTextPrice(t)
            == var price := ToNumber(RemoveCommas(t[i + 1..k + 3])); if price.NaN? then None else Some(price)
  {
    assert SnapOnTextPrice(t) == CapturedPrice(t, i);
  }

  /** The leftmost-match search finds a match exactly when the regex matches somewhere. */
  lemma FindDollarAmountIsRegex(t: string)
    ensures FindDollarAmount(t, 0).Some? <==> exists i | 0 <= i < |t| :: RegexMatchAt(t, i)
  {
    FindDollarAmountLeftmost(t, 0);
    forall i | 0 <= i < |t| ensures RegexMatchAt(t, i) <==> DollarAmountAt(t, i) {
      RegexMatchIsRun(t, i);
    }
  }

  /** A price is read from a text exactly when the leftmost-match search finds a match; it is then finite and not negative. */
  lemma SnapOnTextPriceFound(t: string)
    ensures SnapOnTextPrice(t).Some? <==> FindDollarAmount(t, 0).Some?
    ensures SnapOnTextPrice(t).Some? ==> SnapOnTextPrice(t).value.Finite? && SnapOnTextPrice(t).value.value >= 0.0
  {
    if FindDollarAmount(t, 0).Some? {
      SnapOnTextPriceCaptured(t, FindDollarAmount(t, 0).value);
    }
  }

  /** The number captured at a match is finite and not negative. */
  lemma SnapOnTextPriceCaptured(t: string, i: nat)
    requires FindDollarAmount(t, 0) == Some(i)
    ensures SnapOnTextPrice(t).Some? && SnapOnTextPrice(t).value.Finite? && SnapOnTextPrice(t).value.value >= 0.0
  {
    var k := DigitCommaRun(t, i + 1);
    SnapOnTextPriceAt(t, i, k);
    CapturedValue(t, i, k);
  }

  /** A price is read from a trimmed text exactly when the regex matches somewhere; it is then finite and not negative. */
  lemma SnapOnTextPriceMatches(t: string)
    ensures SnapOnTextPrice(t).Some? <==> exists i | 0 <= i < |t| :: RegexMatchAt(t, i)
    ensures SnapOnTextPrice(t).Some? ==> SnapOnTextPrice(t).value.Finite? && SnapOnTextPrice(t).value.value >= 0.0
  {
    FindDollarAmountIsRegex(t);
    SnapOnTextPriceFound(t);
  }

  /** A text in the validated price format matches at its `$`, with the run ending at the `.`. */
  lemma ValidatedMatch(t: string)
    requires PriceFormatTest(t)
    ensures FindDollarAmount(t, 0) == Some(0) && DigitCommaRun(t, 1) == |t| - 3
  {
    DigitCommaRunExact(t, 1, |t| - 3);
    assert DollarAmountAt(t, 0);
  }

  /** A text in the validated price format reads as its digits, with the commas dropped, plus its cents. */
  lemma ValidatedTextPrice(t: string)
    requires PriceFormatTest(t)
    ensures AllDigits(RemoveCommas(t[1..|t| - 3]))
    ensures SnapOnTextPrice(t)
            == Some(Finite(DigitsValue(RemoveCommas(t[1..|t| - 3])) as real + FractionValue(t[|t| - 2..|t|])))
  {
    var k := |t| - 3;
    ValidatedMatch(t);
    SnapOnTextPriceAt(t, 0, k);
    CapturedValue(t, 0, k);
    assert t[0 + 1..k + 3] == t[1..|t|] && t[k + 1..k + 3] == t[|t| - 2..|t|];
  }

  /** `isPriceNode` of the Snap-on adapter: the trimmed text is in the price format. */
  predicate SnapOnIsPriceNode(text: string) {
    PriceFormatTest(Trim(text))
  }

  /** The element test is the class test plus the text test of `isPriceNode`, and what passes yields a price. */
  lemma SnapOnElementIsPriceNode(e: Element)
    ensures IsSnapOnPriceElement(e) <==> HasClass(e.className, "ng-star-inserted") && SnapOnIsPriceNode(e.text)
    ensures IsSnapOnPriceElement(e) ==> ExtractSnapOnPrice(e).Some? && ExtractSnapOnPrice(e).value.Finite?
  {
    if IsSnapOnPriceElement(e) {
      ValidatedTextPrice(Trim(e.text));
    }
  }

  /** In the currency format the units' `[\d,]` run ends at the `.`. */
  lemma LayoutRun(t: string, q: nat, n: nat)
    requires FormattedLayout(t, q, n)
    ensures |t| - 3 == q + 1 + |Grouped(n / 100)|
    ensures DigitsOrCommasIn(t, q + 1, |t| - 3) && CentsAt(t, |t| - 3)
    ensures DigitCommaRun(t, q + 1) == |t| - 3
  {
    var g := Grouped(n / 100);
    var k := q + 1 + |g|;
    GroupedChars(n / 100);
    forall m | q + 1 <= m < k ensures IsDigitOrComma(t[m]) {
      assert t[m] == t[q + 1..k][m - q - 1] == g[m - q - 1];
    }
    var c := t[k + 1..];
    assert c == Pad2(n % 100) && IsDigit(c[0]) && IsDigit(c[1]);
    assert t[k + 1] == c[0] && t[k + 2] == c[1];
    DigitCommaRunExact(t, q + 1, k);
  }

  /** The currency format of `n` cents passes the price-format test exactly when it has no sign. */
  lemma FormatCentsValidated(negative: bool, n: nat)
    ensures PriceFormatTest(FormatCents(negative, n)) <==> !negative
  {
    var t := FormatCents(negative, n);
    FormatCentsLayout(negative, n, t);
    LayoutRun(t, if negative then 1 else 0, n);
  }

  /** The currency format of `x` passes the price-format test exactly when `x` is not negative. */
  lemma FormatUsdValidated(x: real)
    ensures PriceFormatTest(FormatUsd(x)) <==> x >= 0.0
  {
    FormatCentsValidated(x < 0.0, CentsMagnitude(x));
  }

  /** A currency-formatted text is already trimmed. */
  lemma FormatCentsTrimmed(negative: bool, n: nat)
    ensures Trim(FormatCents(negative, n)) == FormatCents(negative, n)
  {
    var t := FormatCents(negative, n);
    FormatCentsLayout(negative, n, t);
    LayoutRun(t, if negative then 1 else 0, n);
    TrimOfTrimmed(t);
  }

  /** In the currency format the match is at the `$` and captures the grouped units and the cents. */
  lemma FormatCentsMatch(negative: bool, n: nat, t: string, q: nat)
    requires t == FormatCents(negative, n) && q == if negative then 1 else 0
    ensures q + 4 <= |t| && FindDollarAmount(t, 0) == Some(q) && DigitCommaRun(t, q + 1) == |t| - 3
    ensures RemoveCommas(t[q + 1..(|t| - 3) + 3]) == RemoveCommas(Grouped(n / 100)) + "." + Pad2(n % 100)
  {
    FormatCentsLayout(negative, n, t);
    LayoutRun(t, q, n);
    var k := |t| - 3;
    assert DollarAmountAt(t, q);
    if q == 1 { assert !DollarAmountAt(t, 0); }
    CentsAppended(t, q + 1, k);
    assert t[q + 1..k] == Grouped(n / 100);
    assert t[k + 1..k + 3] == Pad2(n % 100);
  }

  /** A match capturing grouped units and two cent digits reads as that many cents over 100. */
  lemma CapturedCents(t: string, q: nat, k: nat, n: nat)
    requires FindDollarAmount(t, 0) == Some(q) && k == DigitCommaRun(t, q + 1) && k + 3 <= |t|
    requires RemoveCommas(t[q + 1..k + 3]) == RemoveCommas(Grouped(n / 100)) + "." + Pad2(n % 100)
    ensures SnapOnTextPrice(t) == Some(Finite(n as real / 100.0))
  {
    SnapOnTextPriceAt(t, q, k);
    FormattedValue(RemoveCommas(t[q + 1..k + 3]), n);
  }

  /** Extraction reads the currency format of `n` cents back as `n` cents: a minus sign before the `$` is outside the match. */
  lemma ExtractFormatCents(negative: bool, n: nat)
    ensures SnapOnTextPrice(FormatCents(negative, n)) == Some(Finite(n as real / 100.0))
  {
    var t := FormatCents(negative, n);
    var q := if negative then 1 else 0;
    FormatCentsMatch(negative, n, t, q);
    CapturedCents(t, q, |t| - 3, n);
  }

  /** Extraction reads a currency-formatted price back as its magnitude rounded to cents. */
  lemma ExtractFormatUsd(x: real)
    ensures SnapOnTextPrice(FormatUsd(x)) == Some(Finite(CentsMagnitude(x) as real / 100.0))
  {
    ExtractFormatCents(x < 0.0, CentsMagnitude(x));
  }

  /** The text `updateSnapOnPrice` writes passes the price-format test exactly for a price that is not negative. */
  lemma WrittenTextValidated(x: real)
    ensures PriceFormatTest(Trim(FormatUsd(x))) <==> x >= 0.0
  {
    WrittenCents(x < 0.0, CentsMagnitude(x), FormatUsd(x));
  }

  /** The text `updateSnapOnPrice` writes for a price that is not negative reads back as the price rounded to cents. */
  lemma WrittenTextValue(x: real)
    requires x >= 0.0
    ensures SnapOnTextPrice(Trim(FormatUsd(x))) == Some(Finite(RoundedToCents(x)))
  {
    WrittenCents(false, CentsMagnitude(x), FormatUsd(x));
  }

  /** The trimmed currency format `t` of `n` cents passes the test exactly without a sign, and reads back as `n` cents. */
  lemma WrittenCents(negative: bool, n: nat, t: string)
    requires t == FormatCents(negative, n)
    ensures PriceFormatTest(Trim(t)) <==> !negative
    ensures SnapOnTextPrice(Trim(t)) == Some(Finite(SignedCents(false, n)))
  {
    FormatCentsTrimmed(negative, n);
    FormatCentsValidated(negative, n);
    ExtractFormatCents(negative, n);
  }

  /**
   * `updateSnapOnPrice`: an element that passes the test gets the currency
   * format of `newPrice`; any other keeps its text. A price that is not negative
   * keeps the element a price element and reads back rounded to cents; a
   * negative one turns it into an element the test rejects.
   */
  method UpdateSnapOnPrice(e: Element, newPrice: real)
    modifies e
    ensures e.text == if old(IsSnapOnPriceElement(e)) then FormatUsd(newPrice) else old(e.text)
    ensures old(IsSnapOnPriceElement(e)) && newPrice >= 0.0
            ==> IsSnapOnPriceElement(e) && ExtractSnapOnPrice(e) == Some(Finite(RoundedToCents(newPrice)))
    ensures old(IsSnapOnPriceElement(e)) && newPrice < 0.0 ==> !IsSnapOnPriceElement(e)
  {
    var formattedPrice := FormatUsd(newPrice);
    if IsSnapOnPriceElement(e) {
      e.text := formattedPrice;
      WrittenTextValidated(newPrice);
      if newPrice >= 0.0 {
        WrittenTextValue(newPrice);
      }
    }
  }

  /** The `HTMLElement`s of `es` that pass the element test, in order. */
  function SnapOnCandidates(es: seq<Element>): (r: seq<Element>)
    reads set x | x in es
    ensures forall x | x in r :: x in es && x.isHTML && IsSnapOnPriceElement(x)
    ensures forall x | x in es && x.isHTML && IsSnapOnPriceElement(x) :: x in r
  {
    if es == [] then []
    else (if es[0].isHTML && IsSnapOnPriceElement(es[0]) then [es[0]] else []) + SnapOnCandidates(es[1..])
  }

  /** Filtering a concatenation filters each part. */
  lemma {:induction false} SnapOnCandidatesAppend(a: seq<Element>, b: seq<Element>)
    ensures SnapOnCandidates(a + b) == SnapOnCandidates(a) + SnapOnCandidates(b)
  {
    if a == [] {
      assert a + b == b;
    } else {
      assert (a + b)[0] == a[0];
      assert (a + b)[1..] == a[1..] + b;
      SnapOnCandidatesAppend(a[1..], b);
    }
  }

  /** One element is kept exactly when it passes. */
  lemma SnapOnCandidatesOne(x: Element)
    ensures SnapOnCandidates([x]) == if x.isHTML && IsSnapOnPriceElement(x) then [x] else []
  {
    assert [x][1..] == [];
  }

  /** `findSnapOnPriceElements` over the elements of the page in document order. */
  method FindSnapOnPriceElements(doc: seq<Element>) returns (elements: seq<Element>)
    ensures elements == SnapOnCandidates(WithClass(doc, "ng-star-inserted"))
    ensures forall x | x in elements :: x in doc && x.isHTML && IsSnapOnPriceElement(x)
    ensures forall x | x in doc && x.isHTML && IsSnapOnPriceElement(x) :: x in elements
  {
    elements := [];
    var potentialElements := WithClass(doc, "ng-star-inserted");
    for i := 0 to |potentialElements|
      invariant elements == SnapOnCandidates(potentialElements[..i])
    {
      var element := potentialElements[i];
      PrefixSnoc(potentialElements, i);
      SnapOnCandidatesAppend(potentialElements[..i], [element]);
      SnapOnCandidatesOne(element);
      if element.isHTML && IsSnapOnPriceElement(element) {
        elements := elements + [element];
      }
    }
    assert potentialElements[..|potentialElements|] == potentialElements;
  }
}
