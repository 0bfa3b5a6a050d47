/**
 * The Amazon adapter: a price element carries class `a-price` and shows its
 * price in two sub-elements, `.a-price-whole` and `.a-price-fraction`, which are
 * read back in cents and written from the two-decimal form.
 */
module AmazonPrice {
  import opened Wrappers
  import opened JsText
  import opened JsNumber
  import opened Dom

  /** `isAmazonPriceElement`. */
  predicate IsAmazonPriceElement(e: Element) {
    HasClass(e.className, "a-price")
  }

  /** One part as `extractAmazonPrice` reads it: trimmed, defaulted to `d` when blank, then `parseInt`. */
  function ReadPart(s: string, d: string): JsNum {
    ParseInt10(OrDefault(Trim(s), d))
  }

  /**
   * The number `extractAmazonPrice` computes from the texts of the two parts:
   * `(parseInt(whole) * 100 + parseInt(fraction)) / 100`, blank parts read as `0` and `00`.
   */
  function AmazonValue(whole: string, fraction: string): JsNum {
    MulPositive(Add(MulPositive(ReadPart(whole, "0"), 100.0), ReadPart(fraction, "00")), 1.0 / 100.0)
  }

  /** The whole-part sub-element, if any. */
  function WholePart(e: Element): Element? {
    QuerySelector(e, "a-price-whole")
  }

  /** The fraction sub-element, if any. */
  function FractionPart(e: Element): Element? {
    QuerySelector(e, "a-price-fraction")
  }

  /** `extractAmazonPrice`: null when either sub-element is missing. */
  function ExtractAmazonPrice(e: Element): (r: Option<JsNum>)
    reads e.descendants
    ensures r.None? <==> WholePart(e) == null || FractionPart(e) == null
  {
    var whole, fraction := WholePart(e), FractionPart(e);
    if whole == null || fraction == null then None
    else Some(AmazonValue(whole.text, fraction.text))
  }

  /** With neither part blank after trimming, the value combines the `parseInt` of each trimmed text. */
  lemma AmazonValueOf(whole: string, fraction: string, w: JsNum, f: JsNum)
    requires Trim(whole) != [] && ParseInt10(Trim(whole)) == w
    requires Trim(fraction) != [] && ParseInt10(Trim(fraction)) == f
    ensures AmazonValue(whole, fraction) == MulPositive(Add(MulPositive(w, 100.0), f), 1.0 / 100.0)
  {
  }

  /** `parseInt` of the defaulted trim of a digit string is its digits' value; blank reads as 0. */
  lemma DefaultedDigits(s: string, d: string)
    requires AllDigits(Trim(s)) && (d == "0" || d == "00")
    ensures ReadPart(s, d) == Finite(DigitsValue(Trim(s)) as real)
  {
    var t := OrDefault(Trim(s), d);
    if Trim(s) == [] {
      assert DigitsValue("0") == 0 by { assert "0"[..0] == []; }
      assert DigitsValue("00") == 0 by { assert "00"[..1] == "0"; }
    }
    ParseInt10Digits(t);
  }

  /**
   * Two parts whose trimmed texts are digit strings read as the cents
   * `100 * whole + fraction`; blank parts count as 0.
   */
  lemma AmazonValueDigits(whole: string, fraction: string)
    requires AllDigits(Trim(whole)) && AllDigits(Trim(fraction))
    ensures AmazonValue(whole, fraction)
            == Finite((DigitsValue(Trim(whole)) * 100 + DigitsValue(Trim(fraction))) as real / 100.0)
  {
    DefaultedDigits(whole, "0");
    DefaultedDigits(fraction, "00");
  }

  /** A digit string has no whitespace to trim. */
  lemma TrimDigits(d: string)
    requires AllDigits(d)
    ensures Trim(d) == d
  {
    if d != [] {
      assert IsDigit(d[0]) && IsDigit(d[|d| - 1]);
    }
    TrimOfTrimmed(d);
  }

  /** A part whose text is a digit string reads as the value of its digits. */
  lemma ReadPartDigits(s: string, d: string)
    requires AllDigits(s) && (d == "0" || d == "00")
    ensures ReadPart(s, d) == Finite(DigitsValue(s) as real)
  {
    TrimDigits(s);
    DefaultedDigits(s, d);
  }

  /** The parts written for `n` cents, without a sign, read back as `n` cents. */
  lemma AmazonCentsRoundTrip(n: nat)
    ensures AmazonValue(FixedWhole(false, n), Pad2(n % 100)) == Finite(SignedCents(false, n))
  {
    var w, f := DigitsValue(NatToDigits(n / 100)), DigitsValue(Pad2(n % 100));
    ReadPartDigits(NatToDigits(n / 100), "0");
    ReadPartDigits(Pad2(n % 100), "00");
    CentsDigits(n);
    CentsArithmetic(w, f, n);
  }

  /** `(w * 100 + f) / 100` in floating point is `n / 100` when `w * 100 + f == n`. */
  lemma CentsArithmetic(w: nat, f: nat, n: nat)
    requires w * 100 + f == n
    ensures MulPositive(Add(MulPositive(Finite(w as real), 100.0), Finite(f as real)), 1.0 / 100.0)
            == Finite(SignedCents(false, n))
  {
  }

  /** Parts that are digit strings read as `100 * whole + fraction` cents. */
  lemma AmazonDigitStrings(d: string, f: string)
    requires AllDigits(d) && AllDigits(f)
    ensures AmazonValue(d, f) == Finite((DigitsValue(d) * 100 + DigitsValue(f)) as real / 100.0)
  {
    ReadPartDigits(d, "0");
    ReadPartDigits(f, "00");
  }

  /** The digits of the units and of the cents of `n` cents make up `n`. */
  lemma CentsDigits(n: nat)
    ensures DigitsValue(NatToDigits(n / 100)) * 100 + DigitsValue(Pad2(n % 100)) == n
  {
  }

  /** What `updateAmazonPrice` writes for a price `x >= 0` reads back as `x` rounded to cents. */
  lemma AmazonRoundTrip(x: real)
    requires x >= 0.0
    ensures AmazonValue(FixedWhole(false, CentsMagnitude(x)), Pad2(CentsMagnitude(x) % 100))
            == Finite(RoundedToCents(x))
  {
    AmazonCentsRoundTrip(CentsMagnitude(x));
  }

  /**
   * A negative price does not read back: the whole part keeps the sign and the
   * fraction is added to it, so `-12.05` is written as `-12` and `05` and read as `-11.95`.
   */
  lemma AmazonNegativeExample()
    ensures AmazonValue("-12", "05") == Finite(-11.95)
  {
    assert DigitsValue("12") == 12 by { assert "12"[..1] == "1" && "1"[..0] == []; }
    assert DigitsValue("05") == 5 by { assert "05"[..1] == "0" && "0"[..0] == []; }
    assert Trim("-12") == "-12" by { TrimOfTrimmed("-12"); }
    TrimDigits("05");
    ParseInt10Negative("-12", "12");
    ParseInt10Digits("05");
    AmazonValueOf("-12", "05", Finite(-12.0), Finite(5.0));
  }

  /**
   * `parseInt` stops at the first non-digit, so a whole part shown with a grouping
   * comma reads as its leading group only: `1,234` and `56` read as 1.56.
   */
  lemma AmazonGroupedWholeExample()
    ensures AmazonValue("1,234", "56") == Finite(1.56)
  {
    assert DigitsValue("1") == 1 by { assert "1"[..0] == []; }
    assert DigitsValue("56") == 56 by { assert "56"[..1] == "5" && "5"[..0] == []; }
    assert Trim("1,234") == "1,234" by { TrimOfTrimmed("1,234"); }
    TrimDigits("56");
    ParseInt10Prefix("1,234", "1", ",234");
    ParseInt10Digits("56");
    AmazonValueOf("1,234", "56", Finite(1.0), Finite(56.0));
  }

  /**
   * `updateAmazonPrice`: the integer part of `newPrice.toFixed(2)` goes into the
   * whole part and its two cent digits into the fraction, each only if present;
   * no other element changes. When both parts exist (and are two elements) and
   * the price is not negative, extraction reads the price back rounded to cents.
   */
  method UpdateAmazonPrice(e: Element, newPrice: real)
    modifies e.descendants
    ensures var whole, fraction := WholePart(e), FractionPart(e);
            && (fraction != null ==> fraction.text == Pad2(CentsMagnitude(newPrice) % 100))
            && (whole != null && whole != fraction ==> whole.text == FixedWhole(newPrice < 0.0, CentsMagnitude(newPrice)))
            && (forall x | x in e.descendants && x != whole && x != fraction :: x.text == old(x.text))
    ensures WholePart(e) != null && FractionPart(e) != null && WholePart(e) != FractionPart(e) && newPrice >= 0.0
            ==> ExtractAmazonPrice(e) == Some(Finite(RoundedToCents(newPrice)))
  {
    var formattedPrice := ToFixed2(newPrice);
    FixedCentsSplit(newPrice < 0.0, CentsMagnitude(newPrice));
    var parts := Split(formattedPrice, '.');
    var wholePart, fractionPart := parts[0], parts[1];
    var whole := WholePart(e);
    var fraction := FractionPart(e);
    if whole != null {
      whole.text := wholePart;
    }
    if fraction != null {
      fraction.text := fractionPart;
    }
    if whole != null && fraction != null && whole != fraction && newPrice >= 0.0 {
      AmazonRoundTrip(newPrice);
    }
  }

  /** `findAmazonPriceElements` over the elements of the page in document order. */
  method FindAmazonPriceElements(doc: seq<Element>) returns (elements: seq<Element>)
    ensures elements == HtmlOnly(WithClass(doc, "a-price"))
    ensures forall x | x in elements :: x in doc && IsAmazonPriceElement(x) && x.isHTML
    ensures forall x | x in doc && IsAmazonPriceElement(x) && x.isHTML :: x in elements
  {
    elements := [];
    var candidates := WithClass(doc, "a-price");
    for i := 0 to |candidates|
      invariant elements == HtmlOnly(candidates[..i])
    {
      var element := candidates[i];
      PrefixSnoc(candidates, i);
      HtmlOnlyAppend(candidates[..i], [element]);
      HtmlOnlyOne(element);
      elements := elements + (if element.isHTML then [element] else []);
    }
    assert candidates[..|candidates|] == candidates;
  }
}
