/**
 * The AliExpress adapter: a price element carries class `kc_k6` and shows its
 * price across `span`s, the second holding the units and the fourth the cents.
 */
module AliExpressPrice {
  import opened Wrappers
  import opened JsText
  import opened JsNumber
  import opened Dom

  /** `isAliExpressPriceElement`. */
  predicate IsAliExpressPriceElement(e: Element) {
    HasClass(e.className, "kc_k6")
  }

  /** The number `extractAliExpressPrice` reads from the units and cents texts: `parseFloat(whole + '.' + decimal)`. */
  function AliValue(whole: string, decimal: string): JsNum {
    ParseFloat(OrDefault(whole, "0") + "." + OrDefault(decimal, "00"))
  }

  /** `extractAliExpressPrice`: null with fewer than four spans and when the parts do not parse. */
  function ExtractAliExpressPrice(e: Element): (r: Option<JsNum>)
    reads e.descendants
    ensures var spans := Spans(e.descendants);
            r.None? <==> |spans| < 4 || AliValue(spans[1].text, spans[3].text).NaN?
    ensures r.Some? ==> var spans := Spans(e.descendants);
                        r.value == AliValue(spans[1].text, spans[3].text) && !r.value.NaN?
  {
    var spans := Spans(e.descendants);
    if |spans| < 4 then None
    else
      assert spans[1] in spans && spans[3] in spans;
      var price := AliValue(spans[1].text, spans[3].text);
      if price.NaN? then None else Some(price)
  }

  /**
   * Parts that are digit strings read as units plus the cents as a decimal
   * fraction; a blank units part reads as 0 and a blank cents part as 00.
   */
  lemma AliDigitStrings(whole: string, decimal: string)
    requires AllDigits(whole) && AllDigits(decimal)
    ensures AliValue(whole, decimal)
            == Finite(DigitsValue(OrDefault(whole, "0")) as real + FractionValue(OrDefault(decimal, "00")))
  {
    var d, f := OrDefault(whole, "0"), OrDefault(decimal, "00");
    assert AllDigits(d) && AllDigits(f);
    ParseFloatUnsigned(d + "." + f, d, f);
  }

  /**
   * What `updateAliExpressPrice` writes for any price `x` reads back as `x`
   * rounded to cents: the sign stays with the units and `parseFloat` applies it
   * to the fraction too.
   */
  lemma AliRoundTrip(x: real)
    ensures AliValue(FixedWhole(x < 0.0, CentsMagnitude(x)), Pad2(CentsMagnitude(x) % 100))
            == Finite(RoundedToCents(x))
  {
    var n := CentsMagnitude(x);
    assert AliValue(FixedWhole(x < 0.0, n), Pad2(n % 100)) == ParseFloat(FixedCents(x < 0.0, n));
    ParseFloatFixedCents(x < 0.0, n);
  }

  /**
   * `updateAliExpressPrice`: with at least four spans, the integer part of
   * `newPrice.toFixed(2)` goes into the second and its cent digits into the
   * fourth; nothing else changes. When those two spans are distinct elements the
   * price reads back rounded to cents, whatever its sign.
   */
  method UpdateAliExpressPrice(e: Element, newPrice: real)
    modifies Spans(e.descendants)
    ensures var spans := Spans(e.descendants);
            |spans| >= 4 ==> && spans[3].text == Pad2(CentsMagnitude(newPrice) % 100)
                             && (spans[1] != spans[3] ==> spans[1].text == FixedWhole(newPrice < 0.0, CentsMagnitude(newPrice)))
    ensures var spans := Spans(e.descendants);
            forall x | x in e.descendants && (|spans| < 4 || (x != spans[1] && x != spans[3])) :: x.text == old(x.text)
    ensures var spans := Spans(e.descendants);
            |spans| >= 4 && spans[1] != spans[3] ==> ExtractAliExpressPrice(e) == Some(Finite(RoundedToCents(newPrice)))
  {
    var formattedPrice := ToFixed2(newPrice);
    FixedCentsSplit(newPrice < 0.0, CentsMagnitude(newPrice));
    var parts := Split(formattedPrice, '.');
    var wholePart, decimalPart := parts[0], parts[1];
    var spans := Spans(e.descendants);
    if |spans| >= 4 {
      spans[1].text := wholePart;
      spans[3].text := decimalPart;
      if spans[1] != spans[3] {
        AliRoundTrip(newPrice);
      }
    }
  }

  /** `findAliExpressPriceElements` over the elements of the page in document order. */
  method FindAliExpressPriceElements(doc: seq<Element>) returns (elements: seq<Element>)
    ensures elements == HtmlOnly(WithClass(doc, "kc_k6"))
    ensures forall x | x in elements :: x in doc && IsAliExpressPriceElement(x) && x.isHTML
    ensures forall x | x in doc && IsAliExpressPriceElement(x) && x.isHTML :: x in elements
  {
    elements := [];
    var candidates := WithClass(doc, "kc_k6");
    for i := 0 to |candidates|
      invariant elements == HtmlOnly(candidates[..i])
    {
      var element := candidates[i];
      PrefixSnoc(candidates, i);
      HtmlOnlyAppend(candidates[..i], [element]);
      HtmlOnlyOne(element);
      if element.isHTML {
        elements := elements + [element];
      }
    }
    assert candidates[..|candidates|] == candidates;
  }
}
